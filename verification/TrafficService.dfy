/** `AddTraffic` and its parts, step by step on the tables of an `InboundService`. */
module TrafficService {
  import opened Panel
  import opened Traffic
  import Ledger
  import opened InboundServices

  // ----- counting -----

  method AddInboundTraffic(s: InboundService, tags: seq<TagTraffic>)
    modifies s
    ensures s.Tables() == CountedTags(old(s.Tables()), tags)
  {
    ghost var t := s.Tables();
    assert tags[..0] == [];
    NothingCounted(t);
    for i := 0 to |tags|
      invariant s.traffics == t.traffics && s.inbounds == CountedTags(t, tags[..i]).inbounds
    {
      var x := tags[i];
      ghost var before := s.inbounds;
      if x.isInbound {
        s.inbounds := map id | id in s.inbounds ::
          if s.inbounds[id].tag == x.tag
          then s.inbounds[id].(up := s.inbounds[id].up + x.up, down := s.inbounds[id].down + x.down,
                               allTime := s.inbounds[id].allTime + (x.up + x.down))
          else s.inbounds[id];
      }
      NextTag(t, tags, i, before, s.inbounds);
    }
    assert tags[..|tags|] == tags;
  }

  lemma NextTag(t: Tables, tags: seq<TagTraffic>, i: nat, before: map<int, Inbound>, after: map<int, Inbound>)
    requires i < |tags| && before == CountedTags(t, tags[..i]).inbounds
    requires after.Keys == before.Keys && forall id :: id in before ==> after[id] == CountOne(before[id], tags[i])
    ensures after == CountedTags(t, tags[..i + 1]).inbounds
  {
    assert tags[..i + 1][..i] == tags[..i];
    forall id | id in t.inbounds
      ensures after[id] == CountedTags(t, tags[..i + 1]).inbounds[id]
    {
      assert before[id] == CountTag(t.inbounds[id], tags[..i]);
    }
  }

  /** The loop that finds a row's report, and stops there. */
  method CountReport(r: ClientTraffic, email: string, reports: seq<Report>) returns (r': ClientTraffic)
    ensures r' == CountRow(r, reports, email)
  {
    for j := 0 to |reports|
      invariant forall i :: 0 <= i < j ==> reports[i].email != email
    {
      if reports[j].email == email {
        FirstReportAt(reports, email, j);
        return r.(up := r.up + reports[j].up, down := r.down + reports[j].down,
                  allTime := r.allTime + (reports[j].up + reports[j].down));
      }
    }
    r' := r;
  }

  lemma {:induction false} FirstReportAt(reports: seq<Report>, email: string, j: nat)
    requires j < |reports| && reports[j].email == email
    requires forall i :: 0 <= i < j ==> reports[i].email != email
    ensures FirstReport(reports, email) == reports[j]
  {
    if j == 0 {
    } else {
      assert reports[1..][j - 1].email == email;
      FirstReportAt(reports[1..], email, j - 1);
    }
  }

  // ----- durations, and the reports of clients -----

  /** The tables when the inbounds in `done` have been adjusted and the others not yet. */
  ghost predicate AdjustedUpTo(t: Tables, reports: seq<Report>, now: int, done: set<int>, u: Tables) {
    && u.inbounds.Keys == t.inbounds.Keys && u.traffics.Keys == t.traffics.Keys
    && (forall id :: id in t.inbounds ==>
          u.inbounds[id] == if id in done then Started(t, reports, now).inbounds[id] else t.inbounds[id])
    && (forall k :: k in t.traffics ==>
          u.traffics[k] == if k.0 in done then StartedRow(t, reports, now, k) else t.traffics[k])
  }

  predicate Matches(rows: map<RowKey, ClientTraffic>, db: set<RowKey>, c: Client, k: RowKey) {
    k in db && k in rows && rows[k].expiryTime < 0 && k.1 == c.email
  }

  /** Either no row matches and nothing changes, or one that matches gets the client's new expiry. */
  ghost predicate ClientAdjusted(rows: map<RowKey, ClientTraffic>, rows': map<RowKey, ClientTraffic>,
                                 db: set<RowKey>, now: int, c: Client, c': Client)
  {
    if exists k :: Matches(rows, db, c, k) then
      c' == c.(expiryTime := now - c.expiryTime) &&
      exists k :: Matches(rows, db, c, k) && rows' == rows[k := rows[k].(expiryTime := now - c.expiryTime)]
    else c' == c && rows' == rows
  }

  /** The innermost loop: the first loaded row that is not started and has the client's email. */
  method AdjustClient(s: InboundService, c: Client, db: set<RowKey>, now: int) returns (c': Client)
    requires db <= s.traffics.Keys
    modifies s`traffics
    ensures ClientAdjusted(old(s.traffics), s.traffics, db, now, c, c')
  {
    c' := c;
    if exists k :: k in db && Matches(s.traffics, db, c, k) {
      var k :| k in db && Matches(s.traffics, db, c, k);
      var newExpiryTime := now - c.expiryTime;
      c' := c.(expiryTime := newExpiryTime);
      s.traffics := s.traffics[k := s.traffics[k].(expiryTime := newExpiryTime)];
    }
  }

  /** Nothing is assumed of the tables but what the loop needs to run; `good` says when it does the right thing. */
  ghost predicate Good(t: Tables, reports: seq<Report>, now: int, done: set<int>, id: int, db: set<RowKey>) {
    Clean(t) && id in t.inbounds && id !in done && db == set k | k in t.traffics && IsReported(reports, k.1)
  }

  /** The rows when the first m clients of the inbound have been looked at. */
  ghost predicate RowsUpTo(t: Tables, reports: seq<Report>, now: int, done: set<int>, id: int, m: nat, rows: map<RowKey, ClientTraffic>)
    requires id in t.inbounds && m <= |t.inbounds[id].clients|
  {
    && rows.Keys == t.traffics.Keys
    && forall k :: k in t.traffics ==>
         rows[k] == if k.0 in done || (k.0 == id && HasEmail(t.inbounds[id].clients[..m], k.1))
                    then StartedRow(t, reports, now, k) else t.traffics[k]
  }

  ghost predicate ClientsUpTo(t: Tables, reports: seq<Report>, now: int, done: set<int>, id: int, m: nat,
                              rows: map<RowKey, ClientTraffic>, newClients: seq<Client>)
  {
    && id in t.inbounds && m <= |t.inbounds[id].clients|
    && RowsUpTo(t, reports, now, done, id, m, rows)
    && newClients == StartedClients(t, reports, now, id)[..m]
  }

  method AdjustInbound(s: InboundService, id: int, db: set<RowKey>, now: int,
                       ghost t: Tables, ghost reports: seq<Report>, ghost done: set<int>)
    requires id in s.inbounds && db <= s.traffics.Keys
    modifies s
    ensures s.traffics.Keys == old(s.traffics).Keys && s.inbounds.Keys == old(s.inbounds).Keys
    ensures forall k :: k in old(s.traffics) && k !in db ==> s.traffics[k] == old(s.traffics)[k]
    ensures Good(t, reports, now, done, id, db) && AdjustedUpTo(t, reports, now, done, old(s.Tables())) ==>
              AdjustedUpTo(t, reports, now, done + {id}, s.Tables())
  {
    ghost var good := Good(t, reports, now, done, id, db) && AdjustedUpTo(t, reports, now, done, s.Tables());
    var clients := s.inbounds[id].clients;
    var newClients: seq<Client> := [];
    if good {
      assert forall e :: !HasEmail(clients[..0], e);
    }
    for m := 0 to |clients|
      invariant s.inbounds == old(s.inbounds) && s.traffics.Keys == old(s.traffics).Keys
      invariant forall k :: k in old(s.traffics) && k !in db ==> s.traffics[k] == old(s.traffics)[k]
      invariant good ==> ClientsUpTo(t, reports, now, done, id, m, s.traffics, newClients)
    {
      ghost var rows := s.traffics;
      var c := AdjustClient(s, clients[m], db, now);
      if good {
        NextClient(t, reports, now, done, id, m, db, rows, s.traffics, newClients, c);
      }
      newClients := newClients + [c];
    }
    s.inbounds := s.inbounds[id := s.inbounds[id].(clients := newClients)];
    if good {
      InboundAdjusted(t, reports, now, done, id, old(s.Tables()), s.Tables(), newClients);
    }
  }

  /** The inbounds of the rows with a duration that are to start. */
  function InboundsOf(rows: map<RowKey, ClientTraffic>, db: set<RowKey>): set<int>
    requires db <= rows.Keys
  {
    set k | k in db && rows[k].expiryTime < 0 :: k.0
  }

  lemma StartersAreDone(t: Tables, db: set<RowKey>, reports: seq<Report>, done: set<int>)
    requires db == set k | k in t.traffics && IsReported(reports, k.1)
    requires done == InboundsOf(t.traffics, db) * t.inbounds.Keys
    ensures forall k :: Starts(t, reports, k) && k.0 in t.inbounds ==> k.0 in done
  {
  }

  method AdjustTraffics(s: InboundService, db: set<RowKey>, ghost reports: seq<Report>, now: int)
    requires db == set k | k in s.traffics && IsReported(reports, k.1)
    modifies s
    ensures old(Clean(s.Tables())) ==> s.Tables() == Started(old(s.Tables()), reports, now)
    ensures s.traffics.Keys == old(s.traffics).Keys && s.inbounds.Keys == old(s.inbounds).Keys
    ensures forall k :: k in old(s.traffics) && k !in db ==> s.traffics[k] == old(s.traffics)[k]
  {
    ghost var t := s.Tables();
    var inboundIds := InboundsOf(s.traffics, db);
    var rest := inboundIds * s.inbounds.Keys;
    ghost var done: set<int> := {};
    while exists id :: id in rest
      invariant rest <= s.inbounds.Keys && rest !! done
      invariant rest + done == inboundIds * t.inbounds.Keys
      invariant s.traffics.Keys == t.traffics.Keys && s.inbounds.Keys == t.inbounds.Keys
      invariant forall k :: k in t.traffics && k !in db ==> s.traffics[k] == t.traffics[k]
      invariant Clean(t) ==> AdjustedUpTo(t, reports, now, done, s.Tables())
      decreases rest
    {
      var id :| id in rest;
      AdjustInbound(s, id, db, now, t, reports, done);
      rest := rest - {id};
      done := done + {id};
    }
    if Clean(t) {
      StartersAreDone(t, db, reports, done);
      AllAdjusted(t, reports, now, done, s.Tables());
    }
  }

  method AddClientTraffic(s: InboundService, reports: seq<Report>, now: int)
    modifies s
    ensures old(Clean(s.Tables())) ==>
              s.Tables() == CountedRows(Started(old(s.Tables()), reports, now), reports)
    ensures s.traffics.Keys == old(s.traffics).Keys && s.inbounds.Keys == old(s.inbounds).Keys
    ensures forall k :: k in old(s.traffics) && !IsReported(reports, k.1) ==> s.traffics[k] == old(s.traffics)[k]
  {
    ghost var t := s.Tables();
    var db := set k | k in s.traffics && IsReported(reports, k.1);
    if |reports| == 0 || !(exists k :: k in db) {
      assert forall k :: k in t.traffics && IsReported(reports, k.1) ==> k in db;
      NothingToCount(t, reports, now);
      return;
    }
    AdjustTraffics(s, db, reports, now);
    ghost var adjusted := s.Tables();
    var rest := db;
    while exists k :: k in rest
      invariant rest <= db
      invariant s.inbounds == adjusted.inbounds && s.traffics.Keys == adjusted.traffics.Keys
      invariant forall k :: k in s.traffics ==>
                  s.traffics[k] == if k in rest then adjusted.traffics[k] else CountRow(adjusted.traffics[k], reports, k.1)
      decreases rest
    {
      var k :| k in rest;
      var r := CountReport(s.traffics[k], k.1, reports);
      s.traffics := s.traffics[k := r];
      rest := rest - {k};
    }
    assert s.traffics == CountedRows(adjusted, reports).traffics;
  }

  lemma NothingToCount(t: Tables, reports: seq<Report>, now: int)
    requires forall k :: k in t.traffics ==> !IsReported(reports, k.1)
    ensures CountedRows(Started(t, reports, now), reports) == t
  {
    var s := Started(t, reports, now);
    forall id | id in t.inbounds
      ensures s.inbounds[id] == t.inbounds[id]
    {
      assert s.inbounds[id].clients == t.inbounds[id].clients;
    }
    assert s.inbounds == t.inbounds;
    assert s.traffics == t.traffics;
    assert CountedRows(t, reports).traffics == t.traffics;
  }

  lemma AllAdjusted(t: Tables, reports: seq<Report>, now: int, done: set<int>, u: Tables)
    requires AdjustedUpTo(t, reports, now, done, u)
    requires forall k :: Starts(t, reports, k) && k.0 in t.inbounds ==> k.0 in done
    ensures u == Started(t, reports, now)
  {
    var s := Started(t, reports, now);
    forall id | id in t.inbounds
      ensures u.inbounds[id] == s.inbounds[id]
    {
      if id !in done {
        assert s.inbounds[id].clients == t.inbounds[id].clients;
      }
    }
    assert u.inbounds == s.inbounds && u.traffics == s.traffics;
  }

  /** One round of the loop over the clients of an inbound. */
  lemma NextClient(t: Tables, reports: seq<Report>, now: int, done: set<int>, id: int, m: nat, db: set<RowKey>,
                   rows: map<RowKey, ClientTraffic>, rows': map<RowKey, ClientTraffic>, newClients: seq<Client>, c': Client)
    requires Good(t, reports, now, done, id, db) && m < |t.inbounds[id].clients|
    requires ClientsUpTo(t, reports, now, done, id, m, rows, newClients)
    requires ClientAdjusted(rows, rows', db, now, t.inbounds[id].clients[m], c')
    ensures ClientsUpTo(t, reports, now, done, id, m + 1, rows', newClients + [c'])
  {
    var c := t.inbounds[id].clients[m];
    var own := (id, c.email);
    ClientMatches(t, reports, now, done, id, m, db, rows);
    if Starts(t, reports, own) {
      assert Matches(rows, db, c, own);
      NextClientStarts(t, reports, now, done, id, m, rows);
    } else {
      assert forall k :: !Matches(rows, db, c, k);
      NextClientRests(t, reports, now, done, id, m, rows);
    }
    NextStarted(t, reports, now, id, m, c');
  }

  lemma NextStarted(t: Tables, reports: seq<Report>, now: int, id: int, m: nat, c': Client)
    requires id in t.inbounds && m < |t.inbounds[id].clients|
    requires c' == StartedClient(t, reports, now, id, t.inbounds[id].clients[m])
    ensures StartedClients(t, reports, now, id)[..m + 1] == StartedClients(t, reports, now, id)[..m] + [c']
  {
  }

  /** Clean tables: a row with a client's email is that client's own row. */
  lemma OwnRow(t: Tables, id: int, m: nat, k: RowKey)
    requires Clean(t) && id in t.inbounds && m < |t.inbounds[id].clients|
    requires k in t.traffics && k.1 == t.inbounds[id].clients[m].email
    ensures k == (id, t.inbounds[id].clients[m].email)
  {
    var c := t.inbounds[id].clients[m];
    assert c in t.inbounds[id].clients && HasEmail(t.inbounds[id].clients, c.email);
    Ledger.RowHasClient(t, k);
    var id', e := k.0, c.email;
    assert id' in t.inbounds && HasEmail(t.inbounds[id'].clients, e) && HasEmail(t.inbounds[id].clients, e);
    assert id' == id;
    assert k == (k.0, k.1);
  }

  /** The search finds a row for the next client exactly when its own row starts, and then finds that one. */
  lemma ClientMatches(t: Tables, reports: seq<Report>, now: int, done: set<int>, id: int, m: nat, db: set<RowKey>, rows: map<RowKey, ClientTraffic>)
    requires Clean(t) && id in t.inbounds && id !in done && m < |t.inbounds[id].clients|
    requires RowsUpTo(t, reports, now, done, id, m, rows)
    requires db == set k | k in t.traffics && IsReported(reports, k.1)
    ensures var c := t.inbounds[id].clients[m];
            && (forall k :: k in db && k.1 == c.email ==> k == (id, c.email))
            && (Starts(t, reports, (id, c.email)) <==> (id, c.email) in db && rows[(id, c.email)].expiryTime < 0)
  {
    var c := t.inbounds[id].clients[m];
    forall k | k in db && k.1 == c.email
      ensures k == (id, c.email)
    {
      OwnRow(t, id, m, k);
    }
    if (id, c.email) in t.traffics {
      ClientOfIndex(t.inbounds[id].protocol, t.inbounds[id].clients, m);
    }
  }

  lemma {:induction false} ClientOfIndex(protocol: Protocol, clients: seq<Client>, m: nat)
    requires Ledger.ClientsDistinct(protocol, clients) && m < |clients| && clients[m].email != ""
    ensures HasEmail(clients, clients[m].email) && ClientOf(clients, clients[m].email) == clients[m]
    ensures !HasEmail(clients[..m], clients[m].email)
  {
    assert clients[m] in clients;
    if m == 0 {
    } else {
      assert clients[0].email != clients[m].email;
      forall i, j | 0 <= i < j < |clients[1..]|
        ensures Key(protocol, clients[1..][i]) != Key(protocol, clients[1..][j])
        ensures clients[1..][i].email != "" ==> clients[1..][i].email != clients[1..][j].email
      {
        assert clients[1..][i] == clients[i + 1] && clients[1..][j] == clients[j + 1];
      }
      ClientOfIndex(protocol, clients[1..], m - 1);
      assert clients[1..][m - 1] == clients[m];
    }
    forall i | 0 <= i < m
      ensures clients[i].email != clients[m].email
    {
      assert clients[i].email != "" ==> clients[i].email != clients[m].email;
    }
  }

  /** Looking at the next client, when its row starts. */
  lemma NextClientStarts(t: Tables, reports: seq<Report>, now: int, done: set<int>, id: int, m: nat, rows: map<RowKey, ClientTraffic>)
    requires Clean(t) && id in t.inbounds && id !in done && m < |t.inbounds[id].clients|
    requires RowsUpTo(t, reports, now, done, id, m, rows)
    requires Starts(t, reports, (id, t.inbounds[id].clients[m].email))
    ensures var c := t.inbounds[id].clients[m];
            var k := (id, c.email);
            rows[k] == t.traffics[k] &&
            RowsUpTo(t, reports, now, done, id, m + 1, rows[k := rows[k].(expiryTime := now - c.expiryTime)])
  {
    var clients := t.inbounds[id].clients;
    ClientOfIndex(t.inbounds[id].protocol, clients, m);
    OneMoreRow(t, reports, now, done, id, m, rows);
  }

  lemma OneMoreRow(t: Tables, reports: seq<Report>, now: int, done: set<int>, id: int, m: nat, rows: map<RowKey, ClientTraffic>)
    requires id in t.inbounds && id !in done && m < |t.inbounds[id].clients|
    requires RowsUpTo(t, reports, now, done, id, m, rows)
    requires (id, t.inbounds[id].clients[m].email) in t.traffics
    ensures var k := (id, t.inbounds[id].clients[m].email);
            RowsUpTo(t, reports, now, done, id, m + 1, rows[k := StartedRow(t, reports, now, k)])
  {
    var clients := t.inbounds[id].clients;
    assert clients[..m + 1] == clients[..m] + [clients[m]];
    Ledger.EmailSnoc(clients[..m], clients[m]);
  }

  /** Looking at the next client, when its row does not start. */
  lemma NextClientRests(t: Tables, reports: seq<Report>, now: int, done: set<int>, id: int, m: nat, rows: map<RowKey, ClientTraffic>)
    requires Clean(t) && id in t.inbounds && id !in done && m < |t.inbounds[id].clients|
    requires RowsUpTo(t, reports, now, done, id, m, rows)
    requires !Starts(t, reports, (id, t.inbounds[id].clients[m].email))
    ensures RowsUpTo(t, reports, now, done, id, m + 1, rows)
    ensures var k := (id, t.inbounds[id].clients[m].email); k in rows ==> rows[k] == t.traffics[k]
  {
    var clients := t.inbounds[id].clients;
    var c := clients[m];
    assert clients[..m + 1] == clients[..m] + [c];
    Ledger.EmailSnoc(clients[..m], c);
  }

  lemma InboundAdjusted(t: Tables, reports: seq<Report>, now: int, done: set<int>, id: int, u: Tables, u': Tables, newClients: seq<Client>)
    requires id in t.inbounds && id !in done
    requires AdjustedUpTo(t, reports, now, done, u)
    requires u'.inbounds == u.inbounds[id := u.inbounds[id].(clients := newClients)]
    requires ClientsUpTo(t, reports, now, done, id, |t.inbounds[id].clients|, u'.traffics, newClients)
    ensures AdjustedUpTo(t, reports, now, done + {id}, u')
  {
    var clients := t.inbounds[id].clients;
    assert clients[..|clients|] == clients;
    var s := StartedClients(t, reports, now, id);
    assert s[..|s|] == s;
  }

  // ----- renewal -----

  ghost predicate RenewedUpTo(t: Tables, now: int, done: set<int>, u: Tables) {
    && u.inbounds.Keys == t.inbounds.Keys && u.traffics.Keys == t.traffics.Keys
    && (forall id :: id in t.inbounds ==>
          u.inbounds[id] == if id in done then Renewed(t, now).inbounds[id] else t.inbounds[id])
    && (forall k :: k in t.traffics ==>
          u.traffics[k] == if k.0 in done then RenewedRow(t.traffics[k], now) else t.traffics[k])
  }

  /** The loaded rows: they keep their period, so that the loop over the periods ends. */
  ghost predicate Periodic(rows: map<RowKey, ClientTraffic>, due: set<RowKey>) {
    forall k :: k in due ==> k in rows && rows[k].reset > 0
  }

  ghost predicate ClientRenewed(rows: map<RowKey, ClientTraffic>, rows': map<RowKey, ClientTraffic>,
                                due: set<RowKey>, now: int, c: Client, c': Client)
    requires Periodic(rows, due)
  {
    if exists k :: k in due && k.1 == c.email then
      exists k :: k in due && k.1 == c.email &&
        var e := Bump(rows[k].expiryTime, rows[k].reset * DAY, now);
        c' == c.(expiryTime := e) &&
        rows' == rows[k := rows[k].(expiryTime := e, up := 0, down := 0, enable := true)]
    else c' == c && rows' == rows
  }

  /** The innermost loop of the renewal, with the loop that adds periods. */
  method RenewClient(s: InboundService, c: Client, due: set<RowKey>, now: int) returns (c': Client)
    requires Periodic(s.traffics, due)
    modifies s`traffics
    ensures ClientRenewed(old(s.traffics), s.traffics, due, now, c, c')
  {
    c' := c;
    if exists k :: k in due && k.1 == c.email {
      var k :| k in due && k.1 == c.email;
      var traffic := s.traffics[k];
      var newExpiryTime := traffic.expiryTime;
      while newExpiryTime < now
        invariant Bump(newExpiryTime, traffic.reset * DAY, now) == Bump(traffic.expiryTime, traffic.reset * DAY, now)
        decreases now - newExpiryTime
      {
        newExpiryTime := newExpiryTime + traffic.reset * DAY;
      }
      c' := c.(expiryTime := newExpiryTime);
      s.traffics := s.traffics[k := traffic.(expiryTime := newExpiryTime, down := 0, up := 0,
                                             enable := if traffic.enable then traffic.enable else true)];
    }
  }

  ghost predicate RenewedClientsUpTo(t: Tables, now: int, done: set<int>, id: int, m: nat,
                                     rows: map<RowKey, ClientTraffic>, newClients: seq<Client>)
  {
    && id in t.inbounds && m <= |t.inbounds[id].clients|
    && newClients == RenewedClients(t, now, id)[..m]
    && rows.Keys == t.traffics.Keys
    && forall k :: k in t.traffics ==>
         rows[k] == if k.0 in done || (k.0 == id && HasEmail(t.inbounds[id].clients[..m], k.1))
                    then RenewedRow(t.traffics[k], now) else t.traffics[k]
  }

  ghost predicate GoodRenewal(t: Tables, now: int, done: set<int>, id: int, due: set<RowKey>) {
    Clean(t) && id in t.inbounds && id !in done && due == set k | k in t.traffics && Due(t.traffics[k], now)
  }

  method RenewInbound(s: InboundService, id: int, due: set<RowKey>, now: int, ghost t: Tables, ghost done: set<int>)
    requires id in s.inbounds && Periodic(s.traffics, due)
    modifies s
    ensures s.traffics.Keys == old(s.traffics).Keys && s.inbounds.Keys == old(s.inbounds).Keys
    ensures Periodic(s.traffics, due)
    ensures GoodRenewal(t, now, done, id, due) && RenewedUpTo(t, now, done, old(s.Tables())) ==>
              RenewedUpTo(t, now, done + {id}, s.Tables())
  {
    ghost var good := GoodRenewal(t, now, done, id, due) && RenewedUpTo(t, now, done, s.Tables());
    var clients := s.inbounds[id].clients;
    var newClients: seq<Client> := [];
    if good {
      assert forall e :: !HasEmail(clients[..0], e);
    }
    for m := 0 to |clients|
      invariant s.inbounds == old(s.inbounds) && s.traffics.Keys == old(s.traffics).Keys
      invariant Periodic(s.traffics, due)
      invariant good ==> RenewedClientsUpTo(t, now, done, id, m, s.traffics, newClients)
    {
      ghost var rows := s.traffics;
      var c := RenewClient(s, clients[m], due, now);
      if good {
        NextRenewal(t, now, done, id, m, due, rows, s.traffics, newClients, c);
      }
      newClients := newClients + [c];
    }
    s.inbounds := s.inbounds[id := s.inbounds[id].(clients := newClients)];
    if good {
      InboundRenewed(t, now, done, id, old(s.Tables()), s.Tables(), newClients);
    }
  }

  method AutoRenewClients(s: InboundService, now: int)
    modifies s
    ensures s.traffics.Keys == old(s.traffics).Keys && s.inbounds.Keys == old(s.inbounds).Keys
    ensures old(Clean(s.Tables())) ==> s.Tables() == Renewed(old(s.Tables()), now)
  {
    ghost var t := s.Tables();
    var due := set k | k in s.traffics && Due(s.traffics[k], now);
    var inboundIds := set k | k in due :: k.0;
    var rest := inboundIds * s.inbounds.Keys;
    ghost var done: set<int> := {};
    while exists id :: id in rest
      invariant rest <= s.inbounds.Keys && rest !! done
      invariant rest + done == inboundIds * t.inbounds.Keys
      invariant s.traffics.Keys == t.traffics.Keys && s.inbounds.Keys == t.inbounds.Keys
      invariant Periodic(s.traffics, due)
      invariant Clean(t) ==> RenewedUpTo(t, now, done, s.Tables())
      decreases rest
    {
      var id :| id in rest;
      RenewInbound(s, id, due, now, t, done);
      rest := rest - {id};
      done := done + {id};
    }
    if Clean(t) {
      AllRenewed(t, now, done, s.Tables());
    }
  }

  lemma AllRenewed(t: Tables, now: int, done: set<int>, u: Tables)
    requires RenewedUpTo(t, now, done, u)
    requires forall k :: k in t.traffics && Due(t.traffics[k], now) && k.0 in t.inbounds ==> k.0 in done
    requires Clean(t)
    ensures u == Renewed(t, now)
  {
    forall id | id in t.inbounds
      ensures u.inbounds[id] == Renewed(t, now).inbounds[id]
    {
      if id !in done {
        NothingDue(t, now, id);
      }
    }
    assert u.inbounds == Renewed(t, now).inbounds;
    RowsRenewed(t, now, done, u);
  }

  lemma RowsRenewed(t: Tables, now: int, done: set<int>, u: Tables)
    requires u.traffics.Keys == t.traffics.Keys
    requires forall k :: k in t.traffics ==>
               u.traffics[k] == if k.0 in done then RenewedRow(t.traffics[k], now) else t.traffics[k]
    requires forall k :: k in t.traffics && Due(t.traffics[k], now) ==> k.0 in done
    ensures u.traffics == Renewed(t, now).traffics
  {
  }

  lemma NothingDue(t: Tables, now: int, id: int)
    requires id in t.inbounds && forall k :: k in t.traffics && k.0 == id ==> !Due(t.traffics[k], now)
    ensures Renewed(t, now).inbounds[id] == t.inbounds[id]
  {
    assert RenewedClients(t, now, id) == t.inbounds[id].clients;
  }

  lemma NextRenewal(t: Tables, now: int, done: set<int>, id: int, m: nat, due: set<RowKey>,
                    rows: map<RowKey, ClientTraffic>, rows': map<RowKey, ClientTraffic>, newClients: seq<Client>, c': Client)
    requires GoodRenewal(t, now, done, id, due) && m < |t.inbounds[id].clients|
    requires RenewedClientsUpTo(t, now, done, id, m, rows, newClients)
    requires Periodic(rows, due) && ClientRenewed(rows, rows', due, now, t.inbounds[id].clients[m], c')
    ensures RenewedClientsUpTo(t, now, done, id, m + 1, rows', newClients + [c'])
  {
    var clients := t.inbounds[id].clients;
    var c := clients[m];
    var own := (id, c.email);
    assert clients[..m + 1] == clients[..m] + [c];
    Ledger.EmailSnoc(clients[..m], c);
    forall k | k in due && k.1 == c.email
      ensures k == own
    {
      OwnRow(t, id, m, k);
    }
    if own in due {
      ClientOfIndex(t.inbounds[id].protocol, clients, m);
      assert rows[own] == t.traffics[own];
    }
    assert c' == RenewedClient(t, now, id, c);
    NextRenewed(t, now, id, m, c');
  }

  lemma NextRenewed(t: Tables, now: int, id: int, m: nat, c': Client)
    requires id in t.inbounds && m < |t.inbounds[id].clients|
    requires c' == RenewedClient(t, now, id, t.inbounds[id].clients[m])
    ensures RenewedClients(t, now, id)[..m + 1] == RenewedClients(t, now, id)[..m] + [c']
  {
  }

  lemma InboundRenewed(t: Tables, now: int, done: set<int>, id: int, u: Tables, u': Tables, newClients: seq<Client>)
    requires Clean(t) && id in t.inbounds && id !in done
    requires RenewedUpTo(t, now, done, u)
    requires u'.inbounds == u.inbounds[id := u.inbounds[id].(clients := newClients)]
    requires RenewedClientsUpTo(t, now, done, id, |t.inbounds[id].clients|, u'.traffics, newClients)
    ensures RenewedUpTo(t, now, done + {id}, u')
  {
    var clients := t.inbounds[id].clients;
    assert clients[..|clients|] == clients;
    var s := RenewedClients(t, now, id);
    assert s[..|s|] == s;
    forall k | k in t.traffics && k.0 == id
      ensures HasEmail(clients, k.1)
    {
      Ledger.RowHasClient(t, k);
    }
  }

  // ----- disabling -----

  /** The clients selected before the update are removed from the core. */
  method DisableInvalidClients(s: InboundService, now: int) returns (removed: set<RowKey>)
    modifies s`traffics
    ensures s.traffics == Disabled(old(s.Tables()), now).traffics
    ensures removed == Removed(old(s.Tables()), now)
    ensures s.traffics.Keys == old(s.traffics).Keys
    ensures forall k :: k in s.traffics ==>
              var r := old(s.traffics)[k];
              s.traffics[k] == r.(enable := r.enable && (r.total <= 0 || r.up + r.down < r.total) && (r.expiryTime <= 0 || now < r.expiryTime))
    ensures forall k :: k in removed <==>
              k in s.traffics && k.0 in s.inbounds && old(s.traffics)[k].enable && !s.traffics[k].enable
  {
    removed := set k | k in s.traffics && k.0 in s.inbounds &&
      ((s.traffics[k].total > 0 && s.traffics[k].up + s.traffics[k].down >= s.traffics[k].total) ||
       (s.traffics[k].expiryTime > 0 && s.traffics[k].expiryTime <= now)) && s.traffics[k].enable;
    s.traffics := map k | k in s.traffics ::
      if ((s.traffics[k].total > 0 && s.traffics[k].up + s.traffics[k].down >= s.traffics[k].total) ||
          (s.traffics[k].expiryTime > 0 && s.traffics[k].expiryTime <= now)) && s.traffics[k].enable
      then s.traffics[k].(enable := false) else s.traffics[k];
  }

  method DisableInvalidInbounds(s: InboundService, now: int)
    modifies s`inbounds
    ensures s.inbounds == Disabled(old(s.Tables()), now).inbounds
    ensures s.inbounds.Keys == old(s.inbounds).Keys
    ensures forall id :: id in s.inbounds ==>
              var a := old(s.inbounds)[id];
              s.inbounds[id] == a.(enable := a.enable && (a.total <= 0 || a.up + a.down < a.total) && (a.expiryTime <= 0 || now < a.expiryTime))
  {
    s.inbounds := map id | id in s.inbounds ::
      if ((s.inbounds[id].total > 0 && s.inbounds[id].up + s.inbounds[id].down >= s.inbounds[id].total) ||
          (s.inbounds[id].expiryTime > 0 && s.inbounds[id].expiryTime <= now)) && s.inbounds[id].enable
      then s.inbounds[id].(enable := false) else s.inbounds[id];
    assert forall id :: id in s.inbounds ==> s.inbounds[id] == Disabled(old(s.Tables()), now).inbounds[id];
  }

  // ----- the whole tick -----

  /** On any tables nothing spent stays enabled; on clean tables the result is exactly the tick. */
  method AddTraffic(s: InboundService, tags: seq<TagTraffic>, reports: seq<Report>, now: int)
    returns (removed: set<RowKey>)
    modifies s
    ensures NoneSpent(s.Tables(), now) && WithinLimits(s.Tables(), now)
    ensures old(Clean(s.Tables())) ==> removed == Removed(Enabling(old(s.Tables()), tags, reports, now), now)
    ensures old(Clean(s.Tables())) ==> s.Tables() == Tick(old(s.Tables()), tags, reports, now)
  {
    ghost var t := s.Tables();
    AddInboundTraffic(s, tags);
    ghost var a := s.Tables();
    AddClientTraffic(s, reports, now);
    ghost var c := s.Tables();
    AutoRenewClients(s, now);
    ghost var d := s.Tables();
    removed := DisableInvalidClients(s, now);
    DisableInvalidInbounds(s, now);
    assert s.Tables() == Disabled(d, now);
    WithinLimitsIff(s.Tables(), now);
    if Clean(t) {
      CountedTagsShape(t, tags);
      ShapeKeepsInv(t, a);
      StartedShape(a, reports, now);
      CountedRowsShape(Started(a, reports, now), reports);
      ShapeTransitive(a, Started(a, reports, now), c);
      ShapeKeepsInv(a, c);
    }
  }

  // ----- resets -----

  /** `ResetAllClientTraffics`: the id -1 stands for all inbounds. */
  method ResetAllClientTraffics(s: InboundService, id: int)
    modifies s`traffics
    ensures s.Tables() == ResetRows(old(s.Tables()), set k | k in old(s.traffics) && (if id == -1 then k.0 > -1 else k.0 == id))
  {
    s.traffics := map k | k in s.traffics ::
      if (if id == -1 then k.0 > -1 else k.0 == id) then s.traffics[k].(enable := true, up := 0, down := 0) else s.traffics[k];
  }

  method ResetClientTrafficByEmail(s: InboundService, email: string)
    modifies s`traffics
    ensures s.Tables() == ResetRows(old(s.Tables()), set k | k in old(s.traffics) && k.1 == email)
  {
    s.traffics := map k | k in s.traffics ::
      if k.1 == email then s.traffics[k].(enable := true, up := 0, down := 0) else s.traffics[k];
  }
}
