/**
 Runs of the panel: client and inbound requests, traffic ticks and resets, in any order. What the
 single steps keep holds after every run.
 */
module PanelRuns {
  import opened Panel
  import opened Ledger
  import opened Traffic
  import Depleted

  datatype Event =
    | Request(r: Ledger.Request)
    | TrafficTick(tags: seq<TagTraffic>, reports: seq<Report>, now: int)
    | Reset(keys: set<RowKey>)
    | DropDepleted(id: int, order: seq<int>)

  /**
   Requests as in the ledger, whose new inbounds name every client; reports count upwards; and when the
   depleted clients are dropped, emails have no commas and no inbound to be deleted comes after one
   that is saved.
   */
  ghost predicate AllowedEvent(t: Tables, e: Event) {
    match e
    case Request(r) =>
      && Allowed(t, r)
      && (r.ReqAddInbound? || r.ReqUpdateInbound? ==> !HasEmail(r.inb.clients, ""))
    case TrafficTick(_, reports, _) => NonNegative(reports)
    case Reset(_) => true
    case DropDepleted(id, order) =>
      Depleted.NoCommaEmails(t) && Depleted.IsOrder(t, id, order) && Depleted.NoneStuck(t, id, order)
  }

  ghost function Happen(t: Tables, e: Event): Tables
    requires AllowedEvent(t, e)
  {
    match e
    case Request(r) => Serve(t, r).0
    case TrafficTick(tags, reports, now) => Tick(t, tags, reports, now)
    case Reset(keys) => ResetRows(t, keys)
    case DropDepleted(id, order) => Depleted.CleanUp(t, id, order)
  }

  ghost predicate AllowedHistory(t: Tables, es: seq<Event>)
    decreases es
  {
    |es| == 0 || (AllowedEvent(t, es[0]) && AllowedHistory(Happen(t, es[0]), es[1..]))
  }

  ghost function History(t: Tables, es: seq<Event>): Tables
    requires AllowedHistory(t, es)
    decreases es
  {
    if |es| == 0 then t else History(Happen(t, es[0]), es[1..])
  }

  /** Ports, ids, tags, keys and emails are in order, and no row's lifetime total is behind its counters. */
  ghost predicate Consistent(t: Tables) {
    Inv(t) && Clean(t) && CountersOk(t)
  }

  // ----- rows of requests -----

  /** A fresh email gets the row of its client. */
  lemma {:induction false} AddRowsValue(rows: map<RowKey, ClientTraffic>, id: int, clients: seq<Client>, i: nat)
    requires i < |clients| && (id, clients[i].email) !in rows
    requires forall j :: 0 <= j < i ==> clients[j].email != clients[i].email
    ensures (id, clients[i].email) in AddRows(rows, id, clients)
    ensures AddRows(rows, id, clients)[(id, clients[i].email)] == NewRow(clients[i])
    decreases |clients|
  {
    var h := clients[..|clients| - 1];
    AddRowsKeys(rows, id, h);
    if i < |clients| - 1 {
      assert h[i] == clients[i];
      AddRowsValue(rows, id, h, i);
    } else {
      assert !HasEmail(h, clients[i].email);
    }
  }

  /** Every row is an old one or new with zero counters. */
  ghost predicate OldOrFresh(rows: map<RowKey, ClientTraffic>, rows': map<RowKey, ClientTraffic>) {
    forall k :: k in rows' ==>
      (k in rows && rows'[k] == rows[k]) || (rows'[k].up == 0 && rows'[k].down == 0 && rows'[k].allTime == 0)
  }

  lemma {:induction false} AddRowsOldOrFresh(rows: map<RowKey, ClientTraffic>, id: int, clients: seq<Client>)
    ensures OldOrFresh(rows, AddRows(rows, id, clients))
  {
    if |clients| == 0 {
    } else {
      AddRowsOldOrFresh(rows, id, clients[..|clients| - 1]);
    }
  }

  lemma FreshRowsCount(rows: map<RowKey, ClientTraffic>, rows': map<RowKey, ClientTraffic>, t: Tables, t': Tables)
    requires CountersOk(t) && OldOrFresh(rows, rows') && t'.traffics == rows'
    requires forall k :: k in rows ==> k in t.traffics && rows[k] == t.traffics[k]
    ensures CountersOk(t')
  {
  }

  lemma RequestKeepsCounters(t: Tables, r: Ledger.Request)
    requires CountersOk(t) && Allowed(t, r)
    ensures CountersOk(Serve(t, r).0)
  {
    match r
    case ReqAddInbound(inb) => AddRowsOldOrFresh(t.traffics, NextId(t.inbounds.Keys), inb.clients);
    case ReqDelInbound(_) =>
    case ReqUpdateInbound(id, inb) => UpdateInboundKeepsCounters(t, id, inb);
    case ReqAddClients(id, clients) => AddRowsOldOrFresh(t.traffics, id, WithEmail(clients));
    case ReqDelClient(_, _) =>
    case ReqUpdateClient(id, clients, key) => UpdateClientKeepsCounters(t, id, clients, key);
  }

  lemma UpdateInboundKeepsCounters(t: Tables, id: int, inb: Inbound)
    requires CountersOk(t)
    ensures CountersOk(UpdateInbound(t, id, inb).0)
  {
    if id in t.inbounds {
      var was, t' := t.inbounds[id], UpdateInbound(t, id, inb).0;
      var kept := DropRows(t.traffics, id, Emails(was.clients) - Emails(inb.clients));
      AddRowsOldOrFresh(kept, id, NotAmong(inb.clients, Emails(was.clients)));
      if t'.traffics != t.traffics {
        FreshRowsCount(kept, t'.traffics, t, t');
      }
    }
  }

  lemma UpdateClientKeepsCounters(t: Tables, id: int, clients: seq<Client>, key: string)
    requires CountersOk(t) && |clients| > 0
    ensures CountersOk(UpdateInboundClient(t, id, clients, key).0)
  {
  }

  ghost predicate RowsNamed(rows: map<RowKey, ClientTraffic>) {
    forall k :: k in rows ==> k.1 != ""
  }

  lemma RequestKeepsRowsNamed(t: Tables, r: Ledger.Request)
    requires RowsNamed(t.traffics) && AllowedEvent(t, Request(r))
    ensures RowsNamed(Serve(t, r).0.traffics)
  {
    match r
    case ReqAddInbound(inb) => AddRowsKeys(t.traffics, NextId(t.inbounds.Keys), inb.clients);
    case ReqDelInbound(_) =>
    case ReqUpdateInbound(id, inb) =>
      if id in t.inbounds {
        UpdatedRowsNamed(t.traffics, id, t.inbounds[id].clients, inb.clients);
      }
    case ReqAddClients(id, clients) =>
      WithEmailHas(clients);
      AddRowsKeys(t.traffics, id, WithEmail(clients));
    case ReqDelClient(_, _) =>
    case ReqUpdateClient(id, clients, key) => UpdateClientRowsNamed(t, id, clients, key);
  }

  lemma UpdateClientRowsNamed(t: Tables, id: int, clients: seq<Client>, key: string)
    requires RowsNamed(t.traffics) && |clients| > 0
    ensures RowsNamed(UpdateInboundClient(t, id, clients, key).0.traffics)
  {
  }

  lemma UpdatedRowsNamed(rows: map<RowKey, ClientTraffic>, id: int, was: seq<Client>, clients: seq<Client>)
    requires (forall k :: k in rows ==> k.1 != "") && !HasEmail(clients, "")
    ensures var kept := DropRows(rows, id, Emails(was) - Emails(clients));
            forall k :: k in AddRows(kept, id, NotAmong(clients, Emails(was))) ==> k.1 != ""
  {
    NotAmongHas(clients, Emails(was));
    AddRowsKeys(DropRows(rows, id, Emails(was) - Emails(clients)), id, NotAmong(clients, Emails(was)));
  }

  lemma EventKeepsConsistent(t: Tables, e: Event)
    requires Consistent(t) && AllowedEvent(t, e)
    ensures Consistent(Happen(t, e))
  {
    match e
    case Request(r) =>
      ServeKeepsInv(t, r);
      RequestKeepsCounters(t, r);
      RequestKeepsRowsNamed(t, r);
    case TrafficTick(tags, reports, now) =>
      TickShape(t, tags, reports, now);
      ShapeKeepsInv(t, Tick(t, tags, reports, now));
      TickKeepsCounters(t, tags, reports, now);
    case Reset(keys) =>
      ResetKeeps(t, keys);
      ShapeKeepsInv(t, ResetRows(t, keys));
    case DropDepleted(id, order) => Depleted.DelDepletedKeeps(t, id, order);
  }

  /** Every history of a consistent database leaves it consistent: no clash, no orphan, no lost traffic. */
  lemma {:induction false} HistoryKeepsConsistent(t: Tables, es: seq<Event>)
    requires Consistent(t) && AllowedHistory(t, es)
    ensures Consistent(History(t, es))
    decreases es
  {
    if |es| == 0 {
    } else {
      EventKeepsConsistent(t, es[0]);
      HistoryKeepsConsistent(Happen(t, es[0]), es[1..]);
    }
  }

  // ----- expiries -----

  /** Rows that are kept as they were still follow their clients. */
  lemma KeptRowsFollow(rows: map<RowKey, ClientTraffic>, rows': map<RowKey, ClientTraffic>, id: int, clients: seq<Client>)
    requires RowsFollow(rows, id, clients)
    requires forall c :: c in clients && c.email != "" && (id, c.email) in rows ==>
               (id, c.email) in rows' && rows'[(id, c.email)].expiryTime == rows[(id, c.email)].expiryTime
    ensures RowsFollow(rows', id, clients)
  {
  }

  /** The inbounds that a request leaves alone, when it leaves their rows alone. */
  lemma OthersFollow(t: Tables, t': Tables, id: int)
    requires ExpiriesAgree(t)
    requires forall id' :: id' in t'.inbounds && id' != id ==> id' in t.inbounds && t'.inbounds[id'] == t.inbounds[id']
    requires forall k: RowKey :: k in t.traffics && k.0 != id ==> k in t'.traffics && t'.traffics[k] == t.traffics[k]
    requires id in t'.inbounds ==> RowsFollow(t'.traffics, id, t'.inbounds[id].clients)
    ensures ExpiriesAgree(t')
  {
    forall id' | id' in t'.inbounds && id' != id
      ensures RowsFollow(t'.traffics, id', t'.inbounds[id'].clients)
    {
      KeptRowsFollow(t.traffics, t'.traffics, id', t.inbounds[id'].clients);
    }
  }

  lemma AddInboundRows(t: Tables, inb: Inbound)
    requires Inv(t) && Allowed(t, ReqAddInbound(inb)) && AddInbound(t, inb).1 == Done
    ensures var id := NextId(t.inbounds.Keys);
            var rows := AddInbound(t, inb).0.traffics;
            RowsFollow(rows, id, inb.clients) &&
            forall k :: k in t.traffics ==> k in rows && rows[k] == t.traffics[k]
  {
    var id := NextId(t.inbounds.Keys);
    NextIdFree(t.inbounds.Keys);
    NoClash(t, inb.clients);
    NewClientsAgree(t.traffics, id, inb.clients);
    AddRowsKeys(t.traffics, id, inb.clients);
  }

  lemma AddInboundKeepsExpiries(t: Tables, inb: Inbound)
    requires Consistent(t) && ExpiriesAgree(t) && AllowedEvent(t, Request(ReqAddInbound(inb)))
    ensures ExpiriesAgree(AddInbound(t, inb).0)
  {
    if AddInbound(t, inb).1 == Done {
      AddInboundRows(t, inb);
      OthersFollow(t, AddInbound(t, inb).0, NextId(t.inbounds.Keys));
    }
  }

  /** Rows inserted for clients with fresh, distinct emails expire with them. */
  lemma NewClientsAgree(rows: map<RowKey, ClientTraffic>, id: int, clients: seq<Client>)
    requires forall i, j :: 0 <= i < j < |clients| && clients[i].email != "" ==> clients[i].email != clients[j].email
    requires forall i :: 0 <= i < |clients| && clients[i].email != "" ==> (id, clients[i].email) !in rows
    ensures RowsFollow(AddRows(rows, id, clients), id, clients)
  {
    forall c | c in clients && c.email != ""
      ensures (id, c.email) in AddRows(rows, id, clients)
      ensures AddRows(rows, id, clients)[(id, c.email)].expiryTime == c.expiryTime
    {
      var i :| 0 <= i < |clients| && clients[i] == c;
      forall j | 0 <= j < i
        ensures clients[j].email != clients[i].email
      {
        assert clients[j].email != "" ==> clients[j].email != clients[i].email;
      }
      AddRowsValue(rows, id, clients, i);
    }
  }

  lemma {:induction false} WithEmailMembers(clients: seq<Client>)
    ensures forall c :: c in WithEmail(clients) <==> c in clients && c.email != ""
  {
    if |clients| == 0 {
    } else {
      var h, c := clients[..|clients| - 1], clients[|clients| - 1];
      WithEmailMembers(h);
      assert clients == h + [c];
    }
  }

  ghost predicate DistinctEmails(clients: seq<Client>) {
    forall i, j :: 0 <= i < j < |clients| && clients[i].email != "" ==> clients[i].email != clients[j].email
  }

  lemma {:induction false} WithEmailDistinct(clients: seq<Client>)
    requires DistinctEmails(clients)
    ensures DistinctEmails(WithEmail(clients))
  {
    if |clients| == 0 {
    } else {
      var h, c := clients[..|clients| - 1], clients[|clients| - 1];
      assert clients == h + [c];
      WithEmailDistinct(h);
      WithEmailMembers(h);
      var w := WithEmail(h);
      forall i | 0 <= i < |w|
        ensures w[i].email != c.email
      {
        assert w[i] in w;
        OtherEmail(h, c, w[i]);
      }
      assert w + [] == w;
    }
  }

  lemma OtherEmail(h: seq<Client>, c: Client, d: Client)
    requires DistinctEmails(h + [c]) && d in h && d.email != ""
    ensures d.email != c.email
  {
    var s := h + [c];
    var j :| 0 <= j < |h| && h[j] == d;
    assert s[j] == d && s[|h|] == c;
  }

  lemma AddClientsKeepsExpiries(t: Tables, id: int, clients: seq<Client>)
    requires Consistent(t) && ExpiriesAgree(t) && Allowed(t, ReqAddClients(id, clients))
    ensures ExpiriesAgree(AddInboundClient(t, id, clients).0)
  {
    if AddInboundClient(t, id, clients).1 == Done {
      var w, was := WithEmail(clients), t.inbounds[id].clients;
      var rows' := AddRows(t.traffics, id, w);
      NoClash(t, clients);
      WithEmailMembers(clients);
      WithEmailDistinct(clients);
      forall i | 0 <= i < |w|
        ensures (id, w[i].email) !in t.traffics
      {
        assert w[i] in w && HasEmail(clients, w[i].email);
      }
      NewClientsAgree(t.traffics, id, w);
      AddRowsKeys(t.traffics, id, w);
      KeptRowsFollow(t.traffics, rows', id, was);
      assert RowsFollow(rows', id, was + clients);
      OthersFollow(t, AddInboundClient(t, id, clients).0, id);
    }
  }

  lemma DelClientKeepsExpiries(t: Tables, id: int, key: string)
    requires Consistent(t) && ExpiriesAgree(t)
    ensures ExpiriesAgree(DelInboundClient(t, id, key).0)
  {
    if DelInboundClient(t, id, key).1 == Done {
      var inb := t.inbounds[id];
      var rest := WithoutKey(inb.protocol, inb.clients, key);
      WithoutKeyFacts(inb.protocol, inb.clients, key);
      assert RowsFollow(t.traffics, id, inb.clients);
      assert RowsFollow(t.traffics, id, rest);
      forall c | c in rest && c.email != ""
        ensures c.email != EmailOfKey(inb.protocol, inb.clients, key)
      {
        assert HasEmail(rest, c.email);
      }
      KeptRowsFollow(t.traffics, DelInboundClient(t, id, key).0.traffics, id, rest);
      OthersFollow(t, DelInboundClient(t, id, key).0, id);
    }
  }

  /** The clients beside a replaced one are old clients with other emails. */
  lemma BesideReplaced(protocol: Protocol, clients: seq<Client>, i: nat, c: Client, d: Client)
    requires ClientsDistinct(protocol, clients) && i < |clients|
    requires d in clients[i := c] && d.email != "" && d != c
    ensures d in clients && d.email != clients[i].email
  {
    var s := clients[i := c];
    var j :| 0 <= j < |s| && s[j] == d;
    assert clients[j] == d;
    assert Key(protocol, clients[j]) != Key(protocol, clients[i]);
    assert clients[j].email != "" ==> clients[j].email != clients[i].email;
  }

  lemma UpdateClientRows(t: Tables, id: int, clients: seq<Client>, key: string, d: Client)
    requires Inv(t) && |clients| > 0 && UpdateInboundClient(t, id, clients, key).1 == Done
    requires RowsFollow(t.traffics, id, t.inbounds[id].clients)
    requires d in UpdateInboundClient(t, id, clients, key).0.inbounds[id].clients && d.email != ""
    ensures var rows := UpdateInboundClient(t, id, clients, key).0.traffics;
            (id, d.email) in rows && rows[(id, d.email)].expiryTime == d.expiryTime
  {
    var inb := t.inbounds[id];
    if d == clients[0] {
      ReplacementFollows(t, id, clients, key);
    } else {
      var i := IndexOfKey(inb.protocol, inb.clients, key);
      BesideReplaced(inb.protocol, inb.clients, i, clients[0], d);
      NewEmailIsFresh(t, id, clients, key, d.email);
    }
  }

  lemma UpdateClientFrame(t: Tables, id: int, clients: seq<Client>, key: string)
    requires |clients| > 0 && UpdateInboundClient(t, id, clients, key).1 == Done
    ensures var t' := UpdateInboundClient(t, id, clients, key).0;
            (forall id' :: id' in t'.inbounds && id' != id ==> id' in t.inbounds && t'.inbounds[id'] == t.inbounds[id']) &&
            forall k: RowKey :: k in t.traffics && k.0 != id ==> k in t'.traffics && t'.traffics[k] == t.traffics[k]
  {
  }

  lemma UpdateClientFollows(t: Tables, id: int, clients: seq<Client>, key: string)
    requires Inv(t) && |clients| > 0 && UpdateInboundClient(t, id, clients, key).1 == Done
    requires RowsFollow(t.traffics, id, t.inbounds[id].clients)
    ensures var t' := UpdateInboundClient(t, id, clients, key).0;
            RowsFollow(t'.traffics, id, t'.inbounds[id].clients)
  {
    var t' := UpdateInboundClient(t, id, clients, key).0;
    forall d | d in t'.inbounds[id].clients && d.email != ""
      ensures (id, d.email) in t'.traffics && t'.traffics[(id, d.email)].expiryTime == d.expiryTime
    {
      UpdateClientRows(t, id, clients, key, d);
    }
  }

  lemma UpdateClientKeepsExpiries(t: Tables, id: int, clients: seq<Client>, key: string)
    requires Inv(t) && ExpiriesAgree(t) && |clients| > 0
    ensures ExpiriesAgree(UpdateInboundClient(t, id, clients, key).0)
  {
    if UpdateInboundClient(t, id, clients, key).1 == Done {
      UpdateClientFollows(t, id, clients, key);
      UpdateClientFrame(t, id, clients, key);
      OthersFollow(t, UpdateInboundClient(t, id, clients, key).0, id);
    }
  }

  /** A replacing client's new email is no other client's. */
  lemma NewEmailIsFresh(t: Tables, id: int, clients: seq<Client>, key: string, e: string)
    requires Inv(t) && |clients| > 0 && UpdateInboundClient(t, id, clients, key).1 == Done
    requires var inb := t.inbounds[id];
             var email := inb.clients[IndexOfKey(inb.protocol, inb.clients, key)].email;
             e != "" && e != email && HasEmail(inb.clients, e)
    ensures e != clients[0].email
  {
    var inb, c := t.inbounds[id], clients[0];
    var email := inb.clients[IndexOfKey(inb.protocol, inb.clients, key)].email;
    if c.email != "" && c.email != email {
      NoClash(t, clients);
      assert clients[0] in clients && HasEmail(clients, c.email);
    }
  }

  lemma ReplacementFollows(t: Tables, id: int, clients: seq<Client>, key: string)
    requires Inv(t) && |clients| > 0 && UpdateInboundClient(t, id, clients, key).1 == Done
    requires clients[0].email != ""
    ensures var c, rows := clients[0], UpdateInboundClient(t, id, clients, key).0.traffics;
            (id, c.email) in rows && rows[(id, c.email)].expiryTime == c.expiryTime
  {
    var inb, c := t.inbounds[id], clients[0];
    var i := IndexOfKey(inb.protocol, inb.clients, key);
    assert inb.clients[i] in inb.clients && HasEmail(inb.clients, inb.clients[i].email);
    if c.email != inb.clients[i].email {
      NoClash(t, clients);
      assert clients[0] in clients && HasEmail(clients, c.email);
      assert (id, c.email) !in t.traffics;
    }
  }

  /** After an inbound update a client that had a row keeps it, and one that had none gets its own. */
  lemma UpdateInboundRows(t: Tables, id: int, inb: Inbound, c: Client)
    requires Inv(t) && UpdateInbound(t, id, inb).1 == Done && c in inb.clients && c.email != ""
    ensures var rows := UpdateInbound(t, id, inb).0.traffics;
            && (id, c.email) in rows
            && if (id, c.email) in t.traffics then rows[(id, c.email)] == t.traffics[(id, c.email)]
               else rows[(id, c.email)].expiryTime == c.expiryTime
  {
    var was := t.inbounds[id].clients;
    var kept := DropRows(t.traffics, id, Emails(was) - Emails(inb.clients));
    UpdatedRows(t.traffics, id, was, inb.clients);
    EmailsHas(was);
    assert HasEmail(inb.clients, c.email);
    if (id, c.email) !in t.traffics {
      AddedFollows(kept, id, inb.clients, Emails(was), c);
    }
  }

  lemma UpdateInboundFrame(t: Tables, id: int, inb: Inbound)
    requires Inv(t) && UpdateInbound(t, id, inb).1 == Done
    ensures var t' := UpdateInbound(t, id, inb).0;
            && t'.inbounds.Keys == t.inbounds.Keys && t'.inbounds[id].clients == inb.clients
            && (forall id' :: id' in t.inbounds && id' != id ==> t'.inbounds[id'] == t.inbounds[id'])
            && forall k: RowKey :: k in t.traffics && k.0 != id ==> k in t'.traffics && t'.traffics[k] == t.traffics[k]
  {
    UpdatedRows(t.traffics, id, t.inbounds[id].clients, inb.clients);
  }

  /**
   An inbound update does not refresh the rows that stay: expiries still agree exactly when no client
   that stays changes its expiry.
   */
  lemma UpdateInboundExpiriesIff(t: Tables, id: int, inb: Inbound)
    requires Consistent(t) && ExpiriesAgree(t) && Allowed(t, ReqUpdateInbound(id, inb))
    requires UpdateInbound(t, id, inb).1 == Done
    ensures ExpiriesAgree(UpdateInbound(t, id, inb).0) <==>
            forall c :: c in inb.clients && c.email != "" && (id, c.email) in t.traffics ==>
                          c.expiryTime == t.traffics[(id, c.email)].expiryTime
  {
    var t' := UpdateInbound(t, id, inb).0;
    UpdateInboundFrame(t, id, inb);
    forall c | c in inb.clients && c.email != ""
      ensures (id, c.email) in t'.traffics
      ensures t'.traffics[(id, c.email)].expiryTime == c.expiryTime <==>
              ((id, c.email) in t.traffics ==> c.expiryTime == t.traffics[(id, c.email)].expiryTime)
    {
      UpdateInboundRows(t, id, inb, c);
    }
    if ExpiriesAgree(t') {
      assert RowsFollow(t'.traffics, id, inb.clients);
    } else if forall c :: c in inb.clients && c.email != "" && (id, c.email) in t.traffics ==>
                            c.expiryTime == t.traffics[(id, c.email)].expiryTime {
      OthersFollow(t, t', id);
    }
  }

  lemma {:induction false} NotAmongMembers(clients: seq<Client>, emails: set<string>)
    ensures forall c :: c in NotAmong(clients, emails) <==> c in clients && c.email !in emails
  {
    if |clients| == 0 {
    } else {
      var h, c := clients[..|clients| - 1], clients[|clients| - 1];
      NotAmongMembers(h, emails);
      assert clients == h + [c];
    }
  }

  lemma AddedFollows(kept: map<RowKey, ClientTraffic>, id: int, clients: seq<Client>, emails: set<string>, c: Client)
    requires AllNew(kept, id, NotAmong(clients, emails))
    requires c in clients && c.email !in emails
    ensures var rows := AddRows(kept, id, NotAmong(clients, emails));
            (id, c.email) in rows && rows[(id, c.email)].expiryTime == c.expiryTime
  {
    var added := NotAmong(clients, emails);
    NotAmongMembers(clients, emails);
    var i :| 0 <= i < |added| && added[i] == c;
    AddRowsValue(kept, id, added, i);
  }

  /** Every inbound update but those that edit the expiry of a client that stays. */
  ghost predicate LeavesExpiries(t: Tables, e: Event)
    requires AllowedEvent(t, e)
  {
    e.Request? && e.r.ReqUpdateInbound? && Serve(t, e.r).1 == Done ==>
      forall c :: c in e.r.inb.clients && c.email != "" && (e.r.id, c.email) in t.traffics ==>
        c.expiryTime == t.traffics[(e.r.id, c.email)].expiryTime
  }

  lemma EventKeepsExpiriesIff(t: Tables, e: Event)
    requires Consistent(t) && ExpiriesAgree(t) && AllowedEvent(t, e)
    ensures ExpiriesAgree(Happen(t, e)) <==> LeavesExpiries(t, e)
  {
    match e
    case Request(r) =>
      match r {
        case ReqAddInbound(inb) => AddInboundKeepsExpiries(t, inb);
        case ReqDelInbound(_) =>
        case ReqUpdateInbound(id, inb) =>
          UpdateInboundKeeps(t, id, inb);
          if UpdateInbound(t, id, inb).1 == Done {
            UpdateInboundExpiriesIff(t, id, inb);
          }
        case ReqAddClients(id, clients) => AddClientsKeepsExpiries(t, id, clients);
        case ReqDelClient(id, key) => DelClientKeepsExpiries(t, id, key);
        case ReqUpdateClient(id, clients, key) => UpdateClientKeepsExpiries(t, id, clients, key);
      }
    case TrafficTick(tags, reports, now) => TickKeepsExpiries(t, tags, reports, now);
    case Reset(keys) => ResetKeeps(t, keys);
    case DropDepleted(id, order) => Depleted.DelDepletedKeeps(t, id, order);
  }

  ghost predicate AllLeaveExpiries(t: Tables, es: seq<Event>)
    requires AllowedHistory(t, es)
    decreases es
  {
    |es| == 0 || (LeavesExpiries(t, es[0]) && AllLeaveExpiries(Happen(t, es[0]), es[1..]))
  }

  /** After every event of the history, and before the first. */
  ghost predicate AlwaysAgree(t: Tables, es: seq<Event>)
    requires AllowedHistory(t, es)
    decreases es
  {
    ExpiriesAgree(t) && (|es| == 0 || AlwaysAgree(Happen(t, es[0]), es[1..]))
  }

  /**
   Over every history a client and its row expire at the same time, after each of its events, if and
   only if no inbound update in it edits the expiry of a client that stays.
   */
  lemma {:induction false} HistoryKeepsExpiriesIff(t: Tables, es: seq<Event>)
    requires Consistent(t) && ExpiriesAgree(t) && AllowedHistory(t, es)
    ensures AlwaysAgree(t, es) <==> AllLeaveExpiries(t, es)
    decreases es
  {
    if |es| == 0 {
    } else {
      EventKeepsExpiriesIff(t, es[0]);
      EventKeepsConsistent(t, es[0]);
      if LeavesExpiries(t, es[0]) {
        HistoryKeepsExpiriesIff(Happen(t, es[0]), es[1..]);
      }
    }
  }

  lemma {:induction false} HistoryKeepsExpiries(t: Tables, es: seq<Event>)
    requires Consistent(t) && ExpiriesAgree(t) && AllowedHistory(t, es) && AllLeaveExpiries(t, es)
    ensures ExpiriesAgree(History(t, es))
    decreases es
  {
    if |es| == 0 {
    } else {
      EventKeepsExpiriesIff(t, es[0]);
      EventKeepsConsistent(t, es[0]);
      HistoryKeepsExpiries(Happen(t, es[0]), es[1..]);
    }
  }
}
