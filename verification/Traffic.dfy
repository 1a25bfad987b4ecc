/**
 What one traffic tick, `AddTraffic`, does to the tables: it counts the reported traffic, starts
 durations on first use, renews what is due and disables what is spent. Rows are addressed by email
 alone, so these functions describe the code on tables where an email has one row (`Clean`).
 */
module Traffic {
  import opened Arith
  import opened Panel
  import Ledger

  /** What the core reports for an inbound or outbound tag. */
  datatype TagTraffic = TagTraffic(isInbound: bool, tag: string, up: int, down: int)

  /** What the core reports for an email. */
  datatype Report = Report(email: string, up: int, down: int)

  const DAY: int := 86400000

  /** Every row has its client and every client its row, and no row is without an email. */
  ghost predicate Clean(t: Tables) {
    Ledger.AllDistinct(t) && Ledger.EmailsAgree(t) && forall k :: k in t.traffics ==> k.1 != ""
  }

  // ----- the reports -----

  function CountOne(inb: Inbound, x: TagTraffic): Inbound {
    if x.isInbound && x.tag == inb.tag
    then inb.(up := inb.up + x.up, down := inb.down + x.down, allTime := inb.allTime + (x.up + x.down))
    else inb
  }

  function CountTag(inb: Inbound, traffics: seq<TagTraffic>): Inbound {
    if |traffics| == 0 then inb
    else CountOne(CountTag(inb, traffics[..|traffics| - 1]), traffics[|traffics| - 1])
  }

  predicate IsReported(reports: seq<Report>, email: string) {
    exists i :: 0 <= i < |reports| && reports[i].email == email
  }

  /** The first report for an email. */
  function FirstReport(reports: seq<Report>, email: string): Report
    requires IsReported(reports, email)
  {
    if reports[0].email == email then reports[0] else FirstReport(reports[1..], email)
  }

  function CountRow(r: ClientTraffic, reports: seq<Report>, email: string): ClientTraffic {
    if IsReported(reports, email) then
      var x := FirstReport(reports, email);
      r.(up := r.up + x.up, down := r.down + x.down, allTime := r.allTime + x.up + x.down)
    else r
  }

  // ----- durations that start on first use -----

  /** The first client with the email. */
  function ClientOf(clients: seq<Client>, email: string): Client
    requires HasEmail(clients, email)
  {
    if clients[0].email == email then clients[0] else ClientOf(clients[1..], email)
  }

  predicate Starts(t: Tables, reports: seq<Report>, k: RowKey) {
    k in t.traffics && t.traffics[k].expiryTime < 0 && IsReported(reports, k.1)
  }

  function StartedClient(t: Tables, reports: seq<Report>, now: int, id: int, c: Client): Client {
    if Starts(t, reports, (id, c.email)) then c.(expiryTime := now - c.expiryTime) else c
  }

  function StartedRow(t: Tables, reports: seq<Report>, now: int, k: RowKey): ClientTraffic
    requires k in t.traffics
  {
    if Starts(t, reports, k) && k.0 in t.inbounds && HasEmail(t.inbounds[k.0].clients, k.1)
    then t.traffics[k].(expiryTime := now - ClientOf(t.inbounds[k.0].clients, k.1).expiryTime)
    else t.traffics[k]
  }

  function StartedClients(t: Tables, reports: seq<Report>, now: int, id: int): (s: seq<Client>)
    requires id in t.inbounds
    ensures |s| == |t.inbounds[id].clients|
  {
    var clients := t.inbounds[id].clients;
    seq(|clients|, i requires 0 <= i < |clients| => StartedClient(t, reports, now, id, clients[i]))
  }

  function Started(t: Tables, reports: seq<Report>, now: int): Tables {
    Tables(map id | id in t.inbounds :: t.inbounds[id].(clients := StartedClients(t, reports, now, id)),
           map k | k in t.traffics :: StartedRow(t, reports, now, k))
  }

  // ----- renewal -----

  predicate Due(r: ClientTraffic, now: int) {
    r.reset > 0 && r.expiryTime > 0 && r.expiryTime <= now
  }

  /** The expiry after whole periods have been added while it lies before now. */
  function Bump(expiry: int, step: int, now: int): int
    requires step > 0
    decreases now - expiry
  {
    if expiry < now then Bump(expiry + step, step, now) else expiry
  }

  function RenewedRow(r: ClientTraffic, now: int): ClientTraffic {
    if Due(r, now) then r.(expiryTime := Bump(r.expiryTime, r.reset * DAY, now), up := 0, down := 0, enable := true) else r
  }

  function RenewedClient(t: Tables, now: int, id: int, c: Client): Client {
    if (id, c.email) in t.traffics && Due(t.traffics[(id, c.email)], now)
    then c.(expiryTime := RenewedRow(t.traffics[(id, c.email)], now).expiryTime) else c
  }

  function RenewedClients(t: Tables, now: int, id: int): (s: seq<Client>)
    requires id in t.inbounds
    ensures |s| == |t.inbounds[id].clients|
  {
    var clients := t.inbounds[id].clients;
    seq(|clients|, i requires 0 <= i < |clients| => RenewedClient(t, now, id, clients[i]))
  }

  function Renewed(t: Tables, now: int): Tables {
    Tables(map id | id in t.inbounds :: t.inbounds[id].(clients := RenewedClients(t, now, id)),
           map k | k in t.traffics :: RenewedRow(t.traffics[k], now))
  }

  // ----- disabling -----

  predicate Spent(total: int, up: int, down: int, expiryTime: int, now: int) {
    (total > 0 && up + down >= total) || (expiryTime > 0 && expiryTime <= now)
  }

  predicate RowSpent(r: ClientTraffic, now: int) {
    Spent(r.total, r.up, r.down, r.expiryTime, now)
  }

  predicate InboundSpent(inb: Inbound, now: int) {
    Spent(inb.total, inb.up, inb.down, inb.expiryTime, now)
  }

  /** A row after the renewal and the disabling. */
  function Ended(r: ClientTraffic, now: int): ClientTraffic {
    var y := RenewedRow(r, now);
    if RowSpent(y, now) then y.(enable := false) else y
  }

  function Disabled(t: Tables, now: int): Tables {
    Tables(map id | id in t.inbounds :: if InboundSpent(t.inbounds[id], now) then t.inbounds[id].(enable := false) else t.inbounds[id],
           map k | k in t.traffics :: if RowSpent(t.traffics[k], now) then t.traffics[k].(enable := false) else t.traffics[k])
  }

  // ----- the tick -----

  function CountedTags(t: Tables, tags: seq<TagTraffic>): Tables {
    t.(inbounds := map id | id in t.inbounds :: CountTag(t.inbounds[id], tags))
  }

  function CountedRows(t: Tables, reports: seq<Report>): Tables {
    t.(traffics := map k | k in t.traffics :: CountRow(t.traffics[k], reports, k.1))
  }

  function Tick(t: Tables, tags: seq<TagTraffic>, reports: seq<Report>, now: int): Tables {
    Disabled(Renewed(CountedRows(Started(CountedTags(t, tags), reports, now), reports), now), now)
  }

  /** No enabled row and no enabled inbound is over its quota or past its expiry. */
  ghost predicate NoneSpent(t: Tables, now: int) {
    && (forall k :: k in t.traffics && t.traffics[k].enable ==> !RowSpent(t.traffics[k], now))
    && (forall id :: id in t.inbounds && t.inbounds[id].enable ==> !InboundSpent(t.inbounds[id], now))
  }

  /** Nothing enabled is over its quota, uplink and downlink together, or past its expiry. */
  ghost predicate WithinLimits(t: Tables, now: int) {
    && (forall k :: k in t.traffics && t.traffics[k].enable ==>
          var r := t.traffics[k]; (r.total <= 0 || r.up + r.down < r.total) && (r.expiryTime <= 0 || now < r.expiryTime))
    && (forall id :: id in t.inbounds && t.inbounds[id].enable ==>
          var a := t.inbounds[id]; (a.total <= 0 || a.up + a.down < a.total) && (a.expiryTime <= 0 || now < a.expiryTime))
  }

  lemma WithinLimitsIff(t: Tables, now: int)
    ensures NoneSpent(t, now) <==> WithinLimits(t, now)
  {
  }

  // ----- a tick keeps rows, emails and everything the requests depend on -----

  /** Nothing that the invariant looks at has changed. */
  ghost predicate SameShape(t: Tables, t': Tables) {
    && t'.inbounds.Keys == t.inbounds.Keys && t'.traffics.Keys == t.traffics.Keys
    && forall id :: id in t.inbounds ==>
         var a, b := t.inbounds[id], t'.inbounds[id];
         && a.listen == b.listen && a.port == b.port && a.protocol == b.protocol && a.tag == b.tag
         && |a.clients| == |b.clients|
         && forall i :: 0 <= i < |a.clients| ==> b.clients[i] == a.clients[i].(expiryTime := b.clients[i].expiryTime)
  }

  lemma {:induction false} CountTagShape(inb: Inbound, tags: seq<TagTraffic>)
    ensures var b := CountTag(inb, tags);
            b == inb.(up := b.up, down := b.down, allTime := b.allTime)
  {
    if |tags| == 0 {
    } else {
      CountTagShape(inb, tags[..|tags| - 1]);
    }
  }

  lemma CountedTagsShape(t: Tables, tags: seq<TagTraffic>)
    ensures SameShape(t, CountedTags(t, tags))
  {
    forall id | id in t.inbounds
      ensures var b := CountTag(t.inbounds[id], tags);
              b == t.inbounds[id].(up := b.up, down := b.down, allTime := b.allTime)
    {
      CountTagShape(t.inbounds[id], tags);
    }
  }

  lemma ShapeTransitive(t: Tables, t': Tables, t'': Tables)
    requires SameShape(t, t') && SameShape(t', t'')
    ensures SameShape(t, t'')
  {
  }

  lemma TickShape(t: Tables, tags: seq<TagTraffic>, reports: seq<Report>, now: int)
    ensures SameShape(t, Tick(t, tags, reports, now))
  {
    var a := CountedTags(t, tags);
    var b := Started(a, reports, now);
    var c := CountedRows(b, reports);
    var d := Renewed(c, now);
    CountedTagsShape(t, tags);
    StartedShape(a, reports, now);
    CountedRowsShape(b, reports);
    RenewedShape(c, now);
    DisabledShape(d, now);
    ShapeTransitive(t, a, b);
    ShapeTransitive(t, b, c);
    ShapeTransitive(t, c, d);
    ShapeTransitive(t, d, Disabled(d, now));
  }

  lemma StartedShape(t: Tables, reports: seq<Report>, now: int)
    ensures SameShape(t, Started(t, reports, now))
  {
  }

  lemma CountedRowsShape(t: Tables, reports: seq<Report>)
    ensures SameShape(t, CountedRows(t, reports))
  {
  }

  lemma RenewedShape(t: Tables, now: int)
    ensures SameShape(t, Renewed(t, now))
  {
  }

  lemma DisabledShape(t: Tables, now: int)
    ensures SameShape(t, Disabled(t, now))
  {
  }

  lemma ShapeEmails(t: Tables, t': Tables, id: int, e: string)
    requires SameShape(t, t') && id in t.inbounds
    ensures HasEmail(t'.inbounds[id].clients, e) <==> HasEmail(t.inbounds[id].clients, e)
  {
    var a, b := t.inbounds[id].clients, t'.inbounds[id].clients;
    if HasEmail(a, e) {
      var i :| 0 <= i < |a| && a[i].email == e;
      assert b[i] in b && b[i].email == e;
    }
    if HasEmail(b, e) {
      var i :| 0 <= i < |b| && b[i].email == e;
      assert a[i] in a && a[i].email == e;
    }
  }

  lemma ShapeKeepsInv(t: Tables, t': Tables)
    requires SameShape(t, t')
    ensures Ledger.AllDistinct(t) ==> Ledger.AllDistinct(t')
    ensures Ledger.EmailsAgree(t) ==> Ledger.EmailsAgree(t')
    ensures Ledger.Inv(t) ==> Ledger.Inv(t')
    ensures Clean(t) ==> Clean(t')
  {
    forall id, e | id in t.inbounds
      ensures HasEmail(t'.inbounds[id].clients, e) <==> HasEmail(t.inbounds[id].clients, e)
    {
      ShapeEmails(t, t', id, e);
    }
    if Ledger.AllDistinct(t) {
      forall id | id in t.inbounds
        ensures Ledger.ClientsDistinct(t'.inbounds[id].protocol, t'.inbounds[id].clients)
      {
        assert Ledger.ClientsDistinct(t.inbounds[id].protocol, t.inbounds[id].clients);
      }
    }
  }

  // ----- renewal: the new expiry -----

  /** t differs from the old expiry by whole periods. */
  ghost predicate WholePeriods(expiry: int, t: int, step: int)
    requires step > 0
  {
    (t - expiry) % step == 0
  }

  /** The least time from now on that differs from the expiry by whole periods; it may be now. */
  lemma {:induction false} BumpIsLeast(expiry: int, step: int, now: int)
    requires step > 0 && expiry <= now
    ensures now <= Bump(expiry, step, now) < now + step
    ensures WholePeriods(expiry, Bump(expiry, step, now), step)
    ensures forall t :: t >= now && WholePeriods(expiry, t, step) ==> Bump(expiry, step, now) <= t
    decreases now - expiry
  {
    BumpInRange(expiry, step, now);
    var b := Bump(expiry, step, now);
    forall t | t >= now && WholePeriods(expiry, t, step)
      ensures b <= t
    {
      GridGap(b - expiry, t - expiry, step);
    }
  }

  lemma {:induction false} BumpInRange(expiry: int, step: int, now: int)
    requires step > 0 && expiry <= now
    ensures now <= Bump(expiry, step, now) < now + step
    ensures WholePeriods(expiry, Bump(expiry, step, now), step)
    decreases now - expiry
  {
    if expiry < now {
      var e := expiry + step;
      var b := Bump(e, step, now);
      if e <= now {
        BumpInRange(e, step, now);
      }
      ModShift(b - e, 1, step);
    }
  }

  /** Two multiples of a period that lie less than a period apart are equal. */
  lemma GridGap(b: int, t: int, step: int)
    requires step > 0 && b % step == 0 && t % step == 0 && b - step < t
    ensures b <= t
  {
    var x, y := b / step, t / step;
    assert b == step * x && t == step * y;
    MulLeIf(step, y, x - 1);
    MulLeIf(step, x, y);
    assert step * (x - 1) == step * x - step;
  }

  lemma MulLeIf(a: int, x: int, y: int)
    requires a >= 0
    ensures x <= y ==> a * x <= a * y
  {
    if x <= y {
      MulLe(a, x, y);
    }
  }

  // ----- expiries agree -----

  /** Every named client has a row, which expires with it. */
  ghost predicate RowsFollow(rows: map<RowKey, ClientTraffic>, id: int, clients: seq<Client>) {
    forall c :: c in clients && c.email != "" ==>
      (id, c.email) in rows && rows[(id, c.email)].expiryTime == c.expiryTime
  }

  /** A client and its row expire at the same time. */
  ghost predicate ExpiriesAgree(t: Tables) {
    forall id :: id in t.inbounds ==> RowsFollow(t.traffics, id, t.inbounds[id].clients)
  }

  lemma {:induction false} ClientOfHolds(clients: seq<Client>, email: string)
    requires HasEmail(clients, email)
    ensures ClientOf(clients, email) in clients && ClientOf(clients, email).email == email
  {
    if clients[0].email == email {
    } else {
      assert clients == [clients[0]] + clients[1..];
      ClientOfHolds(clients[1..], email);
    }
  }

  lemma StartedKeepsExpiries(t: Tables, reports: seq<Report>, now: int)
    requires ExpiriesAgree(t)
    ensures ExpiriesAgree(Started(t, reports, now))
  {
    var t' := Started(t, reports, now);
    forall id, c' | id in t'.inbounds && c' in t'.inbounds[id].clients && c'.email != ""
      ensures (id, c'.email) in t'.traffics && t'.traffics[(id, c'.email)].expiryTime == c'.expiryTime
    {
      assert RowsFollow(t.traffics, id, t.inbounds[id].clients);
      var i :| 0 <= i < |t'.inbounds[id].clients| && t'.inbounds[id].clients[i] == c';
      var c := t.inbounds[id].clients[i];
      assert c in t.inbounds[id].clients && HasEmail(t.inbounds[id].clients, c.email);
      ClientOfHolds(t.inbounds[id].clients, c.email);
    }
  }

  lemma RenewedKeepsExpiries(t: Tables, now: int)
    requires ExpiriesAgree(t)
    ensures ExpiriesAgree(Renewed(t, now))
  {
    var t' := Renewed(t, now);
    forall id, c' | id in t'.inbounds && c' in t'.inbounds[id].clients && c'.email != ""
      ensures (id, c'.email) in t'.traffics && t'.traffics[(id, c'.email)].expiryTime == c'.expiryTime
    {
      assert RowsFollow(t.traffics, id, t.inbounds[id].clients);
      var i :| 0 <= i < |t'.inbounds[id].clients| && t'.inbounds[id].clients[i] == c';
      var c := t.inbounds[id].clients[i];
      assert c in t.inbounds[id].clients;
    }
  }

  /** Tables with the same client expiries and the same row expiries. */
  ghost predicate SameExpiries(t: Tables, t': Tables) {
    && t'.inbounds.Keys == t.inbounds.Keys && t'.traffics.Keys == t.traffics.Keys
    && (forall id :: id in t.inbounds ==> t'.inbounds[id].clients == t.inbounds[id].clients)
    && (forall k :: k in t.traffics ==> t'.traffics[k].expiryTime == t.traffics[k].expiryTime)
  }

  lemma SameExpiriesAgree(t: Tables, t': Tables)
    requires SameExpiries(t, t') && ExpiriesAgree(t)
    ensures ExpiriesAgree(t')
  {
    forall id | id in t'.inbounds
      ensures RowsFollow(t'.traffics, id, t'.inbounds[id].clients)
    {
      assert RowsFollow(t.traffics, id, t.inbounds[id].clients);
    }
  }

  lemma CountingKeepsExpiries(t: Tables, tags: seq<TagTraffic>, reports: seq<Report>, now: int)
    ensures SameExpiries(t, CountedTags(t, tags))
    ensures SameExpiries(t, CountedRows(t, reports))
    ensures SameExpiries(t, Disabled(t, now))
  {
    forall id | id in t.inbounds
      ensures CountTag(t.inbounds[id], tags).clients == t.inbounds[id].clients
    {
      CountTagShape(t.inbounds[id], tags);
    }
  }

  /** Whatever is reported and whenever: the two copies of an expiry stay equal. */
  lemma TickKeepsExpiries(t: Tables, tags: seq<TagTraffic>, reports: seq<Report>, now: int)
    requires ExpiriesAgree(t)
    ensures ExpiriesAgree(Tick(t, tags, reports, now))
  {
    var a := CountedTags(t, tags);
    var b := Started(a, reports, now);
    var c := CountedRows(b, reports);
    var d := Renewed(c, now);
    CountingKeepsExpiries(t, tags, reports, now);
    SameExpiriesAgree(t, a);
    StartedKeepsExpiries(a, reports, now);
    CountingKeepsExpiries(b, tags, reports, now);
    SameExpiriesAgree(b, c);
    RenewedKeepsExpiries(c, now);
    CountingKeepsExpiries(d, tags, reports, now);
    SameExpiriesAgree(d, Disabled(d, now));
  }

  lemma FirstUse(t: Tables, reports: seq<Report>, now: int, id: int, i: nat)
    requires ExpiriesAgree(t)
    requires id in t.inbounds && i < |t.inbounds[id].clients|
    requires Ledger.ClientsDistinct(t.inbounds[id].protocol, t.inbounds[id].clients)
    requires var c := t.inbounds[id].clients[i]; c.email != "" && c.expiryTime < 0 && IsReported(reports, c.email)
    ensures var c, t' := t.inbounds[id].clients[i], Started(t, reports, now);
            && t'.inbounds[id].clients[i].expiryTime == now + (-c.expiryTime)
            && (id, c.email) in t'.traffics && t'.traffics[(id, c.email)].expiryTime == now + (-c.expiryTime)
  {
    var c := t.inbounds[id].clients[i];
    assert RowsFollow(t.traffics, id, t.inbounds[id].clients);
    assert c in t.inbounds[id].clients && HasEmail(t.inbounds[id].clients, c.email);
    ClientOfHolds(t.inbounds[id].clients, c.email);
  }

  /** What the second half of a tick does to the expiries of one client and its row. */
  lemma ExpiriesAfterRenewal(b: Tables, reports: seq<Report>, now: int, id: int, i: nat)
    requires id in b.inbounds && i < |b.inbounds[id].clients| && (id, b.inbounds[id].clients[i].email) in b.traffics
    ensures var t' := Disabled(Renewed(CountedRows(b, reports), now), now);
            var c := b.inbounds[id].clients[i];
            var r := b.traffics[(id, c.email)];
            if Due(r, now) then
              var e := Bump(r.expiryTime, r.reset * DAY, now);
              t'.inbounds[id].clients[i].expiryTime == e && t'.traffics[(id, c.email)].expiryTime == e
            else
              t'.inbounds[id].clients[i].expiryTime == c.expiryTime && t'.traffics[(id, c.email)].expiryTime == r.expiryTime
  {
  }

  /** First use of a duration: after the tick both copies are now plus the duration. */
  lemma TickStarts(t: Tables, tags: seq<TagTraffic>, reports: seq<Report>, now: int, id: int, i: nat)
    requires Ledger.AllDistinct(t) && ExpiriesAgree(t)
    requires id in t.inbounds && i < |t.inbounds[id].clients|
    requires var c := t.inbounds[id].clients[i]; c.email != "" && c.expiryTime < 0 && IsReported(reports, c.email)
    ensures var c, t' := t.inbounds[id].clients[i], Tick(t, tags, reports, now);
            && i < |t'.inbounds[id].clients| && t'.inbounds[id].clients[i].expiryTime == now + (-c.expiryTime)
            && (id, c.email) in t'.traffics && t'.traffics[(id, c.email)].expiryTime == now + (-c.expiryTime)
  {
    TickShape(t, tags, reports, now);
    var a := CountedTags(t, tags);
    CountTagShape(t.inbounds[id], tags);
    CountingKeepsExpiries(t, tags, reports, now);
    SameExpiriesAgree(t, a);
    FirstUse(a, reports, now, id, i);
    ExpiriesAfterRenewal(Started(a, reports, now), reports, now, id, i);
  }

  /** The least time from now on that is whole periods away from the expiry. */
  ghost predicate IsLeastRenewal(expiry: int, step: int, now: int, e: int)
    requires step > 0
  {
    now <= e && WholePeriods(expiry, e, step) && forall t :: t >= now && WholePeriods(expiry, t, step) ==> e <= t
  }

  /** A due renewal: after the tick both copies are the least such time. */
  lemma TickRenews(t: Tables, tags: seq<TagTraffic>, reports: seq<Report>, now: int, id: int, i: nat)
    requires id in t.inbounds && i < |t.inbounds[id].clients|
    requires var k := (id, t.inbounds[id].clients[i].email); k in t.traffics && Due(t.traffics[k], now)
    ensures var k, t' := (id, t.inbounds[id].clients[i].email), Tick(t, tags, reports, now);
            && k in t'.traffics && i < |t'.inbounds[id].clients|
            && t'.inbounds[id].clients[i].expiryTime == t'.traffics[k].expiryTime
            && IsLeastRenewal(t.traffics[k].expiryTime, t.traffics[k].reset * DAY, now, t'.traffics[k].expiryTime)
  {
    TickShape(t, tags, reports, now);
    var a := CountedTags(t, tags);
    var r := t.traffics[(id, t.inbounds[id].clients[i].email)];
    CountTagShape(t.inbounds[id], tags);
    ExpiriesAfterRenewal(Started(a, reports, now), reports, now, id, i);
    BumpIsLeast(r.expiryTime, r.reset * DAY, now);
  }

  // ----- when a renewed row is disabled at once -----

  lemma RenewedIsSpentIff(r: ClientTraffic, now: int)
    requires Due(r, now)
    ensures RowSpent(RenewedRow(r, now), now) <==> WholePeriods(r.expiryTime, now, r.reset * DAY)
  {
    BumpIsLeast(r.expiryTime, r.reset * DAY, now);
  }

  /** A row that a tick finds due is disabled by the same tick if and only if whole periods have passed to the millisecond. */
  lemma RenewedIsDisabledIff(t: Tables, tags: seq<TagTraffic>, reports: seq<Report>, now: int, k: RowKey)
    requires k in t.traffics && Due(t.traffics[k], now)
    ensures var r, r' := t.traffics[k], Tick(t, tags, reports, now).traffics[k];
            !r'.enable <==> (now - r.expiryTime) % (r.reset * DAY) == 0
  {
    var x := CountRow(t.traffics[k], reports, k.1);
    RenewedIsSpentIff(x, now);
    TickOfRow(t, tags, reports, now, k);
  }

  // ----- who is removed from the core -----

  /** The tables of a tick before the disabling. */
  function Enabling(t: Tables, tags: seq<TagTraffic>, reports: seq<Report>, now: int): Tables {
    Renewed(CountedRows(Started(CountedTags(t, tags), reports, now), reports), now)
  }

  /** The clients that a tick removes from the core: those whose rows it disables. */
  function Removed(t: Tables, now: int): set<RowKey> {
    set k | k in t.traffics && k.0 in t.inbounds && t.traffics[k].enable && RowSpent(t.traffics[k], now)
  }

  /** A client whose row is disabled is not removed again, unless the tick has renewed it. */
  lemma DisabledIsNotRemoved(t: Tables, tags: seq<TagTraffic>, reports: seq<Report>, now: int, k: RowKey)
    requires k in t.traffics && !t.traffics[k].enable
    requires !Due(StartedRow(CountedTags(t, tags), reports, now, k), now)
    ensures k !in Removed(Enabling(t, tags, reports, now), now)
    ensures k in Tick(t, tags, reports, now).traffics && !Tick(t, tags, reports, now).traffics[k].enable
  {
    TickOfRow(t, tags, reports, now, k);
  }

  // ----- a second tick at the same time changes nothing -----

  lemma NoneSpentAfterTick(t: Tables, tags: seq<TagTraffic>, reports: seq<Report>, now: int)
    ensures NoneSpent(Tick(t, tags, reports, now), now)
  {
  }

  lemma RowSettles(x: ClientTraffic, now: int)
    ensures Ended(Ended(x, now), now) == Ended(x, now)
    ensures Due(Ended(x, now), now) ==>
              Due(x, now) && RenewedRow(x, now).expiryTime == now && RenewedRow(Ended(x, now), now).expiryTime == now
  {
    if Due(x, now) {
      BumpIsLeast(x.expiryTime, x.reset * DAY, now);
    }
  }

  /** After a tick, a tick without reports at the same clock value leaves the tables as they are. */
  lemma TickSettles(t: Tables, tags: seq<TagTraffic>, reports: seq<Report>, now: int)
    ensures var u := Tick(t, tags, reports, now); Tick(u, [], [], now) == u
  {
    var d := CountedRows(Started(CountedTags(t, tags), reports, now), reports);
    var u := Disabled(Renewed(d, now), now);
    NothingReported(u, now);
    RenewalSettles(d, now);
  }

  lemma RenewalSettles(d: Tables, now: int)
    ensures var u := Disabled(Renewed(d, now), now); Disabled(Renewed(u, now), now) == u
  {
    RowsSettle(d, now);
    InboundsSettle(d, now);
  }

  lemma RowsSettle(d: Tables, now: int)
    ensures var u := Disabled(Renewed(d, now), now); Disabled(Renewed(u, now), now).traffics == u.traffics
  {
    var u := Disabled(Renewed(d, now), now);
    forall k | k in d.traffics
      ensures Disabled(Renewed(u, now), now).traffics[k] == u.traffics[k]
    {
      RowSettles(d.traffics[k], now);
      assert u.traffics[k] == Ended(d.traffics[k], now);
    }
  }

  lemma InboundsSettle(d: Tables, now: int)
    ensures var u := Disabled(Renewed(d, now), now); Disabled(Renewed(u, now), now).inbounds == u.inbounds
  {
    var u := Disabled(Renewed(d, now), now);
    forall id | id in d.inbounds
      ensures Disabled(Renewed(u, now), now).inbounds[id] == u.inbounds[id]
    {
      ClientsSettle(d, now, id);
    }
  }

  lemma NothingReported(u: Tables, now: int)
    ensures CountedRows(Started(CountedTags(u, []), [], now), []) == u
  {
    NothingCounted(u);
    NothingStarts(u, now);
  }

  lemma NothingCounted(u: Tables)
    ensures CountedTags(u, []) == u && CountedRows(u, []) == u
  {
    forall id | id in u.inbounds
      ensures CountedTags(u, []).inbounds[id] == u.inbounds[id]
    {
    }
    assert CountedTags(u, []).inbounds == u.inbounds;
    assert CountedRows(u, []).traffics == u.traffics;
  }

  lemma NothingStarts(u: Tables, now: int)
    ensures Started(u, [], now) == u
  {
    var s := Started(u, [], now);
    assert s.traffics == u.traffics;
    forall id | id in u.inbounds
      ensures s.inbounds[id] == u.inbounds[id]
    {
      assert s.inbounds[id].clients == u.inbounds[id].clients;
    }
    assert s.inbounds == u.inbounds;
  }

  lemma ClientsSettle(d: Tables, now: int, id: int)
    requires id in d.inbounds
    ensures var u := Disabled(Renewed(d, now), now);
            RenewedClients(u, now, id) == u.inbounds[id].clients
  {
    var u := Disabled(Renewed(d, now), now);
    var s := u.inbounds[id].clients;
    forall i | 0 <= i < |s|
      ensures RenewedClient(u, now, id, s[i]) == s[i]
    {
      var c := d.inbounds[id].clients[i];
      if (id, c.email) in d.traffics {
        RowSettles(d.traffics[(id, c.email)], now);
      }
    }
  }

  // ----- counters -----

  ghost predicate CountersOk(t: Tables) {
    forall k :: k in t.traffics ==>
      var r := t.traffics[k]; r.up >= 0 && r.down >= 0 && r.up + r.down <= r.allTime
  }

  ghost predicate NonNegative(reports: seq<Report>) {
    forall i :: 0 <= i < |reports| ==> reports[i].up >= 0 && reports[i].down >= 0
  }

  lemma {:induction false} FirstReportIsOne(reports: seq<Report>, email: string)
    requires IsReported(reports, email)
    ensures FirstReport(reports, email) in reports && FirstReport(reports, email).email == email
  {
    if reports[0].email == email {
    } else {
      assert reports == [reports[0]] + reports[1..];
      FirstReportIsOne(reports[1..], email);
    }
  }

  /** The lifetime total of a row never falls behind its counters. */
  lemma TickKeepsCounters(t: Tables, tags: seq<TagTraffic>, reports: seq<Report>, now: int)
    requires CountersOk(t) && NonNegative(reports)
    ensures CountersOk(Tick(t, tags, reports, now))
  {
    forall k | k in t.traffics && IsReported(reports, k.1)
      ensures FirstReport(reports, k.1).up >= 0 && FirstReport(reports, k.1).down >= 0
    {
      FirstReportIsOne(reports, k.1);
    }
  }

  function Added(reports: seq<Report>, email: string): int {
    if IsReported(reports, email) then FirstReport(reports, email).up + FirstReport(reports, email).down else 0
  }

  /** A tick adds to a row's lifetime total what is reported for its email, and nothing else. */
  lemma TickAllTime(t: Tables, tags: seq<TagTraffic>, reports: seq<Report>, now: int, k: RowKey)
    requires k in t.traffics
    ensures Tick(t, tags, reports, now).traffics[k].allTime == t.traffics[k].allTime + Added(reports, k.1)
  {
  }

  lemma TickOfRow(t: Tables, tags: seq<TagTraffic>, reports: seq<Report>, now: int, k: RowKey)
    requires k in t.traffics
    ensures k in Tick(t, tags, reports, now).traffics
    ensures Tick(t, tags, reports, now).traffics[k] ==
            Ended(CountRow(StartedRow(CountedTags(t, tags), reports, now, k), reports, k.1), now)
  {
  }

  /** A row's up and down counters: what is reported for its email is added; a renewed row starts at zero. */
  lemma TickUpDown(t: Tables, tags: seq<TagTraffic>, reports: seq<Report>, now: int, k: RowKey)
    requires k in t.traffics
    ensures k in Tick(t, tags, reports, now).traffics
    ensures var r, r' := CountRow(t.traffics[k], reports, k.1), Tick(t, tags, reports, now).traffics[k];
            if Due(StartedRow(CountedTags(t, tags), reports, now, k), now)
            then r'.up == 0 && r'.down == 0 && r'.expiryTime >= now
            else r'.up == r.up && r'.down == r.down
  {
    TickOfRow(t, tags, reports, now, k);
    var x := StartedRow(CountedTags(t, tags), reports, now, k);
    if Due(x, now) {
      BumpIsLeast(x.expiryTime, x.reset * DAY, now);
    }
  }

  // ----- resets -----

  /** The counters of some rows start again at zero, and the rows are enabled. */
  function ResetRows(t: Tables, keys: set<RowKey>): Tables {
    t.(traffics := map k | k in t.traffics ::
         if k in keys then t.traffics[k].(enable := true, up := 0, down := 0) else t.traffics[k])
  }

  lemma ResetKeeps(t: Tables, keys: set<RowKey>)
    ensures SameShape(t, ResetRows(t, keys))
    ensures CountersOk(t) ==> CountersOk(ResetRows(t, keys))
    ensures ExpiriesAgree(t) ==> ExpiriesAgree(ResetRows(t, keys))
  {
    if ExpiriesAgree(t) {
      SameExpiriesAgree(t, ResetRows(t, keys));
    }
  }
}
