/**
 What one tick does to the columns of a row and of an inbound, by their values alone: quotas, expiries,
 renewals and counters, without the notions of the tick.
 */
module TickFields {
  import opened Panel
  import opened Traffic
  import Ledger
  import TrafficService
  import XrayStats

  /** The first report for the email is at j, or there is none and j is the number of reports. */
  ghost predicate ReportAt(reports: seq<Report>, email: string, j: int) {
    && 0 <= j <= |reports|
    && (j < |reports| ==> reports[j].email == email)
    && forall i :: 0 <= i < j ==> reports[i].email != email
  }

  lemma ReportIs(reports: seq<Report>, email: string, j: int)
    requires ReportAt(reports, email, j)
    ensures IsReported(reports, email) <==> j < |reports|
    ensures j < |reports| ==> FirstReport(reports, email) == reports[j]
  {
    if j < |reports| {
      TrafficService.FirstReportAt(reports, email, j);
    }
  }

  /**
   The row x was renewed and disabled to y. Due with its expiry passed and a period of `reset` days: zero
   counters, the next time on its grid from now on, and enabled unless that is now. Else only `enable`
   may change: it stays unless uplink and downlink reach the quota or the expiry has passed.
   */
  ghost predicate EndsAs(x: ClientTraffic, y: ClientTraffic, now: int) {
    && y.total == x.total && y.reset == x.reset && y.allTime == x.allTime
    && if x.reset > 0 && 0 < x.expiryTime <= now then
         && y.up == 0 && y.down == 0
         && now <= y.expiryTime < now + x.reset * 86400000
         && (y.expiryTime - x.expiryTime) % (x.reset * 86400000) == 0
         && (y.enable <==> now < y.expiryTime)
       else
         && y.up == x.up && y.down == x.down && y.expiryTime == x.expiryTime
         && (y.enable <==> x.enable && !(x.total > 0 && x.up + x.down >= x.total) && !(0 < x.expiryTime <= now))
  }

  lemma EndedFields(x: ClientTraffic, now: int)
    ensures EndsAs(x, Ended(x, now), now)
  {
    if x.reset > 0 && 0 < x.expiryTime <= now {
      BumpIsLeast(x.expiryTime, x.reset * DAY, now);
    }
  }

  /** The row with the first report for its email, at j, added, and started by it if its expiry is a duration. */
  function Reported(r: ClientTraffic, reports: seq<Report>, j: int, now: int): ClientTraffic
    requires 0 <= j <= |reports|
  {
    if j == |reports| then r
    else
      ClientTraffic(r.enable, r.up + reports[j].up, r.down + reports[j].down, r.allTime + (reports[j].up + reports[j].down),
                    if r.expiryTime < 0 then now - r.expiryTime else r.expiryTime, r.total, r.reset)
  }

  lemma CountedFields(t: Tables, tags: seq<TagTraffic>, reports: seq<Report>, now: int, k: RowKey, j: int)
    requires Clean(t) && ExpiriesAgree(t) && k in t.traffics && ReportAt(reports, k.1, j)
    ensures CountRow(StartedRow(CountedTags(t, tags), reports, now, k), reports, k.1) == Reported(t.traffics[k], reports, j, now)
  {
    ReportIs(reports, k.1, j);
    Ledger.RowHasClient(t, k);
    CountTagShape(t.inbounds[k.0], tags);
    var clients := t.inbounds[k.0].clients;
    ClientOfHolds(clients, k.1);
    assert RowsFollow(t.traffics, k.0, clients);
    assert k == (k.0, k.1);
  }

  /** A row after a tick: reported, and then renewed or disabled. */
  lemma TickRow(t: Tables, tags: seq<TagTraffic>, reports: seq<Report>, now: int, k: RowKey, j: int)
    requires Clean(t) && ExpiriesAgree(t) && k in t.traffics && ReportAt(reports, k.1, j)
    ensures k in Tick(t, tags, reports, now).traffics
    ensures EndsAs(Reported(t.traffics[k], reports, j, now), Tick(t, tags, reports, now).traffics[k], now)
  {
    TickOfRow(t, tags, reports, now, k);
    CountedFields(t, tags, reports, now, k, j);
    EndedFields(Reported(t.traffics[k], reports, j, now), now);
  }

  /** Removed from the core are exactly the clients whose rows are disabled now and were enabled, or were renewed. */
  lemma TickRemoves(t: Tables, tags: seq<TagTraffic>, reports: seq<Report>, now: int, k: RowKey, j: int)
    requires Clean(t) && ExpiriesAgree(t) && k in t.traffics && ReportAt(reports, k.1, j)
    ensures k in Tick(t, tags, reports, now).traffics
    ensures var x := Reported(t.traffics[k], reports, j, now);
            k in Removed(Enabling(t, tags, reports, now), now) <==>
            !Tick(t, tags, reports, now).traffics[k].enable && (x.enable || (x.reset > 0 && 0 < x.expiryTime <= now))
  {
    CountedFields(t, tags, reports, now, k, j);
    Ledger.RowHasClient(t, k);
    TickOfRow(t, tags, reports, now, k);
  }

  /** Each client's expiry is its row's, before and after; nothing else of a client changes. */
  lemma TickClients(t: Tables, tags: seq<TagTraffic>, reports: seq<Report>, now: int, id: int, i: nat)
    requires ExpiriesAgree(t) && id in t.inbounds && i < |t.inbounds[id].clients| && t.inbounds[id].clients[i].email != ""
    ensures var (c, t') := (t.inbounds[id].clients[i], Tick(t, tags, reports, now));
            && id in t'.inbounds && |t'.inbounds[id].clients| == |t.inbounds[id].clients| && (id, c.email) in t'.traffics
            && t'.inbounds[id].clients[i] == c.(expiryTime := t'.traffics[(id, c.email)].expiryTime)
  {
    var t' := Tick(t, tags, reports, now);
    TickShape(t, tags, reports, now);
    TickKeepsExpiries(t, tags, reports, now);
    assert RowsFollow(t'.traffics, id, t'.inbounds[id].clients);
    assert t'.inbounds[id].clients[i] in t'.inbounds[id].clients;
  }

  // ----- inbounds -----

  /** The report for the tag is at j, or there is none. */
  ghost predicate TagAt(tags: seq<TagTraffic>, tag: string, j: int) {
    && (forall a, b :: 0 <= a < b < |tags| ==> tags[a].tag != tags[b].tag)
    && 0 <= j <= |tags|
    && (j < |tags| ==> tags[j].tag == tag)
    && (j == |tags| ==> forall i :: 0 <= i < |tags| ==> tags[i].tag != tag)
  }

  lemma InboundCounted(a: Inbound, tags: seq<TagTraffic>, j: int)
    requires TagAt(tags, a.tag, j)
    ensures CountTag(a, tags) ==
            if j < |tags| && tags[j].isInbound
            then a.(up := a.up + tags[j].up, down := a.down + tags[j].down, allTime := a.allTime + (tags[j].up + tags[j].down))
            else a
  {
    if j < |tags| {
      XrayStats.CountTagOne(a, tags, j);
    } else {
      XrayStats.CountOther(a, tags);
    }
  }

  lemma InboundEnded(t: Tables, tags: seq<TagTraffic>, reports: seq<Report>, now: int, id: int)
    requires id in t.inbounds
    ensures id in Tick(t, tags, reports, now).inbounds
    ensures var (c, b) := (CountTag(t.inbounds[id], tags), Tick(t, tags, reports, now).inbounds[id]);
            b == c.(clients := b.clients, enable := c.enable && (c.total <= 0 || c.up + c.down < c.total) && (c.expiryTime <= 0 || now < c.expiryTime))
  {
  }

  /**
   An inbound after a tick: the report of its tag is counted if it is an inbound's, and it stays enabled
   unless uplink and downlink reach its quota or its expiry has passed.
   */
  lemma TickInbound(t: Tables, tags: seq<TagTraffic>, reports: seq<Report>, now: int, id: int, j: int)
    requires id in t.inbounds && TagAt(tags, t.inbounds[id].tag, j)
    ensures id in Tick(t, tags, reports, now).inbounds
    ensures var (a, b) := (t.inbounds[id], Tick(t, tags, reports, now).inbounds[id]);
            var counts := j < |tags| && tags[j].isInbound;
            && b.up == a.up + (if counts then tags[j].up else 0) && b.down == a.down + (if counts then tags[j].down else 0)
            && b.allTime == a.allTime + (if counts then tags[j].up + tags[j].down else 0)
            && (b.enable <==> a.enable && !(a.total > 0 && b.up + b.down >= a.total) && !(0 < a.expiryTime <= now))
            && b.total == a.total && b.expiryTime == a.expiryTime && b.deviceLimit == a.deviceLimit
            && b.listen == a.listen && b.port == a.port && b.protocol == a.protocol && b.tag == a.tag
  {
    InboundCounted(t.inbounds[id], tags, j);
    InboundEnded(t, tags, reports, now, id);
  }

  // ----- resets -----

  /** A reset row is enabled with zero counters, and keeps its lifetime total, quota, expiry and period. */
  lemma ResetFields(t: Tables, keys: set<RowKey>, k: RowKey)
    requires k in t.traffics
    ensures var (t', r) := (ResetRows(t, keys), t.traffics[k]);
            && t'.inbounds == t.inbounds && t'.traffics.Keys == t.traffics.Keys
            && (k !in keys ==> t'.traffics[k] == r)
            && (k in keys ==> t'.traffics[k] == ClientTraffic(true, 0, 0, r.allTime, r.expiryTime, r.total, r.reset))
  {
  }
}
