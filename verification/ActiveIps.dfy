/**
 The map of active addresses that the device-limit job keeps: `cleanupExpiredIPs` and `parseAccessLog`.
 It refines the history of all sightings.
 */
module ActiveIps {
  import opened Options

  const ACTIVE_TTL: int := 180000 // three minutes, in milliseconds

  type Ips = map<string, int>
  type IpMap = map<string, Ips>

  /** A line of the access log, as the two regular expressions take it apart. */
  datatype LogLine = Accepted(email: string, ip: string) | Unmatched

  predicate Loopback(ip: string) {
    ip == "127.0.0.1" || ip == "::1"
  }

  predicate Counts(line: LogLine) {
    line.Accepted? && !Loopback(line.ip)
  }

  // ----- what one run does to the map -----

  function Fresh(ips: Ips, now: int): Ips {
    map ip | ip in ips && now - ips[ip] <= ACTIVE_TTL :: ips[ip]
  }

  function Cleaned(m: IpMap, now: int): IpMap {
    map e | e in m && Fresh(m[e], now) != map[] :: Fresh(m[e], now)
  }

  function Sight(m: IpMap, line: LogLine, now: int): IpMap {
    if Counts(line) then m[line.email := (if line.email in m then m[line.email] else map[])[line.ip := now]] else m
  }

  function SightAll(m: IpMap, lines: seq<LogLine>, now: int): IpMap {
    if |lines| == 0 then m else Sight(SightAll(m, lines[..|lines| - 1], now), lines[|lines| - 1], now)
  }

  function AfterRun(m: IpMap, lines: seq<LogLine>, now: int): IpMap {
    SightAll(Cleaned(m, now), lines, now)
  }

  // ----- reading the log -----

  /** The lines behind the last position; nothing when the file has become shorter. */
  function Unread(log: seq<LogLine>, position: nat): seq<LogLine> {
    if position <= |log| then log[position..] else []
  }

  function NextPosition(log: seq<LogLine>, position: nat): nat {
    if |log| < position then 0 else |log|
  }

  class ActiveClients {
    var activeClientIPs: IpMap
    var lastPosition: nat

    constructor ()
      ensures activeClientIPs == map[] && lastPosition == 0
    {
      activeClientIPs, lastPosition := map[], 0;
    }

    /** The inner loop of the cleanup, over the addresses of one email. */
    method DropExpired(ips: Ips, now: int) returns (ips': Ips)
      ensures ips' == Fresh(ips, now)
    {
      ips' := ips;
      var rest := ips.Keys;
      while exists ip :: ip in rest
        invariant rest <= ips.Keys
        invariant forall ip :: ip in ips' <==> ip in ips && (ip in rest || now - ips[ip] <= ACTIVE_TTL)
        invariant forall ip :: ip in ips' ==> ips'[ip] == ips[ip]
        decreases rest
      {
        var ip :| ip in rest;
        if now - ips[ip] > ACTIVE_TTL {
          ips' := ips' - {ip};
        }
        rest := rest - {ip};
      }
    }

    method CleanupExpiredIPs(now: int)
      modifies this`activeClientIPs
      ensures activeClientIPs == Cleaned(old(activeClientIPs), now)
    {
      ghost var m := activeClientIPs;
      var rest := activeClientIPs.Keys;
      while exists e :: e in rest
        invariant rest <= m.Keys
        invariant forall e :: e in activeClientIPs <==> e in m && (e in rest || Fresh(m[e], now) != map[])
        invariant forall e :: e in activeClientIPs ==>
                    activeClientIPs[e] == if e in rest then m[e] else Fresh(m[e], now)
        decreases rest
      {
        var e :| e in rest;
        var ips := DropExpired(activeClientIPs[e], now);
        activeClientIPs := activeClientIPs[e := ips];
        if |activeClientIPs[e]| == 0 {
          activeClientIPs := activeClientIPs - {e};
        }
        rest := rest - {e};
      }
    }

    /** A missing or unreadable log leaves everything as it is. */
    method ParseAccessLog(readable: bool, log: seq<LogLine>, now: int)
      modifies this
      ensures !readable ==> activeClientIPs == old(activeClientIPs) && lastPosition == old(lastPosition)
      ensures readable ==> activeClientIPs == SightAll(old(activeClientIPs), Unread(log, old(lastPosition)), now)
      ensures readable ==> lastPosition == NextPosition(log, old(lastPosition))
    {
      if !readable {
        return;
      }
      var lines := Unread(log, lastPosition);
      for i := 0 to |lines|
        invariant lastPosition == old(lastPosition)
        invariant activeClientIPs == SightAll(old(activeClientIPs), lines[..i], now)
      {
        assert lines[..i + 1][..i] == lines[..i];
        match lines[i] {
          case Accepted(email, ip) =>
            if ip != "127.0.0.1" && ip != "::1" {
              if email !in activeClientIPs {
                activeClientIPs := activeClientIPs[email := map[]];
              }
              activeClientIPs := activeClientIPs[email := activeClientIPs[email][ip := now]];
            }
          case Unmatched =>
        }
      }
      assert lines[..|lines|] == lines;
      var currentPosition := |log|;
      if currentPosition < lastPosition {
        lastPosition := 0;
      } else {
        lastPosition := currentPosition;
      }
    }

    /** The first two steps of `Run`. */
    method Run(running: bool, readable: bool, log: seq<LogLine>, now: int)
      modifies this
      ensures !running ==> activeClientIPs == old(activeClientIPs)
      ensures running ==>
                activeClientIPs == AfterRun(old(activeClientIPs), if readable then Unread(log, old(lastPosition)) else [], now)
    {
      if !running {
        return;
      }
      CleanupExpiredIPs(now);
      ParseAccessLog(readable, log, now);
    }
  }

  // ----- the history that the map refines -----

  datatype Seen = Seen(email: string, ip: string, time: int)

  /** When an address was last seen with an email. */
  function Latest(h: seq<Seen>, email: string, ip: string): Option<int> {
    if |h| == 0 then None
    else
      var x := h[|h| - 1];
      if x.email == email && x.ip == ip then Some(x.time) else Latest(h[..|h| - 1], email, ip)
  }

  function Sightings(lines: seq<LogLine>, now: int): seq<Seen> {
    if |lines| == 0 then []
    else
      var x := lines[|lines| - 1];
      Sightings(lines[..|lines| - 1], now) + if Counts(x) then [Seen(x.email, x.ip, now)] else []
  }

  predicate IsActive(h: seq<Seen>, now: int, email: string, ip: string) {
    Latest(h, email, ip).Some? && now - Latest(h, email, ip).value <= ACTIVE_TTL
  }

  /** The map holds exactly the pairs seen within the last three minutes, and no email without one. */
  ghost predicate Refines(m: IpMap, h: seq<Seen>, now: int) {
    && (forall e, ip :: e in m && ip in m[e] <==> IsActive(h, now, e, ip))
    && (forall e, ip :: e in m && ip in m[e] ==> m[e][ip] == Latest(h, e, ip).value)
    && (forall e :: e in m ==> m[e] != map[])
  }

  /** The addresses that an email was seen with in the last three minutes. */
  ghost function ActiveAddresses(h: seq<Seen>, now: int, email: string): set<string> {
    set i | 0 <= i < |h| && IsActive(h, now, email, h[i].ip) :: h[i].ip
  }

  lemma {:induction false} LatestIsSeen(h: seq<Seen>, email: string, ip: string)
    requires Latest(h, email, ip).Some?
    ensures exists i :: 0 <= i < |h| && h[i].ip == ip
  {
    var x := h[|h| - 1];
    if x.email == email && x.ip == ip {
    } else {
      LatestIsSeen(h[..|h| - 1], email, ip);
    }
  }

  /** Counting an email's entries in the map counts its active addresses in the history. */
  lemma EntriesAreActive(m: IpMap, h: seq<Seen>, now: int, email: string)
    requires Refines(m, h, now)
    ensures (if email in m then m[email].Keys else {}) == ActiveAddresses(h, now, email)
  {
    forall ip | IsActive(h, now, email, ip)
      ensures ip in ActiveAddresses(h, now, email)
    {
      LatestIsSeen(h, email, ip);
    }
  }

  lemma CleanedRefines(m: IpMap, h: seq<Seen>, before: int, now: int)
    requires Refines(m, h, before) && before <= now
    ensures Refines(Cleaned(m, now), h, now)
  {
    var c := Cleaned(m, now);
    forall e, ip
      ensures e in c && ip in c[e] <==> IsActive(h, now, e, ip)
    {
      if IsActive(h, now, e, ip) {
        assert IsActive(h, before, e, ip);
        assert ip in Fresh(m[e], now);
      }
      if e in c && ip in c[e] {
        assert e in m && ip in m[e];
      }
    }
  }

  lemma SightRefines(m: IpMap, h: seq<Seen>, line: LogLine, now: int)
    requires Refines(m, h, now) && Counts(line)
    ensures Refines(Sight(m, line, now), h + [Seen(line.email, line.ip, now)], now)
  {
    var m', x := Sight(m, line, now), Seen(line.email, line.ip, now);
    var h' := h + [x];
    assert h'[..|h'| - 1] == h;
    forall e, ip
      ensures Latest(h', e, ip) == if e == line.email && ip == line.ip then Some(now) else Latest(h, e, ip)
    {
    }
    assert line.ip in m'[line.email];
    forall e, ip
      ensures e in m' && ip in m'[e] <==> IsActive(h', now, e, ip)
    {
      assert e in m && ip in m[e] <==> IsActive(h, now, e, ip);
    }
  }

  lemma {:induction false} SightAllRefines(m: IpMap, h: seq<Seen>, lines: seq<LogLine>, now: int)
    requires Refines(m, h, now)
    ensures Refines(SightAll(m, lines, now), h + Sightings(lines, now), now)
    decreases |lines|
  {
    if |lines| == 0 {
      assert h + [] == h;
    } else {
      var rest, x := lines[..|lines| - 1], lines[|lines| - 1];
      SightAllRefines(m, h, rest, now);
      var hr := h + Sightings(rest, now);
      if Counts(x) {
        SightRefines(SightAll(m, rest, now), hr, x, now);
        assert h + Sightings(lines, now) == hr + [Seen(x.email, x.ip, now)];
      } else {
        assert h + Sightings(lines, now) == hr;
      }
    }
  }

  lemma RunRefines(m: IpMap, h: seq<Seen>, before: int, lines: seq<LogLine>, now: int)
    requires Refines(m, h, before) && before <= now
    ensures Refines(AfterRun(m, lines, now), h + Sightings(lines, now), now)
  {
    CleanedRefines(m, h, before, now);
    SightAllRefines(Cleaned(m, now), h, lines, now);
  }

  // ----- all runs -----

  datatype Pass = Pass(lines: seq<LogLine>, now: int)

  function MapAfter(ps: seq<Pass>): IpMap {
    if |ps| == 0 then map[]
    else AfterRun(MapAfter(ps[..|ps| - 1]), ps[|ps| - 1].lines, ps[|ps| - 1].now)
  }

  function HistoryOf(ps: seq<Pass>): seq<Seen> {
    if |ps| == 0 then []
    else HistoryOf(ps[..|ps| - 1]) + Sightings(ps[|ps| - 1].lines, ps[|ps| - 1].now)
  }

  /** After every completed run, with a clock that does not go back, the map refines the history. */
  lemma {:induction false} EveryRunRefines(ps: seq<Pass>, now: int)
    requires forall i, j :: 0 <= i < j < |ps| ==> ps[i].now <= ps[j].now
    requires if |ps| == 0 then true else now == ps[|ps| - 1].now
    ensures Refines(MapAfter(ps), HistoryOf(ps), now)
    decreases |ps|
  {
    if |ps| == 0 {
    } else {
      var h, p := ps[..|ps| - 1], ps[|ps| - 1];
      var before := if |h| == 0 then p.now else h[|h| - 1].now;
      assert |h| > 0 ==> h[|h| - 1] == ps[|ps| - 2];
      EveryRunRefines(h, before);
      RunRefines(MapAfter(h), HistoryOf(h), before, p.lines, p.now);
    }
  }

  // ----- the map by the lines themselves -----

  /** Pass i reads an accepted line with the email and an address that is not the machine's own. */
  predicate SightedAt(ps: seq<Pass>, i: int, email: string, ip: string) {
    && 0 <= i < |ps| && Accepted(email, ip) in ps[i].lines
    && ip != "127.0.0.1" && ip != "::1"
  }

  lemma LineOfSnoc(rest: seq<LogLine>, x: LogLine, line: LogLine)
    ensures line in rest + [x] <==> line in rest || line == x
  {
  }

  lemma {:induction false} LatestOfLines(h: seq<Seen>, lines: seq<LogLine>, now: int, email: string, ip: string)
    ensures Latest(h + Sightings(lines, now), email, ip) ==
            if Accepted(email, ip) in lines && ip != "127.0.0.1" && ip != "::1" then Some(now) else Latest(h, email, ip)
  {
    if |lines| == 0 {
      assert h + [] == h;
    } else {
      var rest, x := lines[..|lines| - 1], lines[|lines| - 1];
      LatestOfLines(h, rest, now, email, ip);
      LineOfSnoc(rest, x, Accepted(email, ip));
      assert lines == rest + [x];
      var hr := h + Sightings(rest, now);
      if Counts(x) {
        var hx := hr + [Seen(x.email, x.ip, now)];
        assert h + Sightings(lines, now) == hx && hx[..|hx| - 1] == hr;
      } else {
        assert h + Sightings(lines, now) == hr;
      }
    }
  }

  lemma {:induction false} LatestOfPasses(ps: seq<Pass>, email: string, ip: string) returns (i: int)
    ensures match Latest(HistoryOf(ps), email, ip)
            case None => forall k :: !SightedAt(ps, k, email, ip)
            case Some(t) => SightedAt(ps, i, email, ip) && t == ps[i].now && forall k :: i < k ==> !SightedAt(ps, k, email, ip)
    decreases |ps|
  {
    i := |ps| - 1;
    if |ps| > 0 {
      var h, p := ps[..|ps| - 1], ps[|ps| - 1];
      LatestOfLines(HistoryOf(h), p.lines, p.now, email, ip);
      assert forall k :: 0 <= k < |h| ==> (SightedAt(ps, k, email, ip) <==> SightedAt(h, k, email, ip));
      if !SightedAt(ps, i, email, ip) {
        i := LatestOfPasses(h, email, ip);
      }
    }
  }

  /**
   After every completed run, with a clock that does not go back: an address is in the map under an email
   exactly when some pass of the last 180000 milliseconds read an accepted line with both, other than the
   machine's own addresses; its time is that of the last such pass; and no email is there without one.
   */
  lemma EntriesAreLines(ps: seq<Pass>, email: string, ip: string)
    requires |ps| > 0 && forall i, j :: 0 <= i < j < |ps| ==> ps[i].now <= ps[j].now
    ensures var (m, now) := (MapAfter(ps), ps[|ps| - 1].now);
            && (email in m && ip in m[email] <==> exists i :: SightedAt(ps, i, email, ip) && now - ps[i].now <= 180000)
            && (email in m && ip in m[email] ==>
                  && (exists i :: SightedAt(ps, i, email, ip) && m[email][ip] == ps[i].now)
                  && (forall i :: SightedAt(ps, i, email, ip) ==> ps[i].now <= m[email][ip]))
            && (email in m ==> m[email] != map[])
  {
    var now := ps[|ps| - 1].now;
    EveryRunRefines(ps, now);
    var i := LatestOfPasses(ps, email, ip);
    EntryIsLatest(ps, email, ip, i, MapAfter(ps), HistoryOf(ps), now);
  }

  lemma EntryIsLatest(ps: seq<Pass>, email: string, ip: string, i: int, m: IpMap, h: seq<Seen>, now: int)
    requires forall i, j :: 0 <= i < j < |ps| ==> ps[i].now <= ps[j].now
    requires Refines(m, h, now)
    requires match Latest(h, email, ip)
             case None => forall k :: !SightedAt(ps, k, email, ip)
             case Some(t) => SightedAt(ps, i, email, ip) && t == ps[i].now && forall k :: i < k ==> !SightedAt(ps, k, email, ip)
    ensures email in m && ip in m[email] <==> exists i :: SightedAt(ps, i, email, ip) && now - ps[i].now <= 180000
    ensures email in m && ip in m[email] ==>
              && (exists i :: SightedAt(ps, i, email, ip) && m[email][ip] == ps[i].now)
              && (forall i :: SightedAt(ps, i, email, ip) ==> ps[i].now <= m[email][ip])
    ensures email in m ==> m[email] != map[]
  {
    forall k | SightedAt(ps, k, email, ip)
      ensures ps[k].now <= ps[i].now
    {
      assert k <= i;
    }
    assert email in m && ip in m[email] <==> IsActive(h, now, email, ip);
  }

  // ----- every line once -----

  function Position(logs: seq<seq<LogLine>>): nat {
    if |logs| == 0 then 0 else NextPosition(logs[|logs| - 1], Position(logs[..|logs| - 1]))
  }

  function AllRead(logs: seq<seq<LogLine>>): seq<LogLine> {
    if |logs| == 0 then []
    else AllRead(logs[..|logs| - 1]) + Unread(logs[|logs| - 1], Position(logs[..|logs| - 1]))
  }

  /** While the log only grows, the runs have read every line of it exactly once. */
  lemma {:induction false} EveryLineOnce(logs: seq<seq<LogLine>>)
    requires |logs| > 0 && forall i, j :: 0 <= i < j < |logs| ==> logs[i] <= logs[j]
    ensures AllRead(logs) == logs[|logs| - 1] && Position(logs) == |logs[|logs| - 1]|
    decreases |logs|
  {
    var h, x := logs[..|logs| - 1], logs[|logs| - 1];
    if |h| > 0 {
      EveryLineOnce(h);
      assert h[|h| - 1] == logs[|logs| - 2] <= x;
      assert x == h[|h| - 1] + x[|h[|h| - 1]|..];
    } else {
      assert [] + x[0..] == x;
    }
  }

  /** A log that was cut off is not read in the run that notices it, and from its start in the next. */
  lemma AfterRotation(log: seq<LogLine>, position: nat, log': seq<LogLine>)
    requires |log| < position
    ensures Unread(log, position) == [] && Unread(log', NextPosition(log, position)) == log'
  {
    assert log'[0..] == log';
  }
}
