/**
 The device limit by what is stored: the marks, the users of the core, the clients' credentials by
 protocol, and the number of addresses, without the notions of the job.
 */
module LimitFields {
  import opened ActiveIps
  import opened DeviceLimit
  import opened Options
  import opened Panel

  function Own(protocol: Protocol, c: Client): string {
    match protocol
    case Trojan => c.password
    case _ => c.id
  }

  predicate Marked(status: map<string, bool>, e: string) {
    e in status && status[e]
  }

  /** More addresses than the inbound's limit allows. */
  predicate TooMany(a: Account, active: IpMap, e: string) {
    a.limit.Some? && (if e in active then |active[e]| else 0) > a.limit.value
  }

  /** The core has the client's own credential. */
  predicate Admits(a: Account, users: map<(string, string), string>, e: string) {
    && a.client.Some? && (a.tag, e) in users
    && users[(a.tag, e)] == Own(a.protocol, a.client.value)
  }

  predicate SameUser(users: map<(string, string), string>, users': map<(string, string), string>, k: (string, string)) {
    (k in users <==> k in users') && (k in users ==> users'[k] == users[k])
  }

  /**
   One email in one pass. Without a limit or a client, or when the mark is in order, nothing changes. Else
   the user is removed and added again: a user that could not be removed stays, and so does the mark; one
   that was removed but could not be added is gone, under the old mark; else it has the random credential
   over the limit, unless its own is empty, and its own within it, and the mark follows the count.
   */
  ghost predicate PassResult(a: Account, active: IpMap, calls: Calls,
                             status: map<string, bool>, users: map<(string, string), string>,
                             status': map<string, bool>, users': map<(string, string), string>, e: string)
  {
    var (k, over) := ((a.tag, e), TooMany(a, active, e));
    if a.limit.None? || a.client.None? || (Marked(status, e) <==> over) || (k in users && calls.removeFails(e)) then
      (Marked(status', e) <==> Marked(status, e)) && SameUser(users, users', k)
    else if calls.addFails(e) then
      (Marked(status', e) <==> Marked(status, e)) && k !in users'
    else
      var own := Own(a.protocol, a.client.value);
      && (Marked(status', e) <==> over)
      && k in users' && users'[k] == if over && own != "" then calls.uuid(e) else own
  }

  lemma PassFields(accounts: map<string, Account>, active: IpMap, calls: Calls,
                   status: map<string, bool>, users: map<(string, string), string>,
                   status': map<string, bool>, users': map<(string, string), string>, e: string)
    requires e in accounts
    ensures EmailStep(accounts, active, calls, status, users, status', users', e) <==>
            PassResult(accounts[e], active, calls, status, users, status', users', e)
  {
  }

  // ----- the steps of a run -----

  /** What an event does to one email, its account, its mark and its user. Limits may change at any event. */
  ghost predicate EventResult(p: Point, ev: Event, p': Point, e: string)
    requires e in p.accounts && e in p'.accounts
  {
    var (a, a', k) := (p.accounts[e], p'.accounts[e], (p.accounts[e].tag, e));
    && a'.tag == a.tag && a'.protocol == a.protocol
    && (!ev.Check? ==> (Marked(p'.status, e) <==> Marked(p.status, e)))
    && match ev
       case Check(active, calls) =>
         && a'.client == a.client && a'.enabled == a.enabled
         && (a.client.Some? ==> calls.uuid(e) != Own(a.protocol, a.client.value))
         && PassResult(a, active, calls, p.status, p.users, p'.status, p'.users, e)
       case Reload(entries) =>
         if e in entries then
           && a'.client == Some(entries[e].client) && a'.enabled == entries[e].enabled
           && k in p'.users && p'.users[k] == Own(a.protocol, entries[e].client)
         else a'.client == a.client && a'.enabled == a.enabled && SameUser(p.users, p'.users, k)
       case Remove(emails, disable, fails) =>
         && a'.client == a.client && a'.enabled == (a.enabled && !(e in emails && disable))
         && if e in emails && !fails(e) then k !in p'.users else SameUser(p.users, p'.users, k)
       case Restart =>
         && a'.client == a.client && a'.enabled == a.enabled
         && (k in p'.users <==> a.enabled && a.client.Some?)
         && (k in p'.users ==> p'.users[k] == Own(a.protocol, a.client.value))
  }

  lemma EventFields(p: Point, ev: Event, p': Point, e: string)
    requires e in p.accounts && e in p'.accounts
    ensures EmailEvent(p, ev, p', e) <==> EventResult(p, ev, p', e)
  {
    if ev.Check? && p'.accounts[e].tag == p.accounts[e].tag {
      PassFields(p.accounts, ev.active, ev.calls, p.status, p.users, p'.status, p'.users, e);
      CheckIsPass(p, ev, p', e);
    }
  }

  lemma CheckIsPass(p: Point, ev: Event, p': Point, e: string)
    requires e in p.accounts && e in p'.accounts && ev.Check? && p'.accounts[e].tag == p.accounts[e].tag
    ensures EmailStep(p.accounts, ev.active, ev.calls, p.status, p.users, p'.status, p'.users, e) <==>
            At(p', e) == StateAfter(p.accounts[e], At(p, e), ev, e)
  {
  }

  // ----- the three properties and what breaks them -----

  /** In the core with its own credential exactly when it is enabled and not marked. */
  ghost predicate InOrder(p: Point, e: string) {
    e in p.accounts &&
    (p.accounts[e].client.Some? ==> (Admits(p.accounts[e], p.users, e) <==> p.accounts[e].enabled && !Marked(p.status, e)))
  }

  lemma PropertiesFields(p: Point, e: string)
    requires e in p.accounts
    ensures var (admits, marked) := (Admits(p.accounts[e], p.users, e), Marked(p.status, e));
            && (SafeAt(p, e) <==> !(marked && admits))
            && (ServedAt(p, e) <==> (p.accounts[e].enabled && p.accounts[e].client.Some? && !marked ==> admits))
            && (BarredAt(p, e) <==> (!p.accounts[e].enabled ==> !admits))
            && (RightAt(p, e) <==> InOrder(p, e))
  {
  }

  /**
   The events that break one of the three: bans of an empty credential; bans of enabled users that are
   removed but not added; unbans of disabled ones; reloads of marked or disabled users; removals of
   enabled users that do not disable them, and failing removals that do; restarts with marked ones.
   */
  ghost predicate Breaking(p: Point, ev: Event, e: string) {
    e in p.accounts &&
    var (a, k, marked) := (p.accounts[e], (p.accounts[e].tag, e), Marked(p.status, e));
    match ev
    case Check(active, calls) =>
      var added := !calls.addFails(e) && (k !in p.users || !calls.removeFails(e));
      && a.client.Some?
      && if TooMany(a, active, e) then
           !marked && ((added && Own(a.protocol, a.client.value) == "") || (a.enabled && !calls.removeFails(e) && calls.addFails(e)))
         else a.limit.Some? && marked && added && !a.enabled
    case Reload(entries) => e in entries && (marked || !entries[e].enabled)
    case Remove(emails, disable, fails) =>
      && e in emails
      && if fails(e) then disable && Admits(a, p.users, e)
         else a.enabled && a.client.Some? && !marked && !disable
    case Restart => marked && a.enabled && a.client.Some?
  }

  lemma BreakingIff(p: Point, ev: Event, e: string)
    requires e in p.accounts
    ensures Breaking(p, ev, e) <==> BreaksAt(p, ev, e)
  {
  }

  /**
   The device limit at work, by what is stored: from a start in order, in a run without a breaking event up
   to a pass whose calls for the email succeed, a user on a limited inbound is in the core with its own
   credential if and only if it is enabled and has no more addresses than the limit, and it is marked if
   and only if it has more.
   */
  lemma RunEnforcesFields(events: seq<Event>, points: seq<Point>, n: nat, e: string)
    requires IsRun(events, points) && InOrder(points[0], e) && n < |events|
    requires forall i :: 0 <= i <= n ==> !Breaking(points[i], events[i], e)
    requires events[n].Check? && !events[n].calls.removeFails(e) && !events[n].calls.addFails(e)
    requires e in points[n].accounts && points[n].accounts[e].limit.Some? && points[n].accounts[e].client.Some?
    ensures e in points[n + 1].accounts
    ensures var (a, active, p) := (points[n].accounts[e], events[n].active, points[n + 1]);
            var addresses := if e in active then |active[e]| else 0;
            && (Admits(p.accounts[e], p.users, e) <==> a.enabled && addresses <= a.limit.value)
            && (Marked(p.status, e) <==> addresses > a.limit.value)
  {
    forall i | 0 <= i <= n
      ensures !BreaksAt(points[i], events[i], e)
    {
      if e in points[i].accounts {
        BreakingIff(points[i], events[i], e);
      }
    }
    PropertiesFields(points[0], e);
    RunEnforces(events, points, n, e);
  }

  /**
   From the log to the mark: after the log reader's runs and a pass whose calls for the email succeed, the
   email is marked if and only if accepted lines of the last 180000 milliseconds name more addresses of it,
   other than the machine's own, than the limit allows.
   */
  lemma MarkFollowsLines(ps: seq<Pass>, addresses: set<string>, p: Point, calls: Calls, p': Point, e: string)
    requires |ps| > 0 && forall i, j :: 0 <= i < j < |ps| ==> ps[i].now <= ps[j].now
    requires forall ip :: ip in addresses <==> exists i :: SightedAt(ps, i, e, ip) && ps[|ps| - 1].now - ps[i].now <= 180000
    requires e in p.accounts && e in p'.accounts && EmailEvent(p, Check(MapAfter(ps), calls), p', e)
    requires !calls.removeFails(e) && !calls.addFails(e)
    requires p.accounts[e].limit.Some? && p.accounts[e].client.Some?
    ensures Marked(p'.status, e) <==> |addresses| > p.accounts[e].limit.value
  {
    var m := MapAfter(ps);
    forall ip
      ensures ip in addresses <==> e in m && ip in m[e]
    {
      EntriesAreLines(ps, e, ip);
    }
    if e in m {
      assert addresses == m[e].Keys;
    } else {
      assert addresses == {};
    }
    PassDecides(p.accounts[e], CountOf(m, e), calls.uuid(e), At(p, e));
  }
}
