/**
 The device limit: `checkAllClientsLimit` bans an email with too many active addresses by giving the
 core another credential for it, and unbans it by giving the original back. Every call to the core
 may fail.
 */
module DeviceLimit {
  import opened ActiveIps
  import opened Options
  import opened Panel

  /**
   What the database says of an email: its inbound's tag, protocol and limit, its client, and whether
   the client is enabled in the settings and in the ledger, which the job does not ask.
   */
  datatype Account = Account(tag: string, protocol: Protocol, limit: Option<int>, client: Option<Client>, enabled: bool)

  /** What the core checks: the id of vmess and vless users, the password of trojan users. */
  function Credential(protocol: Protocol, c: Client): string {
    if protocol == Trojan then c.password else c.id
  }

  /** The three protocols whose users the API call carries; only positive limits are loaded. */
  ghost predicate Supported(accounts: map<string, Account>) {
    forall e :: e in accounts ==>
      var a := accounts[e];
      && (a.protocol == VMESS || a.protocol == VLESS || a.protocol == Trojan)
      && (a.client.Some? ==> a.client.value.email == e)
      && (a.limit.Some? ==> a.limit.value > 0)
  }

  function Original(a: Account): string
    requires a.client.Some?
  {
    Credential(a.protocol, a.client.value)
  }

  /** What a ban puts in place of the original: an empty credential stays empty. */
  function Substitute(a: Account, uuid: string): string
    requires a.client.Some?
  {
    if Original(a) == "" then "" else uuid
  }

  /** What comes from outside: the random credentials, and which emails' calls fail. */
  datatype Calls = Calls(uuid: string -> string, removeFails: string -> bool, addFails: string -> bool)

  // ----- the core -----

  /** The users of the running core, by inbound tag and email, with their credentials. */
  class XrayCore {
    var users: map<(string, string), string>

    constructor ()
    {
      users := map[];
    }

    /** That the user is missing is no failure here: there is nothing left to remove. */
    method RemoveUser(tag: string, email: string, fails: bool)
      modifies this
      ensures users == if fails then old(users) else old(users) - {(tag, email)}
    {
      if !fails {
        users := users - {(tag, email)};
      }
    }

    /** The core refuses an email that is present already. */
    method AddUser(tag: string, email: string, credential: string, fails: bool) returns (ok: bool)
      modifies this
      ensures ok == (!fails && (tag, email) !in old(users))
      ensures users == if ok then old(users)[(tag, email) := credential] else old(users)
    {
      ok := !fails && (tag, email) !in users;
      if ok {
        users := users[(tag, email) := credential];
      }
    }
  }

  // ----- what a pass does to one email -----

  datatype UserState = UserState(banned: bool, credential: Option<string>)

  function StateOf(status: map<string, bool>, users: map<(string, string), string>, tag: string, email: string): UserState {
    UserState(email in status && status[email],
              if (tag, email) in users then Some(users[(tag, email)]) else None)
  }

  /** The core has the client as the database has it. */
  predicate HoldsOriginal(a: Account, u: UserState) {
    a.client.Some? && u.credential == Some(Original(a))
  }

  /** Removing and adding a user both have their effect. */
  predicate Completes(u: UserState, removeFails: bool, addFails: bool) {
    !addFails && (!removeFails || u.credential.None?)
  }

  /** Remove the user, then add it with a credential; the mark changes only when the user is added. */
  function Swapped(u: UserState, credential: string, banned: bool, removeFails: bool, addFails: bool): UserState {
    if Completes(u, removeFails, addFails) then UserState(banned, Some(credential))
    else if removeFails then u
    else u.(credential := None)
  }

  predicate IsOver(a: Account, count: nat) {
    a.limit.Some? && count > a.limit.value
  }

  function EmailPass(a: Account, count: nat, uuid: string, u: UserState, removeFails: bool, addFails: bool): UserState {
    if a.limit.None? || a.client.None? then u
    else if IsOver(a, count) && !u.banned then Swapped(u, Substitute(a, uuid), true, removeFails, addFails)
    else if !IsOver(a, count) && u.banned then Swapped(u, Original(a), false, removeFails, addFails)
    else u
  }

  function CountOf(active: IpMap, email: string): nat {
    if email in active then |active[email]| else 0
  }

  /** One email's step between two states of the marks and the core. */
  ghost predicate EmailStep(accounts: map<string, Account>, active: IpMap, calls: Calls,
                            status: map<string, bool>, users: map<(string, string), string>,
                            status': map<string, bool>, users': map<(string, string), string>, e: string)
    requires e in accounts
  {
    StateOf(status', users', accounts[e].tag, e) ==
    EmailPass(accounts[e], CountOf(active, e), calls.uuid(e), StateOf(status, users, accounts[e].tag, e),
              calls.removeFails(e), calls.addFails(e))
  }

  /** Only the marks and the users of one email have changed. */
  ghost predicate OnlyEmail(email: string, status: map<string, bool>, users: map<(string, string), string>,
                            status': map<string, bool>, users': map<(string, string), string>)
  {
    forall e, tag :: e != email ==> StateOf(status', users', tag, e) == StateOf(status, users, tag, e)
  }

  ghost predicate SameState(accounts: map<string, Account>,
                            status: map<string, bool>, users: map<(string, string), string>,
                            status': map<string, bool>, users': map<(string, string), string>, e: string)
    requires e in accounts
  {
    StateOf(status', users', accounts[e].tag, e) == StateOf(status, users, accounts[e].tag, e)
  }

  /** A whole pass: every known email makes its own step. */
  ghost predicate WholePass(accounts: map<string, Account>, active: IpMap, calls: Calls,
                            status: map<string, bool>, users: map<(string, string), string>,
                            status': map<string, bool>, users': map<(string, string), string>)
  {
    forall e :: e in accounts ==> EmailStep(accounts, active, calls, status, users, status', users', e)
  }

  class CheckDeviceLimitJob {
    var clientStatus: map<string, bool>
    const core: XrayCore

    constructor (core: XrayCore)
      ensures this.core == core && clientStatus == map[]
    {
      this.core := core;
      clientStatus := map[];
    }

    function State(tag: string, email: string): UserState
      reads this, core
    {
      StateOf(clientStatus, core.users, tag, email)
    }

    method BanUser(email: string, a: Account, calls: Calls)
      requires a.client.Some? && a.client.value.email == email
      modifies this, core
      ensures State(a.tag, email) ==
              Swapped(old(State(a.tag, email)), Substitute(a, calls.uuid(email)), true,
                      calls.removeFails(email), calls.addFails(email))
      ensures OnlyEmail(email, old(clientStatus), old(core.users), clientStatus, core.users)
    {
      var client := a.client.value;
      core.RemoveUser(a.tag, email, calls.removeFails(email));
      var tempClient := client;
      if tempClient.id != "" {
        tempClient := tempClient.(id := calls.uuid(email));
      }
      if tempClient.password != "" {
        tempClient := tempClient.(password := calls.uuid(email));
      }
      var ok := core.AddUser(a.tag, tempClient.email, Credential(a.protocol, tempClient), calls.addFails(email));
      if ok {
        clientStatus := clientStatus[email := true];
      }
    }

    method UnbanUser(email: string, a: Account, calls: Calls)
      requires a.client.Some? && a.client.value.email == email
      modifies this, core
      ensures State(a.tag, email) ==
              Swapped(old(State(a.tag, email)), Original(a), false, calls.removeFails(email), calls.addFails(email))
      ensures OnlyEmail(email, old(clientStatus), old(core.users), clientStatus, core.users)
    {
      var client := a.client.value;
      core.RemoveUser(a.tag, email, calls.removeFails(email));
      var ok := core.AddUser(a.tag, client.email, Credential(a.protocol, client), calls.addFails(email));
      if ok {
        clientStatus := clientStatus - {email};
      }
    }

    /** One online email. */
    method CheckOne(email: string, accounts: map<string, Account>, active: IpMap, calls: Calls)
      requires Supported(accounts) && email in active
      modifies this, core
      ensures email in accounts ==>
                EmailStep(accounts, active, calls, old(clientStatus), old(core.users), clientStatus, core.users, email)
      ensures OnlyEmail(email, old(clientStatus), old(core.users), clientStatus, core.users)
    {
      if email !in accounts || accounts[email].limit.None? || accounts[email].limit.value <= 0 {
        return;
      }
      var a := accounts[email];
      if a.client.None? {
        return;
      }
      var isBanned := email in clientStatus && clientStatus[email];
      var activeIPCount := |active[email]|;
      if activeIPCount > a.limit.value && !isBanned {
        BanUser(email, a, calls);
      }
      if activeIPCount <= a.limit.value && isBanned {
        UnbanUser(email, a, calls);
      }
    }

    /** First step: the emails that are online. */
    method CheckOnline(accounts: map<string, Account>, active: IpMap, calls: Calls)
      requires Supported(accounts)
      modifies this, core
      ensures forall e :: e in accounts && e in active ==>
                EmailStep(accounts, active, calls, old(clientStatus), old(core.users), clientStatus, core.users, e)
      ensures forall e :: e in accounts && e !in active ==>
                SameState(accounts, old(clientStatus), old(core.users), clientStatus, core.users, e)
    {
      var rest := active.Keys;
      while exists e :: e in rest
        invariant rest <= active.Keys
        invariant forall e :: e in accounts && e in active && e !in rest ==>
                    EmailStep(accounts, active, calls, old(clientStatus), old(core.users), clientStatus, core.users, e)
        invariant forall e :: e in accounts && (e !in active || e in rest) ==>
                    SameState(accounts, old(clientStatus), old(core.users), clientStatus, core.users, e)
        decreases rest
      {
        var email :| email in rest;
        CheckOne(email, accounts, active, calls);
        rest := rest - {email};
      }
    }

    /** One email with a mark. */
    method CheckMarked(email: string, accounts: map<string, Account>, active: IpMap, calls: Calls)
      requires Supported(accounts)
      modifies this, core
      ensures email in accounts && email !in active ==>
                EmailStep(accounts, active, calls, old(clientStatus), old(core.users), clientStatus, core.users, email)
      ensures email in accounts && email in active ==>
                SameState(accounts, old(clientStatus), old(core.users), clientStatus, core.users, email)
      ensures OnlyEmail(email, old(clientStatus), old(core.users), clientStatus, core.users)
    {
      var isBanned := email in clientStatus && clientStatus[email];
      if isBanned && email !in active && email in accounts {
        var a := accounts[email];
        if a.limit.Some? && a.client.Some? {
          UnbanUser(email, a, calls);
        }
      }
    }

    /** Second step: banned emails that are no longer online. */
    method CheckOffline(accounts: map<string, Account>, active: IpMap, calls: Calls)
      requires Supported(accounts)
      modifies this, core
      ensures forall e :: e in accounts && e !in active ==>
                EmailStep(accounts, active, calls, old(clientStatus), old(core.users), clientStatus, core.users, e)
      ensures forall e :: e in accounts && e in active ==>
                SameState(accounts, old(clientStatus), old(core.users), clientStatus, core.users, e)
    {
      var rest := clientStatus.Keys;
      while exists e :: e in rest
        invariant rest <= old(clientStatus).Keys
        invariant forall e :: e in accounts && e !in active && e !in rest ==>
                    EmailStep(accounts, active, calls, old(clientStatus), old(core.users), clientStatus, core.users, e)
        invariant forall e :: e in accounts && (e in active || e in rest) ==>
                    SameState(accounts, old(clientStatus), old(core.users), clientStatus, core.users, e)
        decreases rest
      {
        var email :| email in rest;
        CheckMarked(email, accounts, active, calls);
        rest := rest - {email};
      }
    }

    /** The pass of `checkAllClientsLimit`; without the port of the API nothing happens. */
    method CheckAllClientsLimit(accounts: map<string, Account>, active: IpMap, apiPort: int, calls: Calls)
      requires Supported(accounts)
      modifies this, core
      ensures apiPort != 0 ==>
                WholePass(accounts, active, calls, old(clientStatus), old(core.users), clientStatus, core.users)
      ensures apiPort == 0 ==> clientStatus == old(clientStatus) && core.users == old(core.users)
    {
      if apiPort == 0 {
        return;
      }
      CheckOnline(accounts, active, calls);
      ghost var status, users := clientStatus, core.users;
      CheckOffline(accounts, active, calls);
      forall e | e in accounts
        ensures EmailStep(accounts, active, calls, old(clientStatus), old(core.users), clientStatus, core.users, e)
      {
        assert SameState(accounts, old(clientStatus), old(core.users), status, users, e) ||
               SameState(accounts, status, users, clientStatus, core.users, e);
      }
    }
  }

  // ----- what should hold of an email -----

  /** A banned email never has its original credential in the core. */
  ghost predicate Safe(a: Account, u: UserState) {
    u.banned ==> !HoldsOriginal(a, u)
  }

  /** An enabled client that is not marked has its original credential in the core. */
  ghost predicate Served(a: Account, u: UserState) {
    a.enabled && a.client.Some? && !u.banned ==> HoldsOriginal(a, u)
  }

  /** A disabled client never has its original credential in the core. */
  ghost predicate Barred(a: Account, u: UserState) {
    !a.enabled ==> !HoldsOriginal(a, u)
  }

  /**
   After a pass whose calls for the email succeed: the mark is set exactly over the limit. Within it the
   core has the original exactly when the user was marked, or had it before; over it exactly when a
   marked user already had it, or the credential of an unmarked one is empty.
   */
  lemma PassDecides(a: Account, count: nat, uuid: string, u: UserState)
    requires a.limit.Some? && a.client.Some? && uuid != Original(a)
    ensures var u' := EmailPass(a, count, uuid, u, false, false);
            && (u'.banned <==> IsOver(a, count))
            && (HoldsOriginal(a, u') <==>
                if IsOver(a, count) then (if u.banned then HoldsOriginal(a, u) else Original(a) == "")
                else u.banned || HoldsOriginal(a, u))
  {
  }

  // ----- runs of passes and of what else touches the core -----

  /** The accounts in force, the marks and the users of the core. */
  datatype Point = Point(accounts: map<string, Account>, status: map<string, bool>, users: map<(string, string), string>)

  datatype Entry = Entry(client: Client, enabled: bool)

  /**
   A pass; clients that are put into the core, as the database has them by then, whether enabled or not;
   clients that are removed from the core, which disables them or not, as far as the calls succeed; and
   a restart, which loads exactly the enabled clients.
   */
  datatype Event =
    | Check(active: IpMap, calls: Calls)
    | Reload(entries: map<string, Entry>)
    | Remove(emails: set<string>, disable: bool, fails: string -> bool)
    | Restart

  function AccountAfter(a: Account, ev: Event, e: string): Account {
    match ev
    case Check(_, _) => a
    case Reload(entries) => if e in entries then a.(client := Some(entries[e].client), enabled := entries[e].enabled) else a
    case Remove(emails, disable, _) => if e in emails && disable then a.(enabled := false) else a
    case Restart => a
  }

  function StateAfter(a: Account, u: UserState, ev: Event, e: string): UserState {
    match ev
    case Check(active, calls) =>
      EmailPass(a, CountOf(active, e), calls.uuid(e), u, calls.removeFails(e), calls.addFails(e))
    case Reload(entries) => if e in entries then u.(credential := Some(Credential(a.protocol, entries[e].client))) else u
    case Remove(emails, _, fails) => if e in emails && !fails(e) then u.(credential := None) else u
    case Restart => u.(credential := if a.enabled && a.client.Some? then Some(Original(a)) else None)
  }

  ghost function At(p: Point, e: string): UserState
    requires e in p.accounts
  {
    StateOf(p.status, p.users, p.accounts[e].tag, e)
  }

  /** One email at one event. Limits may change; random credentials differ from the originals. */
  ghost predicate EmailEvent(p: Point, ev: Event, p': Point, e: string)
    requires e in p.accounts && e in p'.accounts
  {
    var a := p.accounts[e];
    && p'.accounts[e] == AccountAfter(a, ev, e).(limit := p'.accounts[e].limit)
    && At(p', e) == StateAfter(a, At(p, e), ev, e)
    && (ev.Check? && a.client.Some? ==> ev.calls.uuid(e) != Original(a))
  }

  ghost predicate Step(p: Point, ev: Event, p': Point) {
    p'.accounts.Keys == p.accounts.Keys && forall e :: e in p.accounts ==> EmailEvent(p, ev, p', e)
  }

  /** The pass of the method is a step of a run. */
  lemma PassIsStep(accounts: map<string, Account>, active: IpMap, calls: Calls,
                   status: map<string, bool>, users: map<(string, string), string>,
                   status': map<string, bool>, users': map<(string, string), string>)
    requires WholePass(accounts, active, calls, status, users, status', users')
    requires forall e :: e in accounts && accounts[e].client.Some? ==> calls.uuid(e) != Original(accounts[e])
    ensures Step(Point(accounts, status, users), Check(active, calls), Point(accounts, status', users'))
  {
    forall e | e in accounts
      ensures EmailEvent(Point(accounts, status, users), Check(active, calls), Point(accounts, status', users'), e)
    {
      assert EmailStep(accounts, active, calls, status, users, status', users', e);
    }
  }

  ghost predicate IsRun(events: seq<Event>, points: seq<Point>) {
    |points| == |events| + 1 && forall i :: 0 <= i < |events| ==> Step(points[i], events[i], points[i + 1])
  }

  lemma {:induction false} RunKeepsEmails(events: seq<Event>, points: seq<Point>, n: nat, e: string)
    requires IsRun(events, points) && n <= |events| && e in points[0].accounts
    ensures e in points[n].accounts
  {
    if n == 0 {
    } else {
      RunKeepsEmails(events, points, n - 1, e);
      assert Step(points[n - 1], events[n - 1], points[n]);
    }
  }

  /** The step of one email at event i of a run. */
  lemma RunStep(events: seq<Event>, points: seq<Point>, i: nat, e: string)
    requires IsRun(events, points) && i < |events| && e in points[0].accounts
    ensures e in points[i].accounts && e in points[i + 1].accounts
    ensures EmailEvent(points[i], events[i], points[i + 1], e)
  {
    RunKeepsEmails(events, points, i, e);
    assert Step(points[i], events[i], points[i + 1]);
  }

  // ----- which events break what -----

  /**
   What lets a marked user in: a ban that completes but puts the empty credential back, a reload of a
   marked user, or a restart.
   */
  predicate LetsIn(a: Account, u: UserState, ev: Event, e: string) {
    match ev
    case Check(active, calls) =>
      && a.client.Some? && IsOver(a, CountOf(active, e)) && !u.banned && Original(a) == ""
      && Completes(u, calls.removeFails(e), calls.addFails(e))
    case Reload(entries) => e in entries && u.banned
    case Remove(_, _, _) => false
    case Restart => u.banned && a.enabled && a.client.Some?
  }

  /** What locks an enabled user out: a ban whose second call alone fails, or a removal that does not disable it. */
  predicate LocksOut(a: Account, u: UserState, ev: Event, e: string) {
    a.enabled && a.client.Some? && !u.banned &&
    match ev
    case Check(active, calls) => IsOver(a, CountOf(active, e)) && !calls.removeFails(e) && calls.addFails(e)
    case Reload(_) => false
    case Remove(emails, disable, fails) => e in emails && !disable && !fails(e)
    case Restart => false
  }

  /**
   What gives a disabled client its access: an unban within the limit, or a ban of an empty credential,
   that completes; a reload that does not mind; or disabling whose removal fails.
   */
  predicate Readmits(a: Account, u: UserState, ev: Event, e: string) {
    match ev
    case Check(active, calls) =>
      && !a.enabled && a.client.Some? && a.limit.Some? && Completes(u, calls.removeFails(e), calls.addFails(e))
      && if IsOver(a, CountOf(active, e)) then !u.banned && Original(a) == "" else u.banned
    case Reload(entries) => e in entries && !entries[e].enabled
    case Remove(emails, disable, fails) => e in emails && disable && fails(e) && HoldsOriginal(a, u)
    case Restart => false
  }

  ghost predicate SafeAt(p: Point, e: string) {
    e in p.accounts && Safe(p.accounts[e], At(p, e))
  }

  ghost predicate ServedAt(p: Point, e: string) {
    e in p.accounts && Served(p.accounts[e], At(p, e))
  }

  ghost predicate BarredAt(p: Point, e: string) {
    e in p.accounts && Barred(p.accounts[e], At(p, e))
  }

  ghost predicate LetsInAt(p: Point, ev: Event, e: string) {
    e in p.accounts && LetsIn(p.accounts[e], At(p, e), ev, e)
  }

  ghost predicate LocksOutAt(p: Point, ev: Event, e: string) {
    e in p.accounts && LocksOut(p.accounts[e], At(p, e), ev, e)
  }

  ghost predicate ReadmitsAt(p: Point, ev: Event, e: string) {
    e in p.accounts && Readmits(p.accounts[e], At(p, e), ev, e)
  }

  lemma StepSafe(p: Point, ev: Event, p': Point, e: string)
    requires e in p.accounts && e in p'.accounts && EmailEvent(p, ev, p', e) && SafeAt(p, e)
    ensures SafeAt(p', e) <==> !LetsInAt(p, ev, e)
  {
  }

  lemma StepServes(p: Point, ev: Event, p': Point, e: string)
    requires e in p.accounts && e in p'.accounts && EmailEvent(p, ev, p', e) && ServedAt(p, e)
    ensures ServedAt(p', e) <==> !LocksOutAt(p, ev, e)
  {
  }

  lemma StepBars(p: Point, ev: Event, p': Point, e: string)
    requires e in p.accounts && e in p'.accounts && EmailEvent(p, ev, p', e) && BarredAt(p, e)
    ensures BarredAt(p', e) <==> !ReadmitsAt(p, ev, e)
  {
  }

  // ----- over whole runs -----

  /** A property that exactly the bad events end holds at a point that no bad event precedes. */
  lemma {:induction false} KeptWithoutBad(points: seq<Point>, n: nat, good: Point -> bool, bad: int -> bool)
    requires n < |points| && good(points[0])
    requires forall i :: 0 <= i < n && good(points[i]) ==> (good(points[i + 1]) <==> !bad(i))
    requires forall i :: 0 <= i < n ==> !bad(i)
    ensures good(points[n])
  {
    if n == 0 {
    } else {
      KeptWithoutBad(points, n - 1, good, bad);
      assert !bad(n - 1) && good(points[n - 1 + 1]);
    }
  }

  /** It holds at every point if and only if there is no bad event. */
  lemma KeptIff(points: seq<Point>, good: Point -> bool, bad: int -> bool)
    requires |points| > 0 && good(points[0])
    requires forall i :: 0 <= i < |points| - 1 && good(points[i]) ==> (good(points[i + 1]) <==> !bad(i))
    ensures (forall n :: 0 <= n < |points| ==> good(points[n])) <==> (forall i :: 0 <= i < |points| - 1 ==> !bad(i))
  {
    if forall i :: 0 <= i < |points| - 1 ==> !bad(i) {
      forall n | 0 <= n < |points|
        ensures good(points[n])
      {
        KeptWithoutBad(points, n, good, bad);
      }
    } else {
      var i :| 0 <= i < |points| - 1 && bad(i);
      assert good(points[i]) ==> !good(points[i + 1]);
    }
  }

  /**
   Over every run, with any calls failing: a marked user never has its original credential in the core,
   if and only if no reload or restart hits a marked user and no empty credential is banned.
   */
  lemma RunIsSafeIff(events: seq<Event>, points: seq<Point>, e: string)
    requires IsRun(events, points) && SafeAt(points[0], e)
    ensures (forall n :: 0 <= n <= |events| ==> SafeAt(points[n], e)) <==>
            (forall i :: 0 <= i < |events| ==> !LetsInAt(points[i], events[i], e))
  {
    var good, bad := (p: Point) => SafeAt(p, e), (i: int) => 0 <= i < |events| && LetsInAt(points[i], events[i], e);
    forall i | 0 <= i < |points| - 1 && good(points[i])
      ensures good(points[i + 1]) <==> !bad(i)
    {
      RunStep(events, points, i, e);
      StepSafe(points[i], events[i], points[i + 1], e);
    }
    KeptIff(points, good, bad);
    assert forall n :: 0 <= n <= |events| ==> (good(points[n]) <==> SafeAt(points[n], e));
    assert forall i :: 0 <= i < |events| ==> (bad(i) <==> LetsInAt(points[i], events[i], e));
  }

  /**
   Over every run: an enabled user that is not marked always has its original credential in the core, if
   and only if no ban fails with its second call alone and nothing removes a user without disabling it.
   */
  lemma RunServesIff(events: seq<Event>, points: seq<Point>, e: string)
    requires IsRun(events, points) && ServedAt(points[0], e)
    ensures (forall n :: 0 <= n <= |events| ==> ServedAt(points[n], e)) <==>
            (forall i :: 0 <= i < |events| ==> !LocksOutAt(points[i], events[i], e))
  {
    var good, bad := (p: Point) => ServedAt(p, e), (i: int) => 0 <= i < |events| && LocksOutAt(points[i], events[i], e);
    forall i | 0 <= i < |points| - 1 && good(points[i])
      ensures good(points[i + 1]) <==> !bad(i)
    {
      RunStep(events, points, i, e);
      StepServes(points[i], events[i], points[i + 1], e);
    }
    KeptIff(points, good, bad);
    assert forall n :: 0 <= n <= |events| ==> (good(points[n]) <==> ServedAt(points[n], e));
    assert forall i :: 0 <= i < |events| ==> (bad(i) <==> LocksOutAt(points[i], events[i], e));
  }

  /** Over every run: a disabled client stays out of the core if and only if no event readmits it. */
  lemma RunBarsIff(events: seq<Event>, points: seq<Point>, e: string)
    requires IsRun(events, points) && BarredAt(points[0], e)
    ensures (forall n :: 0 <= n <= |events| ==> BarredAt(points[n], e)) <==>
            (forall i :: 0 <= i < |events| ==> !ReadmitsAt(points[i], events[i], e))
  {
    var good, bad := (p: Point) => BarredAt(p, e), (i: int) => 0 <= i < |events| && ReadmitsAt(points[i], events[i], e);
    forall i | 0 <= i < |points| - 1 && good(points[i])
      ensures good(points[i + 1]) <==> !bad(i)
    {
      RunStep(events, points, i, e);
      StepBars(points[i], events[i], points[i + 1], e);
    }
    KeptIff(points, good, bad);
    assert forall n :: 0 <= n <= |events| ==> (good(points[n]) <==> BarredAt(points[n], e));
    assert forall i :: 0 <= i < |events| ==> (bad(i) <==> ReadmitsAt(points[i], events[i], e));
  }

  /** The part of a run up to event n is a run. */
  lemma RunPrefix(events: seq<Event>, points: seq<Point>, n: nat)
    requires IsRun(events, points) && n <= |events|
    ensures IsRun(events[..n], points[..n + 1])
  {
    forall i | 0 <= i < n
      ensures Step(points[..n + 1][i], events[..n][i], points[..n + 1][i + 1])
    {
      assert Step(points[i], events[i], points[i + 1]);
    }
  }

  /** Everything is as it should be: the core has the original exactly of enabled clients that are not marked. */
  ghost predicate RightAt(p: Point, e: string) {
    SafeAt(p, e) && ServedAt(p, e) && BarredAt(p, e)
  }

  ghost predicate BreaksAt(p: Point, ev: Event, e: string) {
    LetsInAt(p, ev, e) || LocksOutAt(p, ev, e) || ReadmitsAt(p, ev, e)
  }

  lemma RightPoint(p: Point, e: string)
    requires e in p.accounts && p.accounts[e].client.Some?
    ensures RightAt(p, e) <==> (HoldsOriginal(p.accounts[e], At(p, e)) <==> p.accounts[e].enabled && !At(p, e).banned)
  {
  }

  lemma RunIsRight(events: seq<Event>, points: seq<Point>, e: string)
    requires IsRun(events, points) && RightAt(points[0], e)
    requires forall i :: 0 <= i < |events| ==> !BreaksAt(points[i], events[i], e)
    ensures forall n :: 0 <= n <= |events| ==> RightAt(points[n], e)
  {
    RunIsSafeIff(events, points, e);
    RunServesIff(events, points, e);
    RunBarsIff(events, points, e);
    assert forall i :: 0 <= i < |events| ==> !BreaksAt(points[i], events[i], e);
  }

  /**
   The device limit at work: from a right start, in a run without such an event up to a pass whose calls
   for the email succeed, a user on a limited inbound has its original credential in the core after the
   pass if and only if it is enabled and within its limit, offline users included; and the mark is
   set exactly over the limit.
   */
  lemma RunEnforces(events: seq<Event>, points: seq<Point>, n: nat, e: string)
    requires IsRun(events, points) && RightAt(points[0], e) && n < |events|
    requires forall i :: 0 <= i <= n ==> !BreaksAt(points[i], events[i], e)
    requires events[n].Check? && !events[n].calls.removeFails(e) && !events[n].calls.addFails(e)
    requires e in points[n].accounts && points[n].accounts[e].limit.Some? && points[n].accounts[e].client.Some?
    ensures e in points[n + 1].accounts
    ensures var over := IsOver(points[n].accounts[e], CountOf(events[n].active, e));
            && (HoldsOriginal(points[n + 1].accounts[e], At(points[n + 1], e)) <==> points[n].accounts[e].enabled && !over)
            && (At(points[n + 1], e).banned <==> over)
  {
    var es, ps := events[..n + 1], points[..n + 2];
    RunPrefix(events, points, n + 1);
    forall i | 0 <= i < |es|
      ensures !BreaksAt(ps[i], es[i], e)
    {
      assert !BreaksAt(points[i], events[i], e);
    }
    RunIsRight(es, ps, e);
    RunStep(events, points, n, e);
    assert ps[n + 1] == points[n + 1] && RightAt(ps[n + 1], e);
    RightPoint(points[n + 1], e);
    PassDecides(points[n].accounts[e], CountOf(events[n].active, e), events[n].calls.uuid(e), At(points[n], e));
  }

  /**
   After a pass whose calls for the email succeed, at any point of any run: the mark is set exactly over
   the limit, and the core has the original as `PassDecides` says.
   */
  lemma RunDecides(events: seq<Event>, points: seq<Point>, n: nat, e: string)
    requires IsRun(events, points) && n < |events| && e in points[0].accounts && e in points[n].accounts
    requires events[n].Check? && !events[n].calls.removeFails(e) && !events[n].calls.addFails(e)
    requires points[n].accounts[e].limit.Some? && points[n].accounts[e].client.Some?
    ensures e in points[n + 1].accounts
    ensures var (a, u) := (points[n].accounts[e], At(points[n], e));
            var over := IsOver(a, CountOf(events[n].active, e));
            && (At(points[n + 1], e).banned <==> over)
            && (HoldsOriginal(points[n + 1].accounts[e], At(points[n + 1], e)) <==>
                if over then (if u.banned then HoldsOriginal(a, u) else Original(a) == "")
                else u.banned || HoldsOriginal(a, u))
  {
    RunStep(events, points, n, e);
    PassDecides(points[n].accounts[e], CountOf(events[n].active, e), events[n].calls.uuid(e), At(points[n], e));
  }

  /**
   From the log to the core: after any completed runs of the log reader and a pass whose calls succeed,
   an email on a limited inbound is marked exactly when the history of sightings has more addresses of
   it in the last three minutes than the limit allows; and unless the pass readmits a disabled client
   or bans an empty credential, an email that was right has its original credential exactly when it is
   enabled and the history has not more.
   */
  lemma BanFollowsHistory(ps: seq<Pass>, now: int, p: Point, calls: Calls, p': Point, e: string)
    requires forall i, j :: 0 <= i < j < |ps| ==> ps[i].now <= ps[j].now
    requires |ps| > 0 && now == ps[|ps| - 1].now
    requires e in p.accounts && e in p'.accounts && EmailEvent(p, Check(MapAfter(ps), calls), p', e)
    requires !calls.removeFails(e) && !calls.addFails(e)
    requires p.accounts[e].limit.Some? && p.accounts[e].client.Some?
    ensures var within := |ActiveAddresses(HistoryOf(ps), now, e)| <= p.accounts[e].limit.value;
            && (At(p', e).banned <==> !within)
            && (RightAt(p, e) && !BreaksAt(p, Check(MapAfter(ps), calls), e) ==>
                (HoldsOriginal(p'.accounts[e], At(p', e)) <==> p.accounts[e].enabled && within))
  {
    var m, ev := MapAfter(ps), Check(MapAfter(ps), calls);
    EveryRunRefines(ps, now);
    CountIsActive(m, HistoryOf(ps), now, e);
    PassDecides(p.accounts[e], CountOf(m, e), calls.uuid(e), At(p, e));
    if RightAt(p, e) && !BreaksAt(p, ev, e) {
      StepSafe(p, ev, p', e);
      StepServes(p, ev, p', e);
      StepBars(p, ev, p', e);
      RightPoint(p', e);
    }
  }

  lemma CountIsActive(m: IpMap, h: seq<Seen>, now: int, e: string)
    requires Refines(m, h, now)
    ensures CountOf(m, e) == |ActiveAddresses(h, now, e)|
  {
    EntriesAreActive(m, h, now, e);
  }

  /** A restart keeps everybody safe if and only if nobody who is enabled is marked. */
  lemma RestartIsSafeIff(p: Point, p': Point)
    requires Step(p, Restart, p')
    ensures (forall e :: e in p.accounts ==> SafeAt(p', e)) <==>
            (forall e :: e in p.accounts && p.accounts[e].enabled && p.accounts[e].client.Some? ==> !At(p, e).banned)
  {
    forall e | e in p.accounts
      ensures SafeAt(p', e) <==> (p.accounts[e].enabled && p.accounts[e].client.Some? ==> !At(p, e).banned)
    {
      assert EmailEvent(p, Restart, p', e);
    }
  }

  // ----- what the job does not repair -----

  /** An event that leaves the email alone, or a pass that has nothing to do for it. */
  ghost predicate Idle(p: Point, ev: Event, e: string) {
    e in p.accounts &&
    match ev
    case Check(active, _) =>
      p.accounts[e].limit.Some? && p.accounts[e].client.Some? ==> (At(p, e).banned <==> IsOver(p.accounts[e], CountOf(active, e)))
    case Reload(entries) => e !in entries
    case Remove(emails, _, _) => e !in emails
    case Restart => false
  }

  /** The email's user, mark and account are the same, apart from the limit. */
  ghost predicate Stays(p: Point, p': Point, e: string) {
    && e in p.accounts && e in p'.accounts && At(p', e) == At(p, e)
    && p'.accounts[e] == p.accounts[e].(limit := p'.accounts[e].limit)
  }

  lemma IdleStep(p: Point, ev: Event, p': Point, e: string)
    requires e in p.accounts && e in p'.accounts && EmailEvent(p, ev, p', e) && Idle(p, ev, e)
    ensures Stays(p, p', e)
  {
  }

  lemma {:induction false} StaysThrough(points: seq<Point>, n: nat, m: nat, e: string)
    requires n <= m < |points| && e in points[n].accounts
    requires forall i :: n <= i < m ==> Stays(points[i], points[i + 1], e)
    ensures Stays(points[n], points[m], e)
    decreases m - n
  {
    if n == m {
    } else {
      StaysThrough(points, n, m - 1, e);
      assert Stays(points[m - 1], points[m - 1 + 1], e);
    }
  }

  /** Through such events an email keeps its state. */
  lemma IdleRun(events: seq<Event>, points: seq<Point>, n: nat, m: nat, e: string)
    requires IsRun(events, points) && n <= m <= |events| && e in points[0].accounts && e in points[n].accounts
    requires forall i :: n <= i < m ==> Idle(points[i], events[i], e)
    ensures Stays(points[n], points[m], e)
  {
    forall i | n <= i < m
      ensures Stays(points[i], points[i + 1], e)
    {
      RunStep(events, points, i, e);
      IdleStep(points[i], events[i], points[i + 1], e);
    }
    StaysThrough(points, n, m, e);
  }

  /** A user that is locked out, a disabled client that was readmitted and a ban that was undone all stay so. */
  lemma NothingIsRepaired(events: seq<Event>, points: seq<Point>, n: nat, m: nat, e: string)
    requires IsRun(events, points) && n <= m <= |events| && e in points[0].accounts && e in points[n].accounts
    requires forall i :: n <= i < m ==> Idle(points[i], events[i], e)
    ensures SafeAt(points[m], e) <==> SafeAt(points[n], e)
    ensures ServedAt(points[m], e) <==> ServedAt(points[n], e)
    ensures BarredAt(points[m], e) <==> BarredAt(points[n], e)
  {
    IdleRun(events, points, n, m, e);
  }

  const TWO_ADDRESSES: Ips := map["10.0.0.1" := 0, "10.0.0.2" := 0]

  /** The shortest lockout: two addresses with a limit of one, and the second call of the ban fails; then a clean pass. */
  lemma TwoPassLockout(e: string, a: Account, failing: Calls, clean: Calls)
    requires a.enabled && a.client.Some? && a.limit == Some(1)
    requires failing.uuid(e) != Original(a) && !failing.removeFails(e) && failing.addFails(e)
    requires clean.uuid(e) != Original(a) && !clean.removeFails(e) && !clean.addFails(e)
    ensures var start := Point(map[e := a], map[], map[(a.tag, e) := Original(a)]);
            var end := Point(map[e := a], map[], map[]);
            && IsRun([Check(map[e := TWO_ADDRESSES], failing), Check(map[], clean)], [start, end, end])
            && RightAt(start, e) && !ServedAt(end, e)
  {
    var start := Point(map[e := a], map[], map[(a.tag, e) := Original(a)]);
    var end := Point(map[e := a], map[], map[]);
    assert TWO_ADDRESSES.Keys == {"10.0.0.1", "10.0.0.2"} && "10.0.0.1" != "10.0.0.2";
    assert CountOf(map[e := TWO_ADDRESSES], e) == |TWO_ADDRESSES.Keys| == 2;
    assert Step(start, Check(map[e := TWO_ADDRESSES], failing), end);
    assert Step(end, Check(map[], clean), end);
  }

  /** The shortest readmission: a banned user is disabled and removed; the next clean pass unbans it into the core. */
  lemma UnbanReadmits(e: string, a: Account, other: string, clean: Calls)
    requires a.enabled && a.client.Some? && a.limit == Some(1) && other != Original(a)
    requires clean.uuid(e) != Original(a) && !clean.removeFails(e) && !clean.addFails(e)
    ensures var off := a.(enabled := false);
            var start := Point(map[e := a], map[e := true], map[(a.tag, e) := other]);
            var removed := Point(map[e := off], map[e := true], map[]);
            var end := Point(map[e := off], map[], map[(a.tag, e) := Original(a)]);
            && IsRun([Remove({e}, true, _ => false), Check(map[], clean)], [start, removed, end])
            && RightAt(start, e) && RightAt(removed, e) && !BarredAt(end, e)
  {
    var off := a.(enabled := false);
    var start := Point(map[e := a], map[e := true], map[(a.tag, e) := other]);
    var removed := Point(map[e := off], map[e := true], map[]);
    var end := Point(map[e := off], map[], map[(a.tag, e) := Original(a)]);
    assert Step(start, Remove({e}, true, _ => false), removed);
    assert Step(removed, Check(map[], clean), end);
  }

  /** A ban of an empty credential: marked, and still with it in the core. */
  lemma EmptyCredentialBan(e: string, a: Account, clean: Calls)
    requires a.client.Some? && Original(a) == "" && a.limit == Some(1)
    requires clean.uuid(e) != "" && !clean.removeFails(e) && !clean.addFails(e)
    ensures var start := Point(map[e := a], map[], map[(a.tag, e) := ""]);
            var end := Point(map[e := a], map[e := true], map[(a.tag, e) := ""]);
            Step(start, Check(map[e := TWO_ADDRESSES], clean), end) && SafeAt(start, e) && !SafeAt(end, e)
  {
    assert TWO_ADDRESSES.Keys == {"10.0.0.1", "10.0.0.2"} && "10.0.0.1" != "10.0.0.2";
    assert CountOf(map[e := TWO_ADDRESSES], e) == |TWO_ADDRESSES.Keys| == 2;
  }
}
