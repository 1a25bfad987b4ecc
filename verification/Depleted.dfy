/** `DelDepletedClients`: removing the clients whose rows are disabled for good. */
module Depleted {
  import opened Panel
  import opened InboundServices
  import Ledger
  import Traffic

  // ----- GROUP_CONCAT and strings.Split -----

  function Join(es: seq<string>): string
    requires |es| > 0
  {
    if |es| == 1 then es[0] else es[0] + "," + Join(es[1..])
  }

  /** The text before the first comma. */
  function Head(s: string): (h: string)
    ensures |h| <= |s| && h == s[..|h|] && ',' !in h
    ensures |h| < |s| ==> s[|h|] == ','
  {
    if |s| == 0 || s[0] == ',' then [] else [s[0]] + Head(s[1..])
  }

  function Split(s: string): (es: seq<string>)
    ensures |es| > 0
    decreases |s|
  {
    var h := Head(s);
    if |h| == |s| then [s] else [h] + Split(s[|h| + 1..])
  }

  function Commas(s: string): nat {
    if |s| == 0 then 0 else (if s[0] == ',' then 1 else 0) + Commas(s[1..])
  }

  function CommasIn(es: seq<string>): nat {
    if |es| == 0 then 0 else Commas(es[0]) + CommasIn(es[1..])
  }

  lemma {:induction false} HeadOf(a: string, b: string)
    requires ',' !in a
    ensures Head(a + "," + b) == a && Head(a) == a
  {
    var s := a + "," + b;
    if |a| == 0 {
      assert s[0] == ',';
    } else {
      assert a == [a[0]] + a[1..];
      assert s[1..] == a[1..] + "," + b;
      HeadOf(a[1..], b);
    }
  }

  lemma SplitHead(a: string, b: string)
    requires ',' !in a
    ensures Split(a + "," + b) == [a] + Split(b)
    ensures Split(a) == [a]
  {
    HeadOf(a, b);
    var s := a + "," + b;
    assert s[|a| + 1..] == b;
  }

  lemma SplitJoined(head: string, rest: seq<string>)
    requires ',' !in head && |rest| > 0 && Split(Join(rest)) == rest
    ensures Split(Join([head] + rest)) == [head] + rest
  {
    var text := Join(rest);
    assert ([head] + rest)[1..] == rest;
    assert Join([head] + rest) == head + "," + text;
    SplitHead(head, text);
  }

  lemma {:induction false} SplitJoin(es: seq<string>)
    requires |es| > 0 && forall e :: e in es ==> ',' !in e
    ensures Split(Join(es)) == es
  {
    if |es| == 1 {
      SplitHead(es[0], "");
    } else {
      assert es == [es[0]] + es[1..];
      SplitJoin(es[1..]);
      SplitJoined(es[0], es[1..]);
    }
  }

  lemma {:induction false} CommasConcat(a: string, b: string)
    ensures Commas(a + b) == Commas(a) + Commas(b)
  {
    if |a| == 0 {
      assert a + b == b;
    } else {
      assert (a + b)[1..] == a[1..] + b;
      CommasConcat(a[1..], b);
    }
  }

  lemma {:induction false} NoCommas(s: string)
    ensures ',' !in s <==> Commas(s) == 0
  {
    if |s| == 0 {
    } else {
      NoCommas(s[1..]);
      assert s == [s[0]] + s[1..];
    }
  }

  lemma {:induction false} SplitLength(s: string)
    ensures |Split(s)| == Commas(s) + 1
    decreases |s|
  {
    var h := Head(s);
    NoCommas(h);
    if |h| < |s| {
      assert s == h + ([s[|h|]] + s[|h| + 1..]);
      CommasConcat(h, [s[|h|]] + s[|h| + 1..]);
      SplitLength(s[|h| + 1..]);
    } else {
      assert s == h;
    }
  }

  lemma {:induction false} JoinCommas(es: seq<string>)
    requires |es| > 0
    ensures Commas(Join(es)) == CommasIn(es) + |es| - 1
  {
    if |es| > 1 {
      JoinCommas(es[1..]);
      CommasConcat(es[0] + ",", Join(es[1..]));
      CommasConcat(es[0], ",");
    } else {
      assert CommasIn(es[1..]) == 0;
    }
  }

  lemma {:induction false} CommasInOne(es: seq<string>, i: nat)
    requires i < |es| && ',' in es[i]
    ensures CommasIn(es) > 0
  {
    if i == 0 {
      NoCommas(es[0]);
    } else {
      assert es[1..][i - 1] == es[i];
      CommasInOne(es[1..], i - 1);
    }
  }

  /** Splitting gives the emails back exactly when none of them has a comma. */
  lemma SplitJoinIff(es: seq<string>)
    requires |es| > 0
    ensures Split(Join(es)) == es <==> forall i :: 0 <= i < |es| ==> ',' !in es[i]
  {
    if forall i :: 0 <= i < |es| ==> ',' !in es[i] {
      SplitJoin(es);
    } else {
      var i :| 0 <= i < |es| && ',' in es[i];
      CommasInOne(es, i);
      JoinCommas(es);
      SplitLength(Join(es));
    }
  }

  // ----- what is removed -----

  predicate InScope(id: int, inboundId: int) {
    if id < 0 then inboundId > id else inboundId == id
  }

  predicate IsDepleted(t: Tables, id: int, k: RowKey) {
    k in t.traffics && t.traffics[k].reset == 0 && InScope(id, k.0) && !t.traffics[k].enable
  }

  function Remaining(t: Tables, id: int, inboundId: int, clients: seq<Client>): seq<Client> {
    if |clients| == 0 then []
    else Remaining(t, id, inboundId, clients[..|clients| - 1]) +
         if IsDepleted(t, id, (inboundId, clients[|clients| - 1].email)) then [] else [clients[|clients| - 1]]
  }

  function DepletedRows(t: Tables, id: int): set<RowKey> {
    set k | k in t.traffics && IsDepleted(t, id, k)
  }

  /** The groups of the query: the inbounds of the depleted rows. */
  function Groups(t: Tables, id: int): set<int> {
    set k | k in t.traffics && IsDepleted(t, id, k) :: k.0
  }

  /** A group whose inbound keeps no client. */
  predicate Emptied(t: Tables, id: int, inboundId: int) {
    && inboundId in t.inbounds && inboundId in Groups(t, id)
    && Remaining(t, id, inboundId, t.inbounds[inboundId].clients) == []
  }

  /** What the method is for: depleted rows and clients go, and inbounds that keep no client. */
  ghost function DelDepleted(t: Tables, id: int): Tables {
    Tables(map i | i in t.inbounds && !Emptied(t, id, i) ::
             t.inbounds[i].(clients := Remaining(t, id, i, t.inbounds[i].clients)),
           map k | k in t.traffics && !IsDepleted(t, id, k) && !Emptied(t, id, k.0) :: t.traffics[k])
  }

  ghost predicate NoCommaEmails(t: Tables) {
    forall k :: k in t.traffics ==> ',' !in k.1
  }

  // ----- the write lock -----

  /** An order in which the query may return its groups. */
  ghost predicate IsOrder(t: Tables, id: int, order: seq<int>) {
    && (forall i :: i in order <==> i in Groups(t, id))
    && (forall a, b :: 0 <= a < b < |order| ==> order[a] != order[b])
  }

  /** One of the first n groups was saved, and the transaction has held the database's write lock since. */
  ghost predicate Locked(t: Tables, id: int, order: seq<int>, n: nat) {
    exists a :: 0 <= a < n && a < |order| && !Emptied(t, id, order[a])
  }

  /** An inbound that should be deleted when the lock is held: `DelInbound`, on another connection, fails. */
  ghost predicate Stuck(t: Tables, id: int, order: seq<int>, i: int) {
    Emptied(t, id, i) && exists b :: 0 <= b < |order| && order[b] == i && Locked(t, id, order, b)
  }

  ghost predicate Deleted(t: Tables, id: int, order: seq<int>, i: int) {
    Emptied(t, id, i) && !Stuck(t, id, order, i)
  }

  ghost predicate NoneStuck(t: Tables, id: int, order: seq<int>) {
    forall i :: !Stuck(t, id, order, i)
  }

  /** What the method does: an inbound that is stuck keeps its clients and loses their rows. */
  ghost function CleanUp(t: Tables, id: int, order: seq<int>): Tables {
    Tables(map i | i in t.inbounds && !Deleted(t, id, order, i) ::
             if Emptied(t, id, i) then t.inbounds[i]
             else t.inbounds[i].(clients := Remaining(t, id, i, t.inbounds[i].clients)),
           map k | k in t.traffics && !IsDepleted(t, id, k) && !Deleted(t, id, order, k.0) :: t.traffics[k])
  }

  // ----- the method -----

  /** The tables when the first n groups have been handled. */
  ghost predicate HandledUpTo(t: Tables, id: int, order: seq<int>, n: nat, u: Tables)
    requires n <= |order|
  {
    && (forall i :: i in u.inbounds <==> i in t.inbounds && !(i in order[..n] && Deleted(t, id, order, i)))
    && (forall i :: i in u.inbounds ==>
          u.inbounds[i] == if i in order[..n] && !Emptied(t, id, i)
                           then t.inbounds[i].(clients := Remaining(t, id, i, t.inbounds[i].clients))
                           else t.inbounds[i])
    && (forall k :: k in u.traffics <==> k in t.traffics && !(k.0 in order[..n] && Deleted(t, id, order, k.0)))
    && (forall k :: k in u.traffics ==> u.traffics[k] == t.traffics[k])
  }

  function Without(clients: seq<Client>, emails: seq<string>): seq<Client> {
    if |clients| == 0 then []
    else
      var h := Without(clients[..|clients| - 1], emails);
      if clients[|clients| - 1].email in emails then h else h + [clients[|clients| - 1]]
  }

  method DropEmails(clients: seq<Client>, emails: seq<string>) returns (newClients: seq<Client>)
    ensures newClients == Without(clients, emails)
  {
    newClients := [];
    for i := 0 to |clients|
      invariant newClients == Without(clients[..i], emails)
    {
      var deplete := false;
      for j := 0 to |emails|
        invariant !deplete && clients[i].email !in emails[..j]
      {
        if emails[j] == clients[i].email {
          deplete := true;
          break;
        }
      }
      assert emails[..|emails|] == emails;
      assert clients[..i + 1][..i] == clients[..i];
      if !deplete {
        newClients := newClients + [clients[i]];
      }
    }
    assert clients[..|clients|] == clients;
  }

  /** One group of the query: the concatenated emails of an inbound's depleted rows, split again. */
  method GroupEmails(depleted: set<RowKey>, inboundId: int) returns (emails: seq<string>)
    requires exists k :: k in depleted && k.0 == inboundId
    ensures (forall k :: k in depleted ==> ',' !in k.1) ==> forall e :: e in emails <==> (inboundId, e) in depleted
  {
    var rest := set k | k in depleted && k.0 == inboundId;
    ghost var some :| some in depleted && some.0 == inboundId;
    assert some in rest;
    var list: seq<string> := [];
    while exists k :: k in rest
      invariant rest <= depleted && forall k :: k in rest ==> k.0 == inboundId
      invariant forall k :: k in depleted && k.0 == inboundId ==> k in rest || k.1 in list
      invariant forall e :: e in list ==> (inboundId, e) in depleted
      invariant some in rest || |list| > 0
      decreases rest
    {
      var k :| k in rest;
      assert k == (k.0, k.1);
      list := list + [k.1];
      rest := rest - {k};
    }
    emails := Split(Join(list));
    if forall k :: k in depleted ==> ',' !in k.1 {
      SplitJoin(list);
      forall e
        ensures e in list <==> (inboundId, e) in depleted
      {
        assert (inboundId, e).0 == inboundId && (inboundId, e).1 == e;
      }
    }
  }

  /** The tables after one group: saved, deleted, or left alone because the lock is held. */
  function Handled(u: Tables, inboundId: int, emails: seq<string>, locked: bool): Tables
    requires inboundId in u.inbounds
  {
    var newClients := Without(u.inbounds[inboundId].clients, emails);
    if |newClients| > 0 then u.(inbounds := u.inbounds[inboundId := u.inbounds[inboundId].(clients := newClients)])
    else if locked then u
    else Ledger.DelInbound(u, inboundId).0
  }

  /** The clients of one group are dropped; an inbound that keeps none is deleted, if the lock allows it. */
  method HandleGroup(s: InboundService, inboundId: int, emails: seq<string>, locked: bool) returns (emptied: bool)
    requires inboundId in s.inbounds
    modifies s
    ensures emptied == (|Without(old(s.inbounds)[inboundId].clients, emails)| == 0)
    ensures s.Tables() == Handled(old(s.Tables()), inboundId, emails, locked)
  {
    var oldInbound := s.inbounds[inboundId];
    var newClients := DropEmails(oldInbound.clients, emails);
    emptied := |newClients| == 0;
    if !emptied {
      s.inbounds := s.inbounds[inboundId := oldInbound.(clients := newClients)];
    } else if !locked {
      var _ := s.DelInbound(inboundId);
    }
  }

  lemma {:induction false} DroppedIsRemaining(t: Tables, id: int, inboundId: int, clients: seq<Client>, emails: seq<string>)
    requires forall e :: e in emails <==> IsDepleted(t, id, (inboundId, e))
    ensures Without(clients, emails) == Remaining(t, id, inboundId, clients)
  {
    if |clients| == 0 {
    } else {
      DroppedIsRemaining(t, id, inboundId, clients[..|clients| - 1], emails);
    }
  }

  lemma LockAfter(t: Tables, id: int, order: seq<int>, n: nat)
    requires n < |order|
    ensures Locked(t, id, order, n + 1) <==> Locked(t, id, order, n) || !Emptied(t, id, order[n])
  {
  }

  lemma OrderedGroup(t: Tables, id: int, order: seq<int>, n: nat)
    requires IsOrder(t, id, order) && n < |order|
    ensures exists k :: k in DepletedRows(t, id) && k.0 == order[n]
  {
    assert order[n] in order;
    var k :| k in t.traffics && IsDepleted(t, id, k) && k.0 == order[n];
    assert k in DepletedRows(t, id);
  }

  /** A group is stuck exactly when the lock is held at its turn. */
  lemma TurnDecides(t: Tables, id: int, order: seq<int>, n: nat)
    requires IsOrder(t, id, order) && n < |order|
    ensures Stuck(t, id, order, order[n]) <==> Emptied(t, id, order[n]) && Locked(t, id, order, n)
    ensures Locked(t, id, order, n + 1) <==> Locked(t, id, order, n) || !Emptied(t, id, order[n])
    ensures order[n] !in order[..n]
  {
    if Stuck(t, id, order, order[n]) {
      var b :| 0 <= b < |order| && order[b] == order[n] && Locked(t, id, order, b);
      assert b == n;
    }
  }

  /** A group that is still to be handled has its inbound, unchanged. */
  lemma GroupHasInbound(t: Tables, id: int, order: seq<int>, n: nat, u: Tables)
    requires Ledger.EmailsAgree(t) && IsOrder(t, id, order) && n < |order| && HandledUpTo(t, id, order, n, u)
    ensures order[n] in u.inbounds && order[n] in t.inbounds && u.inbounds[order[n]] == t.inbounds[order[n]]
  {
    TurnDecides(t, id, order, n);
    assert order[n] in order;
  }

  lemma NextHandled(t: Tables, id: int, order: seq<int>, n: nat, emails: seq<string>, u: Tables, u': Tables)
    requires IsOrder(t, id, order) && n < |order| && HandledUpTo(t, id, order, n, u)
    requires order[n] in u.inbounds && order[n] in t.inbounds && u.inbounds[order[n]] == t.inbounds[order[n]]
    requires forall e :: e in emails <==> IsDepleted(t, id, (order[n], e))
    requires u' == Handled(u, order[n], emails, Locked(t, id, order, n))
    ensures HandledUpTo(t, id, order, n + 1, u')
    ensures Emptied(t, id, order[n]) <==> Without(u.inbounds[order[n]].clients, emails) == []
  {
    assert order[n] in order;
    DroppedIsRemaining(t, id, order[n], t.inbounds[order[n]].clients, emails);
    TurnDecides(t, id, order, n);
    assert order[..n + 1] == order[..n] + [order[n]];
    StepHandled(t, id, order, n, u, u');
  }

  /** One more group is handled when its inbound is gone, saved or, being stuck, as it was. */
  lemma StepHandled(t: Tables, id: int, order: seq<int>, n: nat, u: Tables, u': Tables)
    requires n < |order| && HandledUpTo(t, id, order, n, u)
    requires order[n] in u.inbounds && order[n] in t.inbounds && u.inbounds[order[n]] == t.inbounds[order[n]] && order[n] !in order[..n]
    requires order[..n + 1] == order[..n] + [order[n]]
    requires var i := order[n];
             u' == if Deleted(t, id, order, i) then Ledger.DelInbound(u, i).0
                   else if Emptied(t, id, i) then u
                   else u.(inbounds := u.inbounds[i := t.inbounds[i].(clients := Remaining(t, id, i, t.inbounds[i].clients))])
    ensures HandledUpTo(t, id, order, n + 1, u')
  {
  }

  ghost predicate GoodGroup(t: Tables, id: int, depleted: set<RowKey>, inboundId: int, locked: bool,
                            order: seq<int>, n: nat)
  {
    && Ledger.EmailsAgree(t) && NoCommaEmails(t) && IsOrder(t, id, order)
    && n < |order| && inboundId == order[n] && locked == Locked(t, id, order, n)
    && depleted == DepletedRows(t, id)
  }

  /** One round of the loop over the groups. */
  method DeleteGroup(s: InboundService, id: int, depleted: set<RowKey>, inboundId: int, locked: bool,
                     ghost t: Tables, ghost order: seq<int>, ghost n: nat)
    returns (found: bool, emptied: bool)
    requires exists k :: k in depleted && k.0 == inboundId
    modifies s
    ensures found == (inboundId in old(s.inbounds))
    ensures !found ==> s.Tables() == old(s.Tables())
    ensures forall i :: i in s.inbounds ==> i in old(s.inbounds) && !(emptied && !locked && i == inboundId)
    ensures GoodGroup(t, id, depleted, inboundId, locked, order, n) && HandledUpTo(t, id, order, n, old(s.Tables())) ==>
              found && HandledUpTo(t, id, order, n + 1, s.Tables()) && emptied == Emptied(t, id, inboundId)
  {
    ghost var u := s.Tables();
    ghost var good := GoodGroup(t, id, depleted, inboundId, locked, order, n) && HandledUpTo(t, id, order, n, u);
    var emails := GroupEmails(depleted, inboundId);
    if good {
      GroupHasInbound(t, id, order, n, u);
    }
    if inboundId !in s.inbounds {
      return false, false;
    }
    found := true;
    emptied := HandleGroup(s, inboundId, emails, locked);
    if good {
      NextHandled(t, id, order, n, emails, u, s.Tables());
    }
  }

  /** The loop over the groups. */
  method DeleteGroups(s: InboundService, id: int, depleted: set<RowKey>, order: seq<int>)
    returns (outcome: Outcome, deleted: set<int>)
    requires IsOrder(s.Tables(), id, order)
    requires depleted == DepletedRows(s.Tables(), id)
    modifies s
    ensures forall i :: i in s.inbounds ==> i in old(s.inbounds) && i !in deleted
    ensures old(Ledger.EmailsAgree(s.Tables()) && NoCommaEmails(s.Tables())) ==>
              outcome == Done && HandledUpTo(old(s.Tables()), id, order, |order|, s.Tables())
  {
    ghost var t := s.Tables();
    ghost var good := Ledger.EmailsAgree(t) && NoCommaEmails(t);
    deleted := {};
    var locked := false;
    for n := 0 to |order|
      invariant forall i :: i in s.inbounds ==> i in old(s.inbounds) && i !in deleted
      invariant good ==> HandledUpTo(t, id, order, n, s.Tables()) && locked == Locked(t, id, order, n)
    {
      OrderedGroup(t, id, order, n);
      var found, emptied := DeleteGroup(s, id, depleted, order[n], locked, t, order, n);
      if !found {
        return NotFound, deleted;
      }
      LockAfter(t, id, order, n);
      if !emptied {
        locked := true;
      } else if !locked {
        deleted := deleted + {order[n]};
      }
    }
    outcome := Done;
  }

  /** `order` is the order in which the database returns the groups. */
  method DelDepletedClients(s: InboundService, id: int, order: seq<int>) returns (outcome: Outcome)
    requires IsOrder(s.Tables(), id, order)
    modifies s
    ensures old(Ledger.EmailsAgree(s.Tables()) && NoCommaEmails(s.Tables())) ==>
              outcome == Done && s.Tables() == CleanUp(old(s.Tables()), id, order)
    ensures outcome != Done ==> forall i :: i in s.inbounds ==> i in old(s.inbounds) && s.inbounds[i] == old(s.inbounds)[i]
  {
    ghost var t := s.Tables();
    ghost var good := Ledger.EmailsAgree(t) && NoCommaEmails(t);
    var before := s.inbounds;
    var depleted := DepletedRows(s.Tables(), id);
    var deleted: set<int>;
    outcome, deleted := DeleteGroups(s, id, depleted, order);
    if outcome != Done {
      // the transaction is rolled back, but deleted inbounds are gone already
      s.inbounds := map i | i in before && i !in deleted :: before[i];
      return;
    }
    ghost var u := s.Tables();
    s.traffics := map k | k in s.traffics && !IsDepleted(s.Tables(), id, k) :: s.traffics[k];
    if good {
      AllHandled(t, id, order, u, s.traffics);
    }
  }

  lemma OutsideGroups(t: Tables, id: int, inboundId: int, e: string)
    requires inboundId !in Groups(t, id)
    ensures !IsDepleted(t, id, (inboundId, e))
  {
    var k := (inboundId, e);
    assert IsDepleted(t, id, k) ==> k.0 in Groups(t, id);
  }

  lemma {:induction false} NothingDropped(t: Tables, id: int, inboundId: int, clients: seq<Client>)
    requires inboundId !in Groups(t, id)
    ensures Remaining(t, id, inboundId, clients) == clients
  {
    if |clients| == 0 {
    } else {
      var h, c := clients[..|clients| - 1], clients[|clients| - 1];
      NothingDropped(t, id, inboundId, h);
      OutsideGroups(t, id, inboundId, c.email);
      assert clients == h + [c];
    }
  }

  lemma AllHandled(t: Tables, id: int, order: seq<int>, u: Tables, traffics: map<RowKey, ClientTraffic>)
    requires IsOrder(t, id, order) && HandledUpTo(t, id, order, |order|, u)
    requires traffics == map k | k in u.traffics && !IsDepleted(u, id, k) :: u.traffics[k]
    ensures Tables(u.inbounds, traffics) == CleanUp(t, id, order)
  {
    assert order[..|order|] == order;
    InboundsHandled(t, id, order, u);
    RowsHandled(t, id, order, u, traffics);
  }

  lemma InboundsHandled(t: Tables, id: int, order: seq<int>, u: Tables)
    requires IsOrder(t, id, order) && order[..|order|] == order && HandledUpTo(t, id, order, |order|, u)
    ensures u.inbounds == CleanUp(t, id, order).inbounds
  {
    var d := CleanUp(t, id, order).inbounds;
    forall i
      ensures i in u.inbounds <==> i in d
      ensures i in u.inbounds ==> u.inbounds[i] == d[i]
    {
      if i in t.inbounds && i !in order {
        NothingDropped(t, id, i, t.inbounds[i].clients);
      }
    }
  }

  lemma RowsHandled(t: Tables, id: int, order: seq<int>, u: Tables, traffics: map<RowKey, ClientTraffic>)
    requires IsOrder(t, id, order) && order[..|order|] == order && HandledUpTo(t, id, order, |order|, u)
    requires traffics == map k | k in u.traffics && !IsDepleted(u, id, k) :: u.traffics[k]
    ensures traffics == CleanUp(t, id, order).traffics
  {
  }

  // ----- what that means -----

  lemma {:induction false} RemainingClients(t: Tables, id: int, inboundId: int, clients: seq<Client>)
    ensures forall c :: c in Remaining(t, id, inboundId, clients) <==>
                        c in clients && !IsDepleted(t, id, (inboundId, c.email))
  {
    if |clients| == 0 {
    } else {
      var h, c := clients[..|clients| - 1], clients[|clients| - 1];
      RemainingClients(t, id, inboundId, h);
      assert clients == h + [c];
    }
  }

  lemma EmptiedRow(t: Tables, id: int, k: RowKey)
    requires Traffic.Clean(t) && k in t.traffics && Emptied(t, id, k.0)
    ensures IsDepleted(t, id, k)
  {
    Ledger.RowHasClient(t, k);
    var clients := t.inbounds[k.0].clients;
    var c :| c in clients && c.email == k.1;
    RemainingClients(t, id, k.0, clients);
    assert k == (k.0, c.email);
  }

  /** Exactly the depleted rows go, also those of an inbound that is stuck. */
  lemma ExactlyDepletedRows(t: Tables, id: int, order: seq<int>)
    requires Traffic.Clean(t)
    ensures forall k :: k in CleanUp(t, id, order).traffics <==> k in t.traffics && !IsDepleted(t, id, k)
  {
    forall k | k in t.traffics && Emptied(t, id, k.0)
      ensures IsDepleted(t, id, k)
    {
      EmptiedRow(t, id, k);
    }
  }

  /** An inbound goes exactly when it had a depleted row, none of its clients remains, and no group was saved before. */
  lemma ExactlyEmptiedInbounds(t: Tables, id: int, order: seq<int>, n: nat)
    requires IsOrder(t, id, order) && n < |order| && order[n] in t.inbounds
    ensures order[n] !in CleanUp(t, id, order).inbounds <==>
            (forall c :: c in t.inbounds[order[n]].clients ==> IsDepleted(t, id, (order[n], c.email))) &&
            (forall a :: 0 <= a < n ==> Emptied(t, id, order[a]))
  {
    var clients := t.inbounds[order[n]].clients;
    var rest := Remaining(t, id, order[n], clients);
    assert order[n] in order;
    RemainingClients(t, id, order[n], clients);
    if |rest| > 0 {
      assert rest[0] in rest;
    }
    TurnDecides(t, id, order, n);
  }

  /** An inbound that stays keeps exactly the clients without a depleted row, unless it is stuck with all of them. */
  lemma ExactlyRemainingClients(t: Tables, id: int, order: seq<int>, i: int, c: Client)
    requires i in CleanUp(t, id, order).inbounds
    ensures c in CleanUp(t, id, order).inbounds[i].clients <==>
            c in t.inbounds[i].clients && (!IsDepleted(t, id, (i, c.email)) || Stuck(t, id, order, i))
  {
    RemainingClients(t, id, i, t.inbounds[i].clients);
  }

  // ----- the same by the fields of the rows -----

  /** A row that the queries select: disabled, without renewal, and of an inbound in scope. */
  predicate Selected(t: Tables, id: int, k: RowKey) {
    && k in t.traffics && !t.traffics[k].enable && t.traffics[k].reset == 0
    && if id < 0 then k.0 > id else k.0 == id
  }

  /** All clients of a group have such a row. */
  ghost predicate AllSelected(t: Tables, id: int, i: int) {
    i in t.inbounds && forall c :: c in t.inbounds[i].clients ==> Selected(t, id, (i, c.email))
  }

  /**
   Exactly the selected rows go; the n-th group's inbound goes if and only if all its clients' rows are
   selected, and so are those of all groups before it; and an inbound that stays loses exactly the
   clients whose rows are selected, unless it would have gone but for the lock.
   */
  lemma CleanUpFields(t: Tables, id: int, order: seq<int>)
    requires Traffic.Clean(t) && IsOrder(t, id, order)
    ensures var u := CleanUp(t, id, order);
            && (forall k :: k in u.traffics <==> k in t.traffics && !Selected(t, id, k))
            && (forall k :: k in u.traffics ==> u.traffics[k] == t.traffics[k])
            && (forall i :: i in t.inbounds && (forall e :: !Selected(t, id, (i, e))) ==> i in u.inbounds && u.inbounds[i] == t.inbounds[i])
            && (forall n :: 0 <= n < |order| && order[n] in t.inbounds ==>
                  (order[n] !in u.inbounds <==> forall a :: 0 <= a <= n ==> AllSelected(t, id, order[a])))
            && (forall i, c :: i in u.inbounds && i in t.inbounds && !AllSelected(t, id, i) ==>
                  (c in u.inbounds[i].clients <==> c in t.inbounds[i].clients && !Selected(t, id, (i, c.email))))
            && (forall i :: i in u.inbounds && AllSelected(t, id, i) ==> u.inbounds[i].clients == t.inbounds[i].clients)
  {
    SelectedIff(t, id);
    ExactlyDepletedRows(t, id, order);
    forall n | 0 <= n < |order| && order[n] in t.inbounds
      ensures order[n] !in CleanUp(t, id, order).inbounds <==> forall a :: 0 <= a <= n ==> AllSelected(t, id, order[a])
    {
      ExactlyEmptiedInbounds(t, id, order, n);
      forall a | 0 <= a <= n
        ensures AllSelected(t, id, order[a]) <==> Emptied(t, id, order[a])
      {
        AllSelectedIff(t, id, order, a);
      }
      AllSelectedIff(t, id, order, n);
    }
    CleanUpClients(t, id, order);
  }

  lemma SelectedIff(t: Tables, id: int)
    ensures forall k :: Selected(t, id, k) <==> IsDepleted(t, id, k)
  {
  }

  lemma AllSelectedIff(t: Tables, id: int, order: seq<int>, n: nat)
    requires IsOrder(t, id, order) && n < |order|
    ensures AllSelected(t, id, order[n]) <==> Emptied(t, id, order[n])
  {
    assert order[n] in order;
    if order[n] in t.inbounds {
      var clients := t.inbounds[order[n]].clients;
      RemainingClients(t, id, order[n], clients);
      var rest := Remaining(t, id, order[n], clients);
      if |rest| > 0 {
        assert rest[0] in rest;
      }
    }
  }

  lemma CleanUpClients(t: Tables, id: int, order: seq<int>)
    requires Traffic.Clean(t) && IsOrder(t, id, order)
    ensures var u := CleanUp(t, id, order);
            && (forall i :: i in t.inbounds && (forall e :: !Selected(t, id, (i, e))) ==> i in u.inbounds && u.inbounds[i] == t.inbounds[i])
            && (forall i, c :: i in u.inbounds && i in t.inbounds && !AllSelected(t, id, i) ==>
                  (c in u.inbounds[i].clients <==> c in t.inbounds[i].clients && !Selected(t, id, (i, c.email))))
            && (forall i :: i in u.inbounds && AllSelected(t, id, i) ==> u.inbounds[i].clients == t.inbounds[i].clients)
  {
    var u := CleanUp(t, id, order);
    forall i | i in t.inbounds && forall e :: !Selected(t, id, (i, e))
      ensures i in u.inbounds && u.inbounds[i] == t.inbounds[i]
    {
      NotAGroup(t, id, i);
      NothingDropped(t, id, i, t.inbounds[i].clients);
    }
    forall i | i in u.inbounds
      ensures !AllSelected(t, id, i) ==> forall c :: c in u.inbounds[i].clients <==> c in t.inbounds[i].clients && !Selected(t, id, (i, c.email))
      ensures AllSelected(t, id, i) ==> u.inbounds[i].clients == t.inbounds[i].clients
    {
      RemainingClients(t, id, i, t.inbounds[i].clients);
      WholeInbound(t, id, i);
    }
  }

  lemma NotAGroup(t: Tables, id: int, i: int)
    requires forall e :: !Selected(t, id, (i, e))
    ensures i !in Groups(t, id)
  {
    forall k | k in t.traffics && IsDepleted(t, id, k)
      ensures k.0 != i
    {
      assert k == (k.0, k.1) && !Selected(t, id, (i, k.1));
    }
  }

  /** An inbound all of whose clients are selected keeps none, which empties it, unless it had none. */
  lemma WholeInbound(t: Tables, id: int, i: int)
    requires i in t.inbounds
    ensures AllSelected(t, id, i) ==> Remaining(t, id, i, t.inbounds[i].clients) == []
    ensures AllSelected(t, id, i) && |t.inbounds[i].clients| > 0 ==> Emptied(t, id, i)
    ensures !AllSelected(t, id, i) ==> !Emptied(t, id, i)
  {
    var clients := t.inbounds[i].clients;
    var rest := Remaining(t, id, i, clients);
    RemainingClients(t, id, i, clients);
    if |rest| > 0 {
      assert rest[0] in rest;
    }
    if AllSelected(t, id, i) && |clients| > 0 {
      assert clients[0] in clients && IsDepleted(t, id, (i, clients[0].email));
      assert (i, clients[0].email).0 in Groups(t, id);
    }
    if !AllSelected(t, id, i) {
      var c :| c in clients && !Selected(t, id, (i, c.email));
      assert c in rest;
    }
  }

  /** The clients that remain keep their order and their number. */
  lemma {:induction false} RemainingInOrder(t: Tables, id: int, i: int, a: seq<Client>, b: seq<Client>)
    ensures Remaining(t, id, i, a + b) == Remaining(t, id, i, a) + Remaining(t, id, i, b)
    decreases |b|
  {
    if |b| == 0 {
      assert a + b == a;
    } else {
      var h, c := b[..|b| - 1], b[|b| - 1];
      RemainingInOrder(t, id, i, a, h);
      assert a + b == (a + h) + [c] && b == h + [c];
      RemainingSnoc(t, id, i, a + h, c);
      RemainingSnoc(t, id, i, h, c);
    }
  }

  lemma RemainingSnoc(t: Tables, id: int, i: int, h: seq<Client>, c: Client)
    ensures Remaining(t, id, i, h + [c]) == Remaining(t, id, i, h) + if Selected(t, id, (i, c.email)) then [] else [c]
  {
    assert (h + [c])[..|h|] == h;
  }

  // ----- when it does what it is for -----

  /** The method deletes exactly what it should if and only if no emptied group comes after a saved one. */
  lemma CleanUpIff(t: Tables, id: int, order: seq<int>)
    requires IsOrder(t, id, order)
    ensures CleanUp(t, id, order) == DelDepleted(t, id) <==>
            forall a, b :: 0 <= a < b < |order| && Emptied(t, id, order[b]) ==> Emptied(t, id, order[a])
  {
    NoneStuckIff(t, id, order);
    var u, d := CleanUp(t, id, order), DelDepleted(t, id);
    if NoneStuck(t, id, order) {
      forall i
        ensures Deleted(t, id, order, i) <==> Emptied(t, id, i)
      {
        assert !Stuck(t, id, order, i);
      }
      assert u.inbounds == d.inbounds && u.traffics == d.traffics;
    } else {
      var i :| Stuck(t, id, order, i);
      assert i in u.inbounds && i !in d.inbounds;
    }
  }

  lemma NoneStuckIff(t: Tables, id: int, order: seq<int>)
    requires IsOrder(t, id, order)
    ensures NoneStuck(t, id, order) <==>
            forall a, b :: 0 <= a < b < |order| && Emptied(t, id, order[b]) ==> Emptied(t, id, order[a])
  {
    if NoneStuck(t, id, order) {
      forall a, b | 0 <= a < b < |order| && Emptied(t, id, order[b])
        ensures Emptied(t, id, order[a])
      {
        assert !Stuck(t, id, order, order[b]);
      }
    }
  }

  /** The settings and the rows name the same emails afterwards under the same condition. */
  lemma AgreementIff(t: Tables, id: int, order: seq<int>)
    requires Traffic.Clean(t) && IsOrder(t, id, order)
    ensures Ledger.EmailsAgree(CleanUp(t, id, order)) <==> NoneStuck(t, id, order)
  {
    if NoneStuck(t, id, order) {
      NoneStuckIff(t, id, order);
      CleanUpIff(t, id, order);
      KeepsAgreement(t, id);
    } else {
      var i :| Stuck(t, id, order, i);
      var k :| k in t.traffics && IsDepleted(t, id, k) && k.0 == i;
      Ledger.RowHasClient(t, k);
      var u, e := CleanUp(t, id, order), k.1;
      assert k == (i, e) && u.inbounds[i] == t.inbounds[i];
      assert HasEmail(u.inbounds[i].clients, e) && (i, e) !in u.traffics;
    }
  }

  /** Naming one inbound is enough: a single group is never stuck. */
  lemma OneInboundIsSafe(t: Tables, id: int, order: seq<int>)
    requires id >= 0 && IsOrder(t, id, order)
    ensures NoneStuck(t, id, order)
  {
    forall a | 0 <= a < |order|
      ensures order[a] == id
    {
      assert order[a] in order;
    }
    NoneStuckIff(t, id, order);
  }

  /** Whatever the order is, if and only if all groups are emptied or none is. */
  lemma AnyOrderIff(t: Tables, id: int)
    ensures (forall order :: IsOrder(t, id, order) ==> NoneStuck(t, id, order)) <==>
            (forall i, j :: i in Groups(t, id) && j in Groups(t, id) ==> (Emptied(t, id, i) <==> Emptied(t, id, j)))
  {
    if forall i, j :: i in Groups(t, id) && j in Groups(t, id) ==> (Emptied(t, id, i) <==> Emptied(t, id, j)) {
      forall order | IsOrder(t, id, order)
        ensures NoneStuck(t, id, order)
      {
        assert forall a :: 0 <= a < |order| ==> order[a] in order;
        NoneStuckIff(t, id, order);
      }
    } else {
      var i, j :| i in Groups(t, id) && j in Groups(t, id) && !Emptied(t, id, i) && Emptied(t, id, j);
      var rest := SomeOrder(Groups(t, id) - {i, j});
      var order := [i, j] + rest;
      assert order[0] == i && order[1] == j;
      assert IsOrder(t, id, order);
      NoneStuckIff(t, id, order);
    }
  }

  lemma {:induction false} SomeOrder(s: set<int>) returns (order: seq<int>)
    ensures forall i :: i in order <==> i in s
    ensures forall a, b :: 0 <= a < b < |order| ==> order[a] != order[b]
    decreases s
  {
    if i :| i in s {
      var rest := SomeOrder(s - {i});
      order := [i] + rest;
      assert i !in rest;
    } else {
      order := [];
    }
  }

  // ----- what a clean-up that is not stuck keeps -----

  lemma {:induction false} RemainingDistinct(t: Tables, id: int, i: int, protocol: Protocol, clients: seq<Client>)
    requires Ledger.ClientsDistinct(protocol, clients)
    ensures Ledger.ClientsDistinct(protocol, Remaining(t, id, i, clients))
  {
    if |clients| == 0 {
    } else {
      var h, c := clients[..|clients| - 1], clients[|clients| - 1];
      RemainingDistinct(t, id, i, protocol, h);
      RemainingClients(t, id, i, h);
      assert clients == h + [c];
      Ledger.AppendDistinct(protocol, h, Remaining(t, id, i, h), c);
    }
  }

  lemma RemainingEmails(t: Tables, id: int, i: int, clients: seq<Client>, e: string)
    ensures HasEmail(Remaining(t, id, i, clients), e) <==> HasEmail(clients, e) && !IsDepleted(t, id, (i, e))
  {
    RemainingClients(t, id, i, clients);
  }

  lemma DelDepletedKeeps(t: Tables, id: int, order: seq<int>)
    requires Ledger.Inv(t) && Traffic.Clean(t) && IsOrder(t, id, order) && NoneStuck(t, id, order)
    ensures Ledger.Inv(CleanUp(t, id, order)) && Traffic.Clean(CleanUp(t, id, order))
    ensures Traffic.CountersOk(t) ==> Traffic.CountersOk(CleanUp(t, id, order))
    ensures Traffic.ExpiriesAgree(t) ==> Traffic.ExpiriesAgree(CleanUp(t, id, order))
  {
    NoneStuckIff(t, id, order);
    CleanUpIff(t, id, order);
    KeepsPorts(t, id);
    KeepsDistinct(t, id);
    KeepsAgreement(t, id);
    KeepsExpiries(t, id);
  }

  lemma KeepsPorts(t: Tables, id: int)
    requires Ledger.PortsOk(t)
    ensures Ledger.PortsOk(DelDepleted(t, id))
  {
  }

  lemma KeepsDistinct(t: Tables, id: int)
    requires Ledger.AllDistinct(t)
    ensures Ledger.AllDistinct(DelDepleted(t, id))
  {
    var d := DelDepleted(t, id);
    forall i, e | i in d.inbounds
      ensures HasEmail(d.inbounds[i].clients, e) ==> HasEmail(t.inbounds[i].clients, e)
    {
      RemainingEmails(t, id, i, t.inbounds[i].clients, e);
    }
    forall i | i in d.inbounds
      ensures Ledger.ClientsDistinct(d.inbounds[i].protocol, d.inbounds[i].clients)
    {
      RemainingDistinct(t, id, i, t.inbounds[i].protocol, t.inbounds[i].clients);
    }
  }

  lemma RowsLeft(t: Tables, id: int)
    requires Traffic.Clean(t)
    ensures forall k :: k in DelDepleted(t, id).traffics <==> k in t.traffics && !IsDepleted(t, id, k)
    ensures forall k :: k in DelDepleted(t, id).traffics ==> k.0 in DelDepleted(t, id).inbounds
  {
    forall k | k in t.traffics && Emptied(t, id, k.0)
      ensures IsDepleted(t, id, k)
    {
      EmptiedRow(t, id, k);
    }
  }

  lemma KeepsAgreement(t: Tables, id: int)
    requires Traffic.Clean(t)
    ensures Ledger.EmailsAgree(DelDepleted(t, id))
  {
    var d := DelDepleted(t, id);
    RowsLeft(t, id);
    forall i, e | i in d.inbounds && e != ""
      ensures HasEmail(d.inbounds[i].clients, e) <==> (i, e) in d.traffics
    {
      RemainingEmails(t, id, i, t.inbounds[i].clients, e);
    }
  }

  lemma KeepsExpiries(t: Tables, id: int)
    requires Traffic.Clean(t)
    ensures Traffic.ExpiriesAgree(t) ==> Traffic.ExpiriesAgree(DelDepleted(t, id))
  {
    var d := DelDepleted(t, id);
    RowsLeft(t, id);
    if Traffic.ExpiriesAgree(t) {
      forall i | i in d.inbounds
        ensures Traffic.RowsFollow(d.traffics, i, d.inbounds[i].clients)
      {
        RemainingClients(t, id, i, t.inbounds[i].clients);
        assert Traffic.RowsFollow(t.traffics, i, t.inbounds[i].clients);
      }
    }
  }
}
