/**
 What the inbound and client requests of `InboundService` do to the two tables, and the invariant
 that ties them together. Every request is a function from the tables to the tables it leaves and
 the outcome it reports; the class in InboundService.dfy is proved to compute these functions.
 */
module Ledger {
  import opened Panel

  // ----- queries -----

  predicate PortTaken(t: Tables, listen: string, port: int, ignoreId: int) {
    exists id :: id in t.inbounds && (ignoreId > 0 ==> id != ignoreId) &&
                 Clash(listen, port, t.inbounds[id].listen, t.inbounds[id].port)
  }

  predicate TagTaken(t: Tables, tag: string, ownId: int) {
    exists id :: id in t.inbounds && id != ownId && t.inbounds[id].tag == tag
  }

  /** ASCII case folding, as in `strings.ToLower`. */
  function Lower(s: string): string {
    seq(|s|, i requires 0 <= i < |s| => if 'A' <= s[i] <= 'Z' then (s[i] as int + 32) as char else s[i])
  }

  predicate SameEmail(e: string, e': string) {
    Lower(e) == Lower(e')
  }

  predicate EmailInUse(t: Tables, email: string) {
    exists id, c :: id in t.inbounds && c in t.inbounds[id].clients && SameEmail(c.email, email)
  }

  /** A non-empty email in the list is in use already, or twice in the list. */
  predicate EmailClash(t: Tables, clients: seq<Client>) {
    exists i :: 0 <= i < |clients| && clients[i].email != "" &&
                (EmailInUse(t, clients[i].email) ||
                 exists j :: 0 <= j < i && clients[j].email != "" && SameEmail(clients[j].email, clients[i].email))
  }

  predicate SomeKeyEmpty(protocol: Protocol, clients: seq<Client>) {
    exists c :: c in clients && Key(protocol, c) == ""
  }

  /** The id that `AddInbound` assigns: the scan of the sorted ids stops at the first gap from 1 on. */
  ghost function NextId(ids: set<int>): int {
    if exists id :: id in ids && id < 1 then 1 else LeastFree(ids, 1)
  }

  // ----- rows of client_traffics -----

  function NewRow(c: Client): ClientTraffic {
    ClientTraffic(true, 0, 0, 0, c.expiryTime, c.totalGB, c.reset)
  }

  function AddRow(rows: map<RowKey, ClientTraffic>, id: int, c: Client): map<RowKey, ClientTraffic> {
    if (id, c.email) in rows then rows else rows[(id, c.email) := NewRow(c)]
  }

  /** One row for every client; an insert that the unique index refuses is ignored. */
  function AddRows(rows: map<RowKey, ClientTraffic>, id: int, clients: seq<Client>): map<RowKey, ClientTraffic> {
    if |clients| == 0 then rows
    else AddRow(AddRows(rows, id, clients[..|clients| - 1]), id, clients[|clients| - 1])
  }

  function WithEmail(clients: seq<Client>): seq<Client> {
    if |clients| == 0 then []
    else WithEmail(clients[..|clients| - 1]) +
         if clients[|clients| - 1].email != "" then [clients[|clients| - 1]] else []
  }

  function DropRows(rows: map<RowKey, ClientTraffic>, id: int, emails: set<string>): map<RowKey, ClientTraffic> {
    map k | k in rows && !(k.0 == id && k.1 in emails) :: rows[k]
  }

  function DropInboundRows(rows: map<RowKey, ClientTraffic>, id: int): map<RowKey, ClientTraffic> {
    map k | k in rows && k.0 != id :: rows[k]
  }

  function Emails(clients: seq<Client>): set<string> {
    set c | c in clients :: c.email
  }

  /** The clients whose email is not among those given. */
  function NotAmong(clients: seq<Client>, emails: set<string>): seq<Client> {
    if |clients| == 0 then []
    else NotAmong(clients[..|clients| - 1], emails) +
         if clients[|clients| - 1].email !in emails then [clients[|clients| - 1]] else []
  }

  predicate AllNew(rows: map<RowKey, ClientTraffic>, id: int, clients: seq<Client>) {
    && (forall i :: 0 <= i < |clients| ==> (id, clients[i].email) !in rows)
    && (forall i, j :: 0 <= i < j < |clients| ==> clients[i].email != clients[j].email)
  }

  // ----- the requests -----

  ghost function AddInbound(t: Tables, inb: Inbound): (Tables, Outcome) {
    var id := NextId(t.inbounds.Keys);
    if PortTaken(t, inb.listen, inb.port, 0) then (t, PortExists)
    else if EmailClash(t, inb.clients) then (t, DuplicateEmail)
    else if SomeKeyEmpty(inb.protocol, inb.clients) then (t, EmptyClientId)
    else if TagTaken(t, inb.tag, id) then (t, DatabaseError)
    else (Tables(t.inbounds[id := inb], AddRows(t.traffics, id, inb.clients)), Done)
  }

  function DelInbound(t: Tables, id: int): (Tables, Outcome) {
    var rows := DropInboundRows(t.traffics, id);
    if id !in t.inbounds then (Tables(t.inbounds, rows), NotFound)
    else (Tables(t.inbounds - {id}, rows), Done)
  }

  /** The fields that an update copies; `allTime` is not among them. */
  function Updated(old_: Inbound, inb: Inbound): Inbound {
    inb.(allTime := old_.allTime, tag := DeriveTag(inb.listen, inb.port))
  }

  function UpdateInbound(t: Tables, id: int, inb: Inbound): (Tables, Outcome) {
    if PortTaken(t, inb.listen, inb.port, id) then (t, PortExists)
    else if id !in t.inbounds then (t, NotFound)
    else
      var was := t.inbounds[id];
      var kept := DropRows(t.traffics, id, Emails(was.clients) - Emails(inb.clients));
      var added := NotAmong(inb.clients, Emails(was.clients));
      if !AllNew(kept, id, added) then (t, DatabaseError)
      else
        var rows := AddRows(kept, id, added);
        // when the save of the inbound fails, the changes of the rows are committed all the same
        if TagTaken(t, DeriveTag(inb.listen, inb.port), id) then (Tables(t.inbounds, rows), DatabaseError)
        else (Tables(t.inbounds[id := Updated(was, inb)], rows), Done)
  }

  function AddInboundClient(t: Tables, id: int, clients: seq<Client>): (Tables, Outcome) {
    if EmailClash(t, clients) then (t, DuplicateEmail)
    else if id !in t.inbounds then (t, NotFound)
    else if SomeKeyEmpty(t.inbounds[id].protocol, clients) then (t, EmptyClientId)
    else
      var inb := t.inbounds[id];
      (Tables(t.inbounds[id := inb.(clients := inb.clients + clients)],
              AddRows(t.traffics, id, WithEmail(clients))), Done)
  }

  function WithoutKey(protocol: Protocol, clients: seq<Client>, key: string): seq<Client> {
    if |clients| == 0 then []
    else WithoutKey(protocol, clients[..|clients| - 1], key) +
         if Key(protocol, clients[|clients| - 1]) == key then [] else [clients[|clients| - 1]]
  }

  /** The email of the last client with the key, or the empty text. */
  function EmailOfKey(protocol: Protocol, clients: seq<Client>, key: string): string {
    if |clients| == 0 then ""
    else if Key(protocol, clients[|clients| - 1]) == key then clients[|clients| - 1].email
    else EmailOfKey(protocol, clients[..|clients| - 1], key)
  }

  function DelInboundClient(t: Tables, id: int, key: string): (Tables, Outcome) {
    if id !in t.inbounds then (t, NotFound)
    else
      var inb := t.inbounds[id];
      var rest := WithoutKey(inb.protocol, inb.clients, key);
      var email := EmailOfKey(inb.protocol, inb.clients, key);
      if |rest| == 0 then (t, NoClientRemained)
      else if email != "" && (id, email) !in t.traffics then (t, DatabaseError)
      else (Tables(t.inbounds[id := inb.(clients := rest)],
                   if email == "" then t.traffics else t.traffics - {(id, email)}), Done)
  }

  /** The index of the first client with the key, or the length of the list. */
  function IndexOfKey(protocol: Protocol, clients: seq<Client>, key: string): (i: nat)
    ensures i <= |clients|
    ensures i < |clients| ==> Key(protocol, clients[i]) == key
    ensures forall j :: 0 <= j < i ==> Key(protocol, clients[j]) != key
  {
    if |clients| == 0 then 0
    else if Key(protocol, clients[0]) == key then 0
    else 1 + IndexOfKey(protocol, clients[1..], key)
  }

  /** The row of a changed client keeps its counters. */
  function ChangedRow(r: ClientTraffic, c: Client): ClientTraffic {
    r.(enable := true, total := c.totalGB, expiryTime := c.expiryTime, reset := c.reset)
  }

  /** The request carries at least one client; only the first replaces the old one. */
  function UpdateInboundClient(t: Tables, id: int, clients: seq<Client>, key: string): (Tables, Outcome)
    requires |clients| > 0
  {
    if id !in t.inbounds then (t, NotFound)
    else
      var inb, c := t.inbounds[id], clients[0];
      var i := IndexOfKey(inb.protocol, inb.clients, key);
      if i == |inb.clients| || Key(inb.protocol, c) == "" then (t, EmptyClientId)
      else
        var email := inb.clients[i].email;
        if c.email != "" && c.email != email && EmailClash(t, clients) then (t, DuplicateEmail)
        else
          var inbounds := t.inbounds[id := inb.(clients := inb.clients[i := c])];
          if c.email == "" then (Tables(inbounds, t.traffics - {(id, email)}), Done)
          else if email == "" then (Tables(inbounds, AddRow(t.traffics, id, c)), Done)
          else if (id, email) !in t.traffics then (Tables(inbounds, t.traffics), Done)
          else if c.email != email && (id, c.email) in t.traffics then (t, DatabaseError)
          else (Tables(inbounds, (t.traffics - {(id, email)})[(id, c.email) := ChangedRow(t.traffics[(id, email)], c)]), Done)
  }

  // ----- the invariant -----

  /** Inbounds have positive ids, do not clash, and carry the tag of their address. */
  ghost predicate PortsOk(t: Tables) {
    && (forall id :: id in t.inbounds ==> id >= 1 && t.inbounds[id].tag == DeriveTag(t.inbounds[id].listen, t.inbounds[id].port))
    && (forall id, id' :: id in t.inbounds && id' in t.inbounds && id != id' ==>
          !Clash(t.inbounds[id].listen, t.inbounds[id].port, t.inbounds[id'].listen, t.inbounds[id'].port))
  }

  /** Distinct keys, and distinct emails apart from empty ones. */
  ghost predicate ClientsDistinct(protocol: Protocol, clients: seq<Client>) {
    forall i, j :: 0 <= i < j < |clients| ==>
      Key(protocol, clients[i]) != Key(protocol, clients[j]) &&
      (clients[i].email != "" ==> clients[i].email != clients[j].email)
  }

  ghost predicate AllDistinct(t: Tables) {
    && (forall id :: id in t.inbounds ==> ClientsDistinct(t.inbounds[id].protocol, t.inbounds[id].clients))
    && (forall id, id', e :: id in t.inbounds && id' in t.inbounds && id != id' && e != "" ==>
          !(HasEmail(t.inbounds[id].clients, e) && HasEmail(t.inbounds[id'].clients, e)))
  }

  /** An inbound's non-empty client emails are its non-empty row emails, and no row lacks its inbound. */
  ghost predicate EmailsAgree(t: Tables) {
    && (forall id, e :: id in t.inbounds && e != "" ==>
          (HasEmail(t.inbounds[id].clients, e) <==> (id, e) in t.traffics))
    && (forall k :: k in t.traffics ==> k.0 in t.inbounds)
  }

  lemma RowHasClient(t: Tables, k: RowKey)
    requires EmailsAgree(t) && k in t.traffics && k.1 != ""
    ensures k.0 in t.inbounds && HasEmail(t.inbounds[k.0].clients, k.1)
  {
    var id, e := k.0, k.1;
    assert (id, e) in t.traffics;
  }

  ghost predicate Inv(t: Tables) {
    PortsOk(t) && AllDistinct(t) && EmailsAgree(t)
  }

  // ----- runs of requests -----

  datatype Request =
    | ReqAddInbound(inb: Inbound)
    | ReqDelInbound(id: int)
    | ReqUpdateInbound(id: int, inb: Inbound)
    | ReqAddClients(id: int, clients: seq<Client>)
    | ReqDelClient(id: int, key: string)
    | ReqUpdateClient(id: int, clients: seq<Client>, key: string)

  ghost predicate DistinctKeys(protocol: Protocol, clients: seq<Client>) {
    forall i, j :: 0 <= i < j < |clients| ==> Key(protocol, clients[i]) != Key(protocol, clients[j])
  }

  /**
   What the requests do not check and the invariant needs: no client key twice in an inbound, and no
   email of an updated inbound twice or in another inbound. The tag is derived by the controller.
   */
  ghost predicate Allowed(t: Tables, r: Request) {
    match r
    case ReqAddInbound(inb) =>
      DistinctKeys(inb.protocol, inb.clients) && inb.tag == DeriveTag(inb.listen, inb.port)
    case ReqDelInbound(_) => true
    case ReqUpdateInbound(id, inb) =>
      && ClientsDistinct(inb.protocol, inb.clients)
      && forall id', e :: id' in t.inbounds && id' != id && e != "" && HasEmail(inb.clients, e) ==>
           !HasEmail(t.inbounds[id'].clients, e)
    case ReqAddClients(id, clients) =>
      id in t.inbounds ==> DistinctKeys(t.inbounds[id].protocol, t.inbounds[id].clients + clients)
    case ReqDelClient(_, _) => true
    case ReqUpdateClient(id, clients, key) =>
      && |clients| > 0
      && (id in t.inbounds ==>
            var inb := t.inbounds[id];
            var i := IndexOfKey(inb.protocol, inb.clients, key);
            i < |inb.clients| ==> DistinctKeys(inb.protocol, inb.clients[i := clients[0]]))
  }

  ghost function Serve(t: Tables, r: Request): (Tables, Outcome)
    requires Allowed(t, r)
  {
    match r
    case ReqAddInbound(inb) => AddInbound(t, inb)
    case ReqDelInbound(id) => DelInbound(t, id)
    case ReqUpdateInbound(id, inb) => UpdateInbound(t, id, inb)
    case ReqAddClients(id, clients) => AddInboundClient(t, id, clients)
    case ReqDelClient(id, key) => DelInboundClient(t, id, key)
    case ReqUpdateClient(id, clients, key) => UpdateInboundClient(t, id, clients, key)
  }

  // ----- facts about lists and rows -----

  lemma {:induction false} AddRowsKeys(rows: map<RowKey, ClientTraffic>, id: int, clients: seq<Client>)
    ensures forall k :: k in rows ==> k in AddRows(rows, id, clients) && AddRows(rows, id, clients)[k] == rows[k]
    ensures forall k :: k in AddRows(rows, id, clients) <==> k in rows || (k.0 == id && HasEmail(clients, k.1))
  {
    if |clients| == 0 {
    } else {
      var h, c := clients[..|clients| - 1], clients[|clients| - 1];
      AddRowsKeys(rows, id, h);
      EmailSnoc(h, c);
      assert clients == h + [c];
    }
  }

  lemma EmailSnoc(h: seq<Client>, c: Client)
    ensures forall e :: HasEmail(h + [c], e) <==> HasEmail(h, e) || c.email == e
  {
    forall e
      ensures HasEmail(h + [c], e) <==> HasEmail(h, e) || c.email == e
    {
      EmailConcat(h, [c], e);
    }
  }

  lemma EmailConcat(a: seq<Client>, b: seq<Client>, e: string)
    ensures HasEmail(a + b, e) <==> HasEmail(a, e) || HasEmail(b, e)
  {
    if HasEmail(a, e) {
      var c :| c in a && c.email == e;
      assert c in a + b;
    }
    if HasEmail(b, e) {
      var c :| c in b && c.email == e;
      assert c in a + b;
    }
  }

  lemma {:induction false} WithEmailHas(clients: seq<Client>)
    ensures forall e :: HasEmail(WithEmail(clients), e) <==> e != "" && HasEmail(clients, e)
  {
    if |clients| == 0 {
    } else {
      var h, c := clients[..|clients| - 1], clients[|clients| - 1];
      WithEmailHas(h);
      EmailSnoc(h, c);
      EmailSnoc(WithEmail(h), c);
      assert clients == h + [c] && WithEmail(h) + [] == WithEmail(h);
    }
  }

  lemma {:induction false} NotAmongHas(clients: seq<Client>, emails: set<string>)
    ensures forall e :: HasEmail(NotAmong(clients, emails), e) <==> e !in emails && HasEmail(clients, e)
  {
    if |clients| == 0 {
    } else {
      var h, c := clients[..|clients| - 1], clients[|clients| - 1];
      NotAmongHas(h, emails);
      EmailSnoc(h, c);
      EmailSnoc(NotAmong(h, emails), c);
      assert clients == h + [c] && NotAmong(h, emails) + [] == NotAmong(h, emails);
    }
  }

  lemma EmailsHas(clients: seq<Client>)
    ensures forall e :: e in Emails(clients) <==> HasEmail(clients, e)
  {
  }

  lemma HeldIsInUse(t: Tables, id: int, e: string)
    requires id in t.inbounds
    ensures HasEmail(t.inbounds[id].clients, e) ==> EmailInUse(t, e)
  {
    if HasEmail(t.inbounds[id].clients, e) {
      var c :| c in t.inbounds[id].clients && c.email == e;
      assert SameEmail(c.email, e);
    }
  }

  /** A list that passes the check has no email twice, and none that is in use. */
  lemma NoClash(t: Tables, clients: seq<Client>)
    requires !EmailClash(t, clients)
    ensures forall i, j :: 0 <= i < j < |clients| && clients[i].email != "" ==> clients[i].email != clients[j].email
    ensures forall id, e :: id in t.inbounds && e != "" && HasEmail(clients, e) ==> !HasEmail(t.inbounds[id].clients, e)
  {
    forall id, e | id in t.inbounds && e != "" && HasEmail(clients, e)
      ensures !HasEmail(t.inbounds[id].clients, e)
    {
      var i :| 0 <= i < |clients| && clients[i].email == e;
      HeldIsInUse(t, id, e);
      assert !EmailInUse(t, clients[i].email);
    }
    forall i, j | 0 <= i < j < |clients| && clients[i].email != ""
      ensures clients[i].email != clients[j].email
    {
      assert clients[i].email == clients[j].email ==> SameEmail(clients[i].email, clients[j].email);
    }
  }

  // ----- ports and ids -----

  /** The assigned id is free exactly when no smaller id than 1 hides a taken 1. */
  lemma NextIdFree(ids: set<int>)
    ensures NextId(ids) in ids <==> 1 in ids && exists id :: id in ids && id < 1
    ensures (forall id :: id in ids ==> id >= 1) ==>
              NextId(ids) >= 1 && NextId(ids) !in ids && forall k :: 1 <= k < NextId(ids) ==> k in ids
  {
    LeastFreeIsLeast(ids, 1);
  }

  /** While no two inbounds clash, a free address never derives a tag that is taken. */
  lemma TagIsFree(t: Tables, listen: string, port: int, id: int)
    requires PortsOk(t) && !PortTaken(t, listen, port, id)
    requires id == 0 || id in t.inbounds
    ensures !TagTaken(t, DeriveTag(listen, port), id)
  {
    if TagTaken(t, DeriveTag(listen, port), id) {
      var id' :| id' in t.inbounds && id' != id && t.inbounds[id'].tag == DeriveTag(listen, port);
      TagsDiffer(listen, port, t.inbounds[id'].listen, t.inbounds[id'].port);
    }
  }

  // ----- every request keeps the invariant -----

  lemma AddInboundKeeps(t: Tables, inb: Inbound)
    requires Inv(t) && Allowed(t, ReqAddInbound(inb))
    ensures Inv(AddInbound(t, inb).0)
    ensures AddInbound(t, inb).1 != DatabaseError
    ensures AddInbound(t, inb).1 == Done ==>
              var id := NextId(t.inbounds.Keys); id !in t.inbounds && AddInbound(t, inb).0.inbounds == t.inbounds[id := inb]
  {
    var id := NextId(t.inbounds.Keys);
    NextIdFree(t.inbounds.Keys);
    if !PortTaken(t, inb.listen, inb.port, 0) {
      TagIsFree(t, inb.listen, inb.port, 0);
      assert !TagTaken(t, inb.tag, id);
      if !EmailClash(t, inb.clients) && !SomeKeyEmpty(inb.protocol, inb.clients) {
        NoClash(t, inb.clients);
        AddRowsKeys(t.traffics, id, inb.clients);
      }
    }
  }

  lemma DelInboundKeeps(t: Tables, id: int)
    requires Inv(t)
    ensures Inv(DelInbound(t, id).0)
    ensures forall k :: k in DelInbound(t, id).0.traffics ==> k.0 != id
  {
  }

  /** The inbound's rows are those of the given clients, the others are as they were. */
  ghost predicate RowsChanged(rows: map<RowKey, ClientTraffic>, id: int, clients: seq<Client>, rows': map<RowKey, ClientTraffic>) {
    && (forall e :: e != "" ==> (HasEmail(clients, e) <==> (id, e) in rows'))
    && (forall k: RowKey :: k.0 != id ==> (k in rows' <==> k in rows))
    && (forall k :: k in rows && k in rows' ==> rows'[k] == rows[k])
  }

  lemma UpdatedRows(rows: map<RowKey, ClientTraffic>, id: int, was: seq<Client>, clients: seq<Client>)
    requires forall e :: e != "" ==> (HasEmail(was, e) <==> (id, e) in rows)
    ensures var kept := DropRows(rows, id, Emails(was) - Emails(clients));
            RowsChanged(rows, id, clients, AddRows(kept, id, NotAmong(clients, Emails(was))))
  {
    var kept := DropRows(rows, id, Emails(was) - Emails(clients));
    NotAmongHas(clients, Emails(was));
    AddRowsKeys(kept, id, NotAmong(clients, Emails(was)));
    EmailsHas(was);
    EmailsHas(clients);
  }

  ghost predicate TwoEmpty(clients: seq<Client>) {
    exists i, j :: 0 <= i < j < |clients| && clients[i].email == "" && clients[j].email == ""
  }

  /** Two clients without an email, or one and a row without an email. */
  ghost predicate RepeatsEmpty(rows: map<RowKey, ClientTraffic>, id: int, clients: seq<Client>) {
    HasEmail(clients, "") && ((id, "") in rows || TwoEmpty(clients))
  }

  /** Of the clients that an update adds, only those without an email can repeat a key of the index. */
  lemma AllNewIff(rows: map<RowKey, ClientTraffic>, id: int, was: seq<Client>, protocol: Protocol, clients: seq<Client>)
    requires forall e :: e != "" ==> (HasEmail(was, e) <==> (id, e) in rows)
    requires ClientsDistinct(protocol, clients)
    ensures var kept := DropRows(rows, id, Emails(was) - Emails(clients));
            AllNew(kept, id, NotAmong(clients, Emails(was))) <==>
            !(RepeatsEmpty(rows, id, clients) && !HasEmail(was, ""))
  {
    var kept := DropRows(rows, id, Emails(was) - Emails(clients));
    var added := NotAmong(clients, Emails(was));
    EmailsHas(was);
    EmailsHas(clients);
    NotAmongHas(clients, Emails(was));
    NotAmongEmpty(protocol, clients, Emails(was));
    forall i | 0 <= i < |added|
      ensures (id, added[i].email) in kept <==> added[i].email == "" && (id, "") in rows
    {
      assert added[i] in added && HasEmail(added, added[i].email);
    }
  }

  /** The added clients' emails are distinct, but for empty ones, which are all added or none. */
  lemma {:induction false} NotAmongEmpty(protocol: Protocol, clients: seq<Client>, emails: set<string>)
    requires ClientsDistinct(protocol, clients)
    ensures var added := NotAmong(clients, emails);
            (forall i, j :: 0 <= i < j < |added| ==> added[i].email != added[j].email) <==> !TwoEmpty(added)
    ensures "" !in emails ==> (TwoEmpty(NotAmong(clients, emails)) <==> TwoEmpty(clients))
    ensures "" in emails ==> !HasEmail(NotAmong(clients, emails), "")
  {
    NotAmongHas(clients, emails);
    NotAmongDistinct(protocol, clients, emails);
    if "" !in emails {
      EmptyAreAdded(clients, emails);
    }
  }

  lemma {:induction false} NotAmongDistinct(protocol: Protocol, clients: seq<Client>, emails: set<string>)
    requires ClientsDistinct(protocol, clients)
    ensures ClientsDistinct(protocol, NotAmong(clients, emails))
    ensures forall c :: c in NotAmong(clients, emails) ==> c in clients
  {
    if |clients| == 0 {
    } else {
      var h, c := clients[..|clients| - 1], clients[|clients| - 1];
      assert clients == h + [c];
      NotAmongDistinct(protocol, h, emails);
      AppendDistinct(protocol, h, NotAmong(h, emails), c);
      assert NotAmong(h, emails) + [] == NotAmong(h, emails);
    }
  }

  lemma {:induction false} EmptyAreAdded(clients: seq<Client>, emails: set<string>)
    requires "" !in emails
    ensures TwoEmpty(NotAmong(clients, emails)) <==> TwoEmpty(clients)
  {
    if |clients| == 0 {
    } else {
      var h, c := clients[..|clients| - 1], clients[|clients| - 1];
      assert clients == h + [c];
      EmptyAreAdded(h, emails);
      NotAmongHas(h, emails);
      TwoEmptySnoc(h, c);
      TwoEmptySnoc(NotAmong(h, emails), c);
      assert NotAmong(h, emails) + [] == NotAmong(h, emails);
    }
  }

  lemma TwoEmptySnoc(h: seq<Client>, c: Client)
    ensures TwoEmpty(h + [c]) <==> TwoEmpty(h) || (c.email == "" && HasEmail(h, ""))
  {
    var s := h + [c];
    if TwoEmpty(h) {
      var i, j :| 0 <= i < j < |h| && h[i].email == "" && h[j].email == "";
      assert s[i] == h[i] && s[j] == h[j];
    }
    if c.email == "" && HasEmail(h, "") {
      var i :| 0 <= i < |h| && h[i].email == "";
      assert s[i] == h[i] && s[|h|] == c;
    }
    if TwoEmpty(s) {
      var i, j :| 0 <= i < j < |s| && s[i].email == "" && s[j].email == "";
      assert s[i] == h[i] && h[i] in h;
      assert j < |h| ==> s[j] == h[j];
    }
  }

  /** An allowed update fails in the database only for clients without an email that the inbound had none of. */
  lemma UpdateInboundKeeps(t: Tables, id: int, inb: Inbound)
    requires Inv(t) && Allowed(t, ReqUpdateInbound(id, inb))
    ensures Inv(UpdateInbound(t, id, inb).0)
    ensures UpdateInbound(t, id, inb).1 == DatabaseError <==>
            !PortTaken(t, inb.listen, inb.port, id) && id in t.inbounds &&
            !HasEmail(t.inbounds[id].clients, "") && RepeatsEmpty(t.traffics, id, inb.clients)
    ensures UpdateInbound(t, id, inb).1 == DatabaseError ==> UpdateInbound(t, id, inb).0 == t
  {
    if !PortTaken(t, inb.listen, inb.port, id) && id in t.inbounds {
      var was := t.inbounds[id];
      TagIsFree(t, inb.listen, inb.port, id);
      AllNewIff(t.traffics, id, was.clients, inb.protocol, inb.clients);
      UpdatedRows(t.traffics, id, was.clients, inb.clients);
      UpdateKeeps(t, id, Updated(was, inb), UpdateInbound(t, id, inb).0);
    }
  }

  /** An inbound may change address and clients when its rows follow. */
  lemma UpdateKeeps(t: Tables, id: int, inb: Inbound, t': Tables)
    requires Inv(t) && id in t.inbounds && !PortTaken(t, inb.listen, inb.port, id)
    requires inb.tag == DeriveTag(inb.listen, inb.port) && ClientsDistinct(inb.protocol, inb.clients)
    requires forall id', e :: id' in t.inbounds && id' != id && e != "" && HasEmail(inb.clients, e) ==>
               !HasEmail(t.inbounds[id'].clients, e)
    requires t' == t || (t'.inbounds == t.inbounds[id := inb] && RowsChanged(t.traffics, id, inb.clients, t'.traffics))
    ensures Inv(t')
  {
    if t' != t {
      UpdatePortsOk(t, id, inb);
      UpdateDistinct(t, id, inb);
      UpdateAgrees(t, id, inb, t');
    }
  }

  lemma UpdateDistinct(t: Tables, id: int, inb: Inbound)
    requires AllDistinct(t) && id in t.inbounds && ClientsDistinct(inb.protocol, inb.clients)
    requires forall id', e :: id' in t.inbounds && id' != id && e != "" && HasEmail(inb.clients, e) ==>
               !HasEmail(t.inbounds[id'].clients, e)
    ensures AllDistinct(t.(inbounds := t.inbounds[id := inb]))
  {
  }

  lemma UpdateAgrees(t: Tables, id: int, inb: Inbound, t': Tables)
    requires EmailsAgree(t) && id in t.inbounds
    requires t'.inbounds == t.inbounds[id := inb] && RowsChanged(t.traffics, id, inb.clients, t'.traffics)
    ensures EmailsAgree(t')
  {
  }

  lemma UpdatePortsOk(t: Tables, id: int, inb: Inbound)
    requires PortsOk(t) && id in t.inbounds && !PortTaken(t, inb.listen, inb.port, id)
    requires inb.tag == DeriveTag(inb.listen, inb.port)
    ensures PortsOk(t.(inbounds := t.inbounds[id := inb]))
  {
  }

  lemma AddClientsKeeps(t: Tables, id: int, clients: seq<Client>)
    requires Inv(t) && Allowed(t, ReqAddClients(id, clients))
    ensures Inv(AddInboundClient(t, id, clients).0)
  {
    if AddInboundClient(t, id, clients).1 == Done {
      var inb := t.inbounds[id];
      NoClash(t, clients);
      AddRowsKeys(t.traffics, id, WithEmail(clients));
      WithEmailHas(clients);
      DistinctAfterAppend(inb.protocol, inb.clients, clients);
      AddClientsAgrees(t, id, clients, AddInboundClient(t, id, clients).0);
    }
  }

  /** More clients, and rows for those with an email. */
  lemma AddClientsAgrees(t: Tables, id: int, clients: seq<Client>, t': Tables)
    requires Inv(t) && id in t.inbounds
    requires ClientsDistinct(t.inbounds[id].protocol, t.inbounds[id].clients + clients)
    requires forall id', e :: id' in t.inbounds && e != "" && HasEmail(clients, e) ==> !HasEmail(t.inbounds[id'].clients, e)
    requires t'.inbounds == t.inbounds[id := t.inbounds[id].(clients := t.inbounds[id].clients + clients)]
    requires forall k :: k in t'.traffics <==> k in t.traffics || (k.0 == id && k.1 != "" && HasEmail(clients, k.1))
    ensures Inv(t')
  {
    forall e
      ensures HasEmail(t.inbounds[id].clients + clients, e) <==> HasEmail(t.inbounds[id].clients, e) || HasEmail(clients, e)
    {
      EmailConcat(t.inbounds[id].clients, clients, e);
    }
  }

  lemma DistinctAfterAppend(protocol: Protocol, a: seq<Client>, b: seq<Client>)
    requires ClientsDistinct(protocol, a) && DistinctKeys(protocol, a + b)
    requires forall i, j :: 0 <= i < j < |b| && b[i].email != "" ==> b[i].email != b[j].email
    requires forall e :: e != "" && HasEmail(b, e) ==> !HasEmail(a, e)
    ensures ClientsDistinct(protocol, a + b)
  {
    var s := a + b;
    forall i, j | 0 <= i < j < |s|
      ensures Key(protocol, s[i]) != Key(protocol, s[j]) && (s[i].email != "" ==> s[i].email != s[j].email)
    {
      if i < |a| <= j && s[i].email != "" {
        assert HasEmail(a, s[i].email);
        assert s[j] in b;
      } else if |a| <= i {
        assert s[i] == b[i - |a|] && s[j] == b[j - |a|];
      }
    }
  }

  lemma {:induction false} WithoutKeyMembers(protocol: Protocol, clients: seq<Client>, key: string)
    ensures forall c :: c in WithoutKey(protocol, clients, key) <==> c in clients && Key(protocol, c) != key
    ensures (exists c :: c in clients && Key(protocol, c) == key) ==>
              exists c :: c in clients && Key(protocol, c) == key && c.email == EmailOfKey(protocol, clients, key)
    ensures (forall c :: c in clients ==> Key(protocol, c) != key) ==> EmailOfKey(protocol, clients, key) == ""
  {
    if |clients| == 0 {
    } else {
      var h, c := clients[..|clients| - 1], clients[|clients| - 1];
      assert clients == h + [c];
      WithoutKeyMembers(protocol, h, key);
    }
  }

  lemma {:induction false} WithoutKeyDistinct(protocol: Protocol, clients: seq<Client>, key: string)
    requires ClientsDistinct(protocol, clients)
    ensures ClientsDistinct(protocol, WithoutKey(protocol, clients, key))
  {
    if |clients| == 0 {
    } else {
      var h, c := clients[..|clients| - 1], clients[|clients| - 1];
      assert clients == h + [c];
      WithoutKeyDistinct(protocol, h, key);
      WithoutKeyMembers(protocol, h, key);
      AppendDistinct(protocol, h, WithoutKey(protocol, h, key), c);
      assert WithoutKey(protocol, h, key) + [] == WithoutKey(protocol, h, key);
    }
  }

  lemma SameClient(protocol: Protocol, clients: seq<Client>, c: Client, d: Client)
    requires ClientsDistinct(protocol, clients) && c in clients && d in clients
    requires Key(protocol, c) == Key(protocol, d) || (c.email != "" && c.email == d.email)
    ensures c == d
  {
    var i :| 0 <= i < |clients| && clients[i] == c;
    var j :| 0 <= j < |clients| && clients[j] == d;
  }

  /** Deleting by key removes the client with the key, and with it exactly that client's email. */
  lemma WithoutKeyFacts(protocol: Protocol, clients: seq<Client>, key: string)
    requires ClientsDistinct(protocol, clients)
    ensures ClientsDistinct(protocol, WithoutKey(protocol, clients, key))
    ensures forall c :: c in WithoutKey(protocol, clients, key) <==> c in clients && Key(protocol, c) != key
    ensures EmailOfKey(protocol, clients, key) != "" ==> HasEmail(clients, EmailOfKey(protocol, clients, key))
    ensures forall e :: e != "" ==>
              (HasEmail(WithoutKey(protocol, clients, key), e) <==>
               HasEmail(clients, e) && e != EmailOfKey(protocol, clients, key))
  {
    WithoutKeyDistinct(protocol, clients, key);
    WithoutKeyMembers(protocol, clients, key);
    forall e | e != ""
      ensures HasEmail(WithoutKey(protocol, clients, key), e) <==>
              HasEmail(clients, e) && e != EmailOfKey(protocol, clients, key)
    {
      WithoutKeyEmail(protocol, clients, key, e);
    }
  }

  lemma WithoutKeyEmail(protocol: Protocol, clients: seq<Client>, key: string, e: string)
    requires ClientsDistinct(protocol, clients) && e != ""
    ensures HasEmail(WithoutKey(protocol, clients, key), e) <==>
            HasEmail(clients, e) && e != EmailOfKey(protocol, clients, key)
  {
    WithoutKeyMembers(protocol, clients, key);
    if HasEmail(clients, e) {
      var c :| c in clients && c.email == e;
      if Key(protocol, c) == key {
        var d :| d in clients && Key(protocol, d) == key && d.email == EmailOfKey(protocol, clients, key);
        SameClient(protocol, clients, c, d);
        forall x | x in clients && x.email == e
          ensures Key(protocol, x) == key
        {
          SameClient(protocol, clients, c, x);
        }
      } else {
        forall d | d in clients && Key(protocol, d) == key
          ensures d.email != e
        {
          assert d.email == e ==> c == d by {
            if d.email == e {
              SameClient(protocol, clients, c, d);
            }
          }
        }
        assert c in WithoutKey(protocol, clients, key);
      }
    }
  }

  lemma AppendDistinct(protocol: Protocol, h: seq<Client>, w: seq<Client>, c: Client)
    requires ClientsDistinct(protocol, h + [c]) && ClientsDistinct(protocol, w)
    requires forall d :: d in w ==> d in h
    ensures ClientsDistinct(protocol, w + [c])
    ensures c.email != "" ==> !HasEmail(h, c.email)
  {
    var s := h + [c];
    forall d | d in h
      ensures Key(protocol, d) != Key(protocol, c) && (d.email != "" ==> d.email != c.email)
    {
      var i :| 0 <= i < |h| && h[i] == d;
      assert s[i] == d && s[|h|] == c;
    }
  }

  lemma DelClientKeeps(t: Tables, id: int, key: string)
    requires Inv(t)
    ensures Inv(DelInboundClient(t, id, key).0)
    ensures DelInboundClient(t, id, key).1 != DatabaseError
  {
    if id in t.inbounds {
      var inb := t.inbounds[id];
      WithoutKeyFacts(inb.protocol, inb.clients, key);
    }
    if DelInboundClient(t, id, key).1 == Done {
      var inb := t.inbounds[id];
      DelClientAgrees(t, id, WithoutKey(inb.protocol, inb.clients, key), EmailOfKey(inb.protocol, inb.clients, key),
                      DelInboundClient(t, id, key).0);
    }
  }

  /** The row of the deleted client goes with it. */
  lemma DelClientAgrees(t: Tables, id: int, rest: seq<Client>, email: string, t': Tables)
    requires Inv(t) && id in t.inbounds && ClientsDistinct(t.inbounds[id].protocol, rest)
    requires forall e :: e != "" ==> (HasEmail(rest, e) <==> HasEmail(t.inbounds[id].clients, e) && e != email)
    requires t'.inbounds == t.inbounds[id := t.inbounds[id].(clients := rest)]
    requires t'.traffics == if email == "" then t.traffics else t.traffics - {(id, email)}
    ensures Inv(t')
  {
  }

  lemma ReplacedEmails(protocol: Protocol, clients: seq<Client>, i: nat, c: Client)
    requires i < |clients| && ClientsDistinct(protocol, clients)
    ensures forall e :: e != "" ==>
              (HasEmail(clients[i := c], e) <==> e == c.email || (HasEmail(clients, e) && e != clients[i].email))
  {
    var s := clients[i := c];
    forall e | e != ""
      ensures HasEmail(s, e) <==> e == c.email || (HasEmail(clients, e) && e != clients[i].email)
    {
      if HasEmail(s, e) {
        var j :| 0 <= j < |s| && s[j].email == e;
        assert j == i || clients[j] in clients;
      }
      if HasEmail(clients, e) && e != clients[i].email {
        var j :| 0 <= j < |clients| && clients[j].email == e;
        assert s[j] in s;
      }
      assert s[i] in s;
    }
  }

  lemma ReplacedDistinct(protocol: Protocol, clients: seq<Client>, i: nat, c: Client)
    requires i < |clients| && ClientsDistinct(protocol, clients)
    requires DistinctKeys(protocol, clients[i := c])
    requires c.email != "" ==> c.email == clients[i].email || !HasEmail(clients, c.email)
    ensures ClientsDistinct(protocol, clients[i := c])
  {
    var s := clients[i := c];
    forall j, k | 0 <= j < k < |s| && s[j].email != ""
      ensures s[j].email != s[k].email
    {
      assert clients[j] in clients && clients[k] in clients;
      assert clients[j].email != "" ==> clients[j].email != clients[k].email;
    }
  }

  lemma UpdateClientKeeps(t: Tables, id: int, clients: seq<Client>, key: string)
    requires Inv(t) && Allowed(t, ReqUpdateClient(id, clients, key))
    ensures Inv(UpdateInboundClient(t, id, clients, key).0)
    ensures UpdateInboundClient(t, id, clients, key).1 != DatabaseError
  {
    if id in t.inbounds {
      var inb, c := t.inbounds[id], clients[0];
      var i := IndexOfKey(inb.protocol, inb.clients, key);
      if i < |inb.clients| && Key(inb.protocol, c) != "" {
        var email := inb.clients[i].email;
        assert inb.clients[i] in inb.clients && HasEmail(inb.clients, email);
        if c.email == "" || c.email == email || !EmailClash(t, clients) {
          if c.email != "" && c.email != email {
            NoClash(t, clients);
            assert clients[0] in clients && HasEmail(clients, c.email);
          }
          UpdateClientDone(t, id, i, c, UpdateInboundClient(t, id, clients, key).0);
        }
      }
    }
  }

  lemma UpdateClientDone(t: Tables, id: int, i: nat, c: Client, t': Tables)
    requires Inv(t) && id in t.inbounds && i < |t.inbounds[id].clients|
    requires DistinctKeys(t.inbounds[id].protocol, t.inbounds[id].clients[i := c])
    requires c.email != "" && c.email != t.inbounds[id].clients[i].email ==>
               forall id' :: id' in t.inbounds ==> !HasEmail(t.inbounds[id'].clients, c.email)
    requires t'.inbounds == t.inbounds[id := t.inbounds[id].(clients := t.inbounds[id].clients[i := c])]
    requires var email := t.inbounds[id].clients[i].email;
             t'.traffics ==
             if c.email == "" then t.traffics - {(id, email)}
             else if email == "" then AddRow(t.traffics, id, c)
             else if (id, email) !in t.traffics then t.traffics
             else (t.traffics - {(id, email)})[(id, c.email) := ChangedRow(t.traffics[(id, email)], c)]
    ensures Inv(t')
  {
    var inb := t.inbounds[id];
    assert inb.clients[i] in inb.clients && HasEmail(inb.clients, inb.clients[i].email);
    ReplacedEmails(inb.protocol, inb.clients, i, c);
    ReplacedDistinct(inb.protocol, inb.clients, i, c);
    UpdateClientAgrees(t, id, inb.(clients := inb.clients[i := c]), inb.clients[i].email, c, t');
    UpdateClientDistinct(t, id, inb.(clients := inb.clients[i := c]), inb.clients[i].email, c);
  }

  /** The row follows its client: kept, renamed, created or dropped with the email. */
  lemma UpdateClientAgrees(t: Tables, id: int, inb: Inbound, email: string, c: Client, t': Tables)
    requires EmailsAgree(t) && id in t.inbounds
    requires HasEmail(t.inbounds[id].clients, email)
    requires forall e :: e != "" ==>
               (HasEmail(inb.clients, e) <==> e == c.email || (HasEmail(t.inbounds[id].clients, e) && e != email))
    requires t'.inbounds == t.inbounds[id := inb]
    requires t'.traffics ==
             if c.email == "" then t.traffics - {(id, email)}
             else if email == "" then AddRow(t.traffics, id, c)
             else if (id, email) !in t.traffics then t.traffics
             else (t.traffics - {(id, email)})[(id, c.email) := ChangedRow(t.traffics[(id, email)], c)]
    ensures EmailsAgree(t')
  {
  }

  lemma UpdateClientDistinct(t: Tables, id: int, inb: Inbound, email: string, c: Client)
    requires AllDistinct(t) && id in t.inbounds && ClientsDistinct(inb.protocol, inb.clients)
    requires HasEmail(t.inbounds[id].clients, email)
    requires forall e :: e != "" ==>
               (HasEmail(inb.clients, e) <==> e == c.email || (HasEmail(t.inbounds[id].clients, e) && e != email))
    requires c.email != "" && c.email != email ==>
               forall id' :: id' in t.inbounds ==> !HasEmail(t.inbounds[id'].clients, c.email)
    ensures AllDistinct(t.(inbounds := t.inbounds[id := inb]))
  {
  }

  // ----- whole runs -----

  ghost predicate AllowedRun(t: Tables, rs: seq<Request>)
    decreases rs
  {
    |rs| == 0 || (Allowed(t, rs[0]) && AllowedRun(Serve(t, rs[0]).0, rs[1..]))
  }

  ghost function Run(t: Tables, rs: seq<Request>): Tables
    requires AllowedRun(t, rs)
    decreases rs
  {
    if |rs| == 0 then t else Run(Serve(t, rs[0]).0, rs[1..])
  }

  lemma ServeKeepsInv(t: Tables, r: Request)
    requires Inv(t) && Allowed(t, r)
    ensures Inv(Serve(t, r).0)
  {
    match r
    case ReqAddInbound(inb) => AddInboundKeeps(t, inb);
    case ReqDelInbound(id) => DelInboundKeeps(t, id);
    case ReqUpdateInbound(id, inb) => UpdateInboundKeeps(t, id, inb);
    case ReqAddClients(id, clients) => AddClientsKeeps(t, id, clients);
    case ReqDelClient(id, key) => DelClientKeeps(t, id, key);
    case ReqUpdateClient(id, clients, key) => UpdateClientKeeps(t, id, clients, key);
  }

  /** From the empty database on, every run of allowed requests leaves a consistent database. */
  lemma {:induction false} RunKeepsInv(t: Tables, rs: seq<Request>)
    requires Inv(t) && AllowedRun(t, rs)
    ensures Inv(Run(t, rs))
    decreases rs
  {
    if |rs| == 0 {
    } else {
      ServeKeepsInv(t, rs[0]);
      RunKeepsInv(Serve(t, rs[0]).0, rs[1..]);
    }
  }

  lemma EmptyIsConsistent()
    ensures Inv(Tables(map[], map[]))
  {
  }

  /** After any such run no two inbounds can listen at once, and no two share a tag. */
  lemma RunHasNoClash(t: Tables, rs: seq<Request>, id: int, id': int)
    requires Inv(t) && AllowedRun(t, rs)
    requires id in Run(t, rs).inbounds && id' in Run(t, rs).inbounds && id != id'
    ensures var (a, b) := (Run(t, rs).inbounds[id], Run(t, rs).inbounds[id']);
            !Clash(a.listen, a.port, b.listen, b.port) && a.tag != b.tag
  {
    RunKeepsInv(t, rs);
    var a, b := Run(t, rs).inbounds[id], Run(t, rs).inbounds[id'];
    if a.tag == b.tag {
      TagsDiffer(a.listen, a.port, b.listen, b.port);
      assert false;
    }
  }

  ghost predicate SameCounters(r: ClientTraffic, r': ClientTraffic) {
    r'.up == r.up && r'.down == r.down && r'.allTime == r.allTime
  }

  /** Every row of `rows` that is still there in `rows'` has its counters. */
  ghost predicate CountersKept(rows: map<RowKey, ClientTraffic>, rows': map<RowKey, ClientTraffic>) {
    forall k :: k in rows && k in rows' ==> SameCounters(rows[k], rows'[k])
  }

  /** A request changes no counter of a row that stays, for any tables at all. */
  lemma KeptRowsKeepCounters(t: Tables, r: Request)
    requires Allowed(t, r)
    ensures CountersKept(t.traffics, Serve(t, r).0.traffics)
  {
    match r
    case ReqAddInbound(inb) => AddInboundKeepsRows(t, inb);
    case ReqDelInbound(_) =>
    case ReqUpdateInbound(id, inb) => UpdateInboundKeepsRows(t, id, inb);
    case ReqAddClients(id, clients) => AddClientsKeepsRows(t, id, clients);
    case ReqDelClient(_, _) =>
    case ReqUpdateClient(id, clients, key) => UpdateClientKeepsRows(t, id, clients, key);
  }

  lemma AddInboundKeepsRows(t: Tables, inb: Inbound)
    ensures CountersKept(t.traffics, AddInbound(t, inb).0.traffics)
  {
    AddRowsKeys(t.traffics, NextId(t.inbounds.Keys), inb.clients);
  }

  lemma UpdateInboundKeepsRows(t: Tables, id: int, inb: Inbound)
    ensures CountersKept(t.traffics, UpdateInbound(t, id, inb).0.traffics)
  {
    if id in t.inbounds {
      KeptRowsSame(t.traffics, id, t.inbounds[id].clients, inb.clients);
    }
  }

  lemma AddClientsKeepsRows(t: Tables, id: int, clients: seq<Client>)
    ensures CountersKept(t.traffics, AddInboundClient(t, id, clients).0.traffics)
  {
    AddRowsKeys(t.traffics, id, WithEmail(clients));
  }

  lemma UpdateClientKeepsRows(t: Tables, id: int, clients: seq<Client>, key: string)
    requires Allowed(t, ReqUpdateClient(id, clients, key))
    ensures CountersKept(t.traffics, UpdateInboundClient(t, id, clients, key).0.traffics)
  {
  }

  /** An update of an inbound touches no row that it keeps. */
  lemma KeptRowsSame(rows: map<RowKey, ClientTraffic>, id: int, was: seq<Client>, clients: seq<Client>)
    ensures var rows' := AddRows(DropRows(rows, id, Emails(was) - Emails(clients)), id, NotAmong(clients, Emails(was)));
            forall k :: k in rows && k in rows' ==> rows'[k] == rows[k]
  {
    NotAmongHas(clients, Emails(was));
    AddRowsKeys(DropRows(rows, id, Emails(was) - Emails(clients)), id, NotAmong(clients, Emails(was)));
  }

  /** A renamed client's row moves to the new email with its counters. */
  lemma RenamedRowKeepsCounters(t: Tables, id: int, clients: seq<Client>, key: string)
    requires Inv(t) && |clients| > 0 && UpdateInboundClient(t, id, clients, key).1 == Done
    requires clients[0].email != ""
    ensures var inb := t.inbounds[id];
            var email := inb.clients[IndexOfKey(inb.protocol, inb.clients, key)].email;
            var rows := UpdateInboundClient(t, id, clients, key).0.traffics;
            email != "" ==>
              && (id, email) in t.traffics && (id, clients[0].email) in rows
              && SameCounters(t.traffics[(id, email)], rows[(id, clients[0].email)])
              && (email != clients[0].email ==> (id, email) !in rows)
  {
    var inb := t.inbounds[id];
    var c := inb.clients[IndexOfKey(inb.protocol, inb.clients, key)];
    assert c in inb.clients && HasEmail(inb.clients, c.email);
  }

  // ----- where the code promises less -----

  /** `AddInbound` also creates a row for an empty email. */
  lemma AddInboundEmptyEmail(t: Tables, inb: Inbound)
    requires Inv(t) && Allowed(t, ReqAddInbound(inb)) && AddInbound(t, inb).1 == Done
    ensures (NextId(t.inbounds.Keys), "") in AddInbound(t, inb).0.traffics <==> HasEmail(inb.clients, "")
  {
    NextIdFree(t.inbounds.Keys);
    AddRowsKeys(t.traffics, NextId(t.inbounds.Keys), inb.clients);
  }

  /** So does `UpdateInbound`, for a client without an email when there was none before. */
  lemma UpdateInboundEmptyEmail(t: Tables, id: int, inb: Inbound)
    requires UpdateInbound(t, id, inb).1 == Done
    ensures (id, "") in UpdateInbound(t, id, inb).0.traffics <==>
            if HasEmail(t.inbounds[id].clients, "") then (id, "") in t.traffics && HasEmail(inb.clients, "")
            else (id, "") in t.traffics || HasEmail(inb.clients, "")
  {
    var was := t.inbounds[id].clients;
    var kept := DropRows(t.traffics, id, Emails(was) - Emails(inb.clients));
    EmailsHas(was);
    EmailsHas(inb.clients);
    NotAmongHas(inb.clients, Emails(was));
    AddRowsKeys(kept, id, NotAmong(inb.clients, Emails(was)));
  }

  /** The other requests create no such row. */
  lemma OthersAddNoEmptyEmail(t: Tables, r: Request, id: int)
    requires Allowed(t, r) && !r.ReqAddInbound? && !r.ReqUpdateInbound?
    ensures (id, "") in Serve(t, r).0.traffics ==> (id, "") in t.traffics
  {
    match r
    case ReqDelInbound(_) =>
    case ReqAddClients(id', clients) =>
      WithEmailHas(clients);
      AddRowsKeys(t.traffics, id', WithEmail(clients));
    case ReqDelClient(_, _) =>
    case ReqUpdateClient(_, _, _) =>
  }

  /**
   Deleting by a key that several clients share drops the row of the last of them only: the emails
   still agree exactly when the clients with the key have no other non-empty email.
   */
  lemma DelClientAgreesIff(t: Tables, id: int, key: string)
    requires EmailsAgree(t) && DelInboundClient(t, id, key).1 == Done
    requires forall c, d :: c in t.inbounds[id].clients && d in t.inbounds[id].clients && c.email == d.email && c.email != "" ==> c == d
    ensures var inb := t.inbounds[id];
            EmailsAgree(DelInboundClient(t, id, key).0) <==>
            forall c :: c in inb.clients && Key(inb.protocol, c) == key && c.email != "" ==>
                          c.email == EmailOfKey(inb.protocol, inb.clients, key)
  {
    var inb := t.inbounds[id];
    var rest, email := WithoutKey(inb.protocol, inb.clients, key), EmailOfKey(inb.protocol, inb.clients, key);
    WithoutKeyMembers(inb.protocol, inb.clients, key);
    var t' := DelInboundClient(t, id, key).0;
    if EmailsAgree(t') {
      forall c | c in inb.clients && Key(inb.protocol, c) == key && c.email != ""
        ensures c.email == email
      {
        assert HasEmail(inb.clients, c.email);
        assert !HasEmail(rest, c.email);
        assert (id, c.email) in t.traffics && (id, c.email) !in t'.traffics;
      }
    }
    if forall c :: c in inb.clients && Key(inb.protocol, c) == key && c.email != "" ==> c.email == email {
      forall e | e != ""
        ensures HasEmail(rest, e) <==> (id, e) in t'.traffics
      {
        if (id, e) in t'.traffics {
          var c :| c in inb.clients && c.email == e;
          assert c in rest;
        }
      }
    }
  }
}
