/**
 What each request refuses and what it stores, field by field: addresses, letters of emails, client
 keys by protocol, and the columns of inbounds and rows, without the notions of the ledger.
 */
module RequestFields {
  import opened Panel
  import Ledger
  import PanelRuns
  import Traffic

  // ----- the notions spelled out -----

  predicate Anywhere(listen: string) {
    listen == "" || listen == "0.0.0.0" || listen == "::" || listen == "::0"
  }

  /** Another inbound has the port, on the same address or on all. */
  ghost predicate Occupied(t: Tables, listen: string, port: int, own: int) {
    exists id :: id in t.inbounds && id != own && t.inbounds[id].port == port &&
                 (Anywhere(listen) || Anywhere(t.inbounds[id].listen) || t.inbounds[id].listen == listen)
  }

  /** The same text but for the case of ASCII letters. */
  predicate SameLetters(e: string, f: string) {
    && |e| == |f|
    && forall i :: 0 <= i < |e| ==>
         || e[i] == f[i]
         || ('A' <= e[i] <= 'Z' && f[i] as int == e[i] as int + 32)
         || ('A' <= f[i] <= 'Z' && e[i] as int == f[i] as int + 32)
  }

  /** A client's email is some other client's, in the database or before it in the list. */
  ghost predicate Taken(t: Tables, clients: seq<Client>) {
    exists i :: 0 <= i < |clients| && clients[i].email != "" &&
      ((exists id, c :: id in t.inbounds && c in t.inbounds[id].clients && SameLetters(c.email, clients[i].email)) ||
       (exists j :: 0 <= j < i && clients[j].email != "" && SameLetters(clients[j].email, clients[i].email)))
  }

  predicate Blank(protocol: Protocol, c: Client) {
    match protocol
    case Trojan => c.password == ""
    case Shadowsocks => c.email == ""
    case _ => c.id == ""
  }

  predicate HasKey(protocol: Protocol, c: Client, key: string) {
    match protocol
    case Trojan => c.password == key
    case Shadowsocks => c.email == key
    case _ => c.id == key
  }

  predicate NewRowOf(r: ClientTraffic, c: Client) {
    && r.enable && r.up == 0 && r.down == 0 && r.allTime == 0
    && r.total == c.totalGB && r.expiryTime == c.expiryTime && r.reset == c.reset
  }

  lemma SameLettersIff(e: string, f: string)
    ensures Ledger.SameEmail(e, f) <==> SameLetters(e, f)
  {
    var l, m := Ledger.Lower(e), Ledger.Lower(f);
    if |e| == |f| {
      forall i | 0 <= i < |e|
        ensures l[i] == m[i] <==>
                || e[i] == f[i]
                || ('A' <= e[i] <= 'Z' && f[i] as int == e[i] as int + 32)
                || ('A' <= f[i] <= 'Z' && e[i] as int == f[i] as int + 32)
      {
      }
      if SameLetters(e, f) {
        assert l == m;
      }
    }
  }

  lemma TakenIff(t: Tables, clients: seq<Client>)
    ensures Ledger.EmailClash(t, clients) <==> Taken(t, clients)
  {
    forall e, f
      ensures Ledger.SameEmail(e, f) <==> SameLetters(e, f)
    {
      SameLettersIff(e, f);
    }
    forall i | 0 <= i < |clients|
      ensures Ledger.EmailInUse(t, clients[i].email) <==>
              exists id, c :: id in t.inbounds && c in t.inbounds[id].clients && SameLetters(c.email, clients[i].email)
    {
    }
  }

  lemma OccupiedIff(t: Tables, listen: string, port: int, own: int)
    requires Ledger.PortsOk(t) && (own == 0 || own in t.inbounds || own < 0)
    ensures Ledger.PortTaken(t, listen, port, own) <==> Occupied(t, listen, port, own)
  {
    forall id | id in t.inbounds
      ensures id >= 1
    {
    }
  }

  /** The tag that the controller gives to a port on all interfaces or on one address, by its text. */
  lemma TagOfPort(listen: string, port: nat)
    ensures exists digits :: IsNumeral(digits, port) &&
              DeriveTag(listen, port) == (if Anywhere(listen) then "inbound-" else "inbound-" + listen + ":") + digits
  {
    DecimalIsNumeral(port);
    assert IsNumeral(Decimal(port), port);
  }

  lemma BlankIff(protocol: Protocol, clients: seq<Client>)
    ensures Ledger.SomeKeyEmpty(protocol, clients) <==> exists c :: c in clients && Blank(protocol, c)
  {
    assert forall c :: Key(protocol, c) == "" <==> Blank(protocol, c);
  }

  // ----- AddInbound -----

  lemma AddInboundRefuses(t: Tables, inb: Inbound)
    requires Ledger.Inv(t) && Ledger.Allowed(t, Ledger.ReqAddInbound(inb))
    ensures var (t', outcome) := Ledger.AddInbound(t, inb);
            var (port, email, key) := (Occupied(t, inb.listen, inb.port, 0), Taken(t, inb.clients),
                                       exists c :: c in inb.clients && Blank(inb.protocol, c));
            && (outcome == PortExists <==> port)
            && (outcome == DuplicateEmail <==> !port && email)
            && (outcome == EmptyClientId <==> !port && !email && key)
            && (outcome == Done <==> !port && !email && !key)
            && (outcome != Done ==> t' == t)
  {
    Ledger.AddInboundKeeps(t, inb);
    OccupiedIff(t, inb.listen, inb.port, 0);
    TakenIff(t, inb.clients);
    BlankIff(inb.protocol, inb.clients);
  }

  /** The least unused positive id, the inbound as it is, and a new row for every client with an email. */
  lemma AddInboundStores(t: Tables, inb: Inbound)
    requires Ledger.Inv(t) && Ledger.Allowed(t, Ledger.ReqAddInbound(inb)) && Ledger.AddInbound(t, inb).1 == Done
    ensures var (t', id) := (Ledger.AddInbound(t, inb).0, Ledger.NextId(t.inbounds.Keys));
            && id >= 1 && id !in t.inbounds && (forall k :: 1 <= k < id ==> k in t.inbounds)
            && t'.inbounds == t.inbounds[id := inb]
            && (forall k :: k in t.traffics ==> k in t'.traffics && t'.traffics[k] == t.traffics[k])
            && (forall k :: k in t'.traffics && k !in t.traffics ==> k.0 == id && exists c :: c in inb.clients && c.email == k.1)
            && forall c :: c in inb.clients && c.email != "" ==>
                 (id, c.email) in t'.traffics && NewRowOf(t'.traffics[(id, c.email)], c)
  {
    var id := Ledger.NextId(t.inbounds.Keys);
    Ledger.NextIdFree(t.inbounds.Keys);
    Ledger.NoClash(t, inb.clients);
    Ledger.AddRowsKeys(t.traffics, id, inb.clients);
    NewRowsOf(t.traffics, id, inb.clients);
  }

  /** Clients with new and distinct emails get rows of their own. */
  lemma NewRowsOf(rows: map<RowKey, ClientTraffic>, id: int, clients: seq<Client>)
    requires forall i, j :: 0 <= i < j < |clients| && clients[i].email != "" ==> clients[i].email != clients[j].email
    requires forall i :: 0 <= i < |clients| && clients[i].email != "" ==> (id, clients[i].email) !in rows
    ensures forall c :: c in clients && c.email != "" ==>
              var rows' := Ledger.AddRows(rows, id, clients); (id, c.email) in rows' && NewRowOf(rows'[(id, c.email)], c)
  {
    forall c | c in clients && c.email != ""
      ensures (id, c.email) in Ledger.AddRows(rows, id, clients)
      ensures NewRowOf(Ledger.AddRows(rows, id, clients)[(id, c.email)], c)
    {
      var i :| 0 <= i < |clients| && clients[i] == c;
      forall j | 0 <= j < i
        ensures clients[j].email != clients[i].email
      {
        assert clients[j].email != "" ==> clients[j].email != clients[i].email;
      }
      PanelRuns.AddRowsValue(rows, id, clients, i);
    }
  }

  // ----- DelInbound -----

  lemma DelInboundStores(t: Tables, id: int)
    ensures var (t', outcome) := Ledger.DelInbound(t, id);
            && (outcome == Done <==> id in t.inbounds) && (outcome == NotFound <==> id !in t.inbounds)
            && (forall i :: i in t'.inbounds <==> i in t.inbounds && i != id)
            && (forall i :: i in t'.inbounds ==> t'.inbounds[i] == t.inbounds[i])
            && (forall k :: k in t'.traffics <==> k in t.traffics && k.0 != id)
            && forall k :: k in t'.traffics ==> t'.traffics[k] == t.traffics[k]
  {
  }

  // ----- UpdateInbound -----

  lemma UpdateInboundRefuses(t: Tables, id: int, inb: Inbound)
    requires Ledger.Inv(t) && Ledger.Allowed(t, Ledger.ReqUpdateInbound(id, inb))
    ensures var (t', outcome) := Ledger.UpdateInbound(t, id, inb);
            && (outcome == PortExists <==> Occupied(t, inb.listen, inb.port, id))
            && (outcome == NotFound <==> !Occupied(t, inb.listen, inb.port, id) && id !in t.inbounds)
            && (outcome == Done || outcome == PortExists || outcome == NotFound || outcome == DatabaseError)
            && (outcome != Done ==> t' == t)
  {
    Ledger.UpdateInboundKeeps(t, id, inb);
    if id > 0 && id !in t.inbounds {
      OccupiedElsewhere(t, inb.listen, inb.port, id);
    } else {
      OccupiedIff(t, inb.listen, inb.port, id);
    }
  }

  lemma OccupiedElsewhere(t: Tables, listen: string, port: int, own: int)
    requires own > 0
    ensures Ledger.PortTaken(t, listen, port, own) <==> Occupied(t, listen, port, own)
  {
  }

  /** Every field from the request, but the lifetime total; the tag from the address. */
  lemma UpdateInboundStores(t: Tables, id: int, inb: Inbound)
    requires Ledger.Inv(t) && Ledger.Allowed(t, Ledger.ReqUpdateInbound(id, inb)) && Ledger.UpdateInbound(t, id, inb).1 == Done
    ensures var t' := Ledger.UpdateInbound(t, id, inb).0;
            && id in t'.inbounds && id in t.inbounds && t'.inbounds.Keys == t.inbounds.Keys
            && (forall i :: i in t.inbounds && i != id ==> t'.inbounds[i] == t.inbounds[i])
            && var n := t'.inbounds[id];
            && n.up == inb.up && n.down == inb.down && n.total == inb.total && n.enable == inb.enable
            && n.expiryTime == inb.expiryTime && n.deviceLimit == inb.deviceLimit && n.listen == inb.listen
            && n.port == inb.port && n.protocol == inb.protocol && n.clients == inb.clients
            && n.allTime == t.inbounds[id].allTime
            && n.tag == (if Anywhere(inb.listen) then "inbound-" + Decimal(inb.port)
                         else "inbound-" + inb.listen + ":" + Decimal(inb.port))
  {
  }

  /** Rows of emails that are gone go, those that stay are not touched, and new clients get new ones. */
  lemma UpdateInboundRows(t: Tables, id: int, inb: Inbound)
    requires Ledger.Inv(t) && Ledger.Allowed(t, Ledger.ReqUpdateInbound(id, inb)) && Ledger.UpdateInbound(t, id, inb).1 == Done
    ensures var rows := Ledger.UpdateInbound(t, id, inb).0.traffics;
            && (forall k: RowKey :: k.0 != id ==> (k in rows <==> k in t.traffics))
            && (forall e :: e != "" ==> ((id, e) in rows <==> exists c :: c in inb.clients && c.email == e))
            && (forall k :: k in rows && k in t.traffics ==> rows[k] == t.traffics[k])
            && forall c :: c in inb.clients && c.email != "" && (id, c.email) !in t.traffics ==> NewRowOf(rows[(id, c.email)], c)
  {
    var was := t.inbounds[id].clients;
    var kept := Ledger.DropRows(t.traffics, id, Ledger.Emails(was) - Ledger.Emails(inb.clients));
    var added := Ledger.NotAmong(inb.clients, Ledger.Emails(was));
    Ledger.UpdatedRows(t.traffics, id, was, inb.clients);
    Ledger.EmailsHas(was);
    Ledger.NotAmongDistinct(inb.protocol, inb.clients, Ledger.Emails(was));
    PanelRuns.NotAmongMembers(inb.clients, Ledger.Emails(was));
    AddedAreNew(kept, id, added);
  }

  lemma AddedAreNew(kept: map<RowKey, ClientTraffic>, id: int, added: seq<Client>)
    requires Ledger.AllNew(kept, id, added)
    ensures forall c :: c in added && c.email != "" ==>
              var rows := Ledger.AddRows(kept, id, added); (id, c.email) in rows && NewRowOf(rows[(id, c.email)], c)
  {
    NewRowsOf(kept, id, added);
  }

  // ----- AddInboundClient -----

  lemma AddClientsRefuses(t: Tables, id: int, clients: seq<Client>)
    ensures var (t', outcome) := Ledger.AddInboundClient(t, id, clients);
            && (outcome == DuplicateEmail <==> Taken(t, clients))
            && (outcome == NotFound <==> !Taken(t, clients) && id !in t.inbounds)
            && (outcome == EmptyClientId <==>
                !Taken(t, clients) && id in t.inbounds && exists c :: c in clients && Blank(t.inbounds[id].protocol, c))
            && (outcome == Done || outcome == DuplicateEmail || outcome == NotFound || outcome == EmptyClientId)
            && (outcome != Done ==> t' == t)
  {
    TakenIff(t, clients);
    if id in t.inbounds {
      BlankIff(t.inbounds[id].protocol, clients);
    }
  }

  /** The clients come after the old ones, with new rows for those with an email; nothing else changes. */
  lemma AddClientsStores(t: Tables, id: int, clients: seq<Client>)
    requires Ledger.Inv(t) && Ledger.AddInboundClient(t, id, clients).1 == Done
    ensures var t' := Ledger.AddInboundClient(t, id, clients).0;
            && id in t.inbounds && t'.inbounds == t.inbounds[id := t.inbounds[id].(clients := t.inbounds[id].clients + clients)]
            && (forall k :: k in t.traffics ==> k in t'.traffics && t'.traffics[k] == t.traffics[k])
            && (forall k :: k in t'.traffics && k !in t.traffics ==>
                  k.0 == id && k.1 != "" && exists c :: c in clients && c.email == k.1)
            && forall c :: c in clients && c.email != "" ==>
                 (id, c.email) in t'.traffics && NewRowOf(t'.traffics[(id, c.email)], c)
  {
    var w := Ledger.WithEmail(clients);
    Ledger.NoClash(t, clients);
    Ledger.AddRowsKeys(t.traffics, id, w);
    Ledger.WithEmailHas(clients);
    PanelRuns.WithEmailMembers(clients);
    PanelRuns.WithEmailDistinct(clients);
    forall i | 0 <= i < |w|
      ensures (id, w[i].email) !in t.traffics
    {
      assert w[i] in w && HasEmail(clients, w[i].email);
    }
    NewRowsOf(t.traffics, id, w);
  }

  // ----- DelInboundClient -----

  lemma DelClientRefuses(t: Tables, id: int, key: string)
    requires Ledger.Inv(t)
    ensures var (t', outcome) := Ledger.DelInboundClient(t, id, key);
            && (outcome == NotFound <==> id !in t.inbounds)
            && (outcome == NoClientRemained <==>
                id in t.inbounds && forall c :: c in t.inbounds[id].clients ==> HasKey(t.inbounds[id].protocol, c, key))
            && (outcome == Done || outcome == NotFound || outcome == NoClientRemained)
            && (outcome != Done ==> t' == t)
  {
    Ledger.DelClientKeeps(t, id, key);
    if id in t.inbounds {
      var inb := t.inbounds[id];
      Ledger.WithoutKeyMembers(inb.protocol, inb.clients, key);
      KeyIff(inb.protocol, key);
      var rest := Ledger.WithoutKey(inb.protocol, inb.clients, key);
      if |rest| > 0 {
        assert rest[0] in rest;
      }
    }
  }

  lemma KeyIff(protocol: Protocol, key: string)
    ensures forall c :: Key(protocol, c) == key <==> HasKey(protocol, c, key)
  {
  }

  lemma {:induction false} WithoutKeyCuts(protocol: Protocol, clients: seq<Client>, key: string, i: nat)
    requires i < |clients| && forall j :: 0 <= j < |clients| ==> (Key(protocol, clients[j]) == key <==> j == i)
    ensures Ledger.WithoutKey(protocol, clients, key) == clients[..i] + clients[i + 1..]
    ensures Ledger.EmailOfKey(protocol, clients, key) == clients[i].email
    decreases |clients|
  {
    var h, c := clients[..|clients| - 1], clients[|clients| - 1];
    if i == |clients| - 1 {
      NobodyHasKey(protocol, h, key);
      assert clients[..i] == h && clients[i + 1..] == [] && h + [] == h;
    } else {
      assert h[i] == clients[i] && Key(protocol, c) != key;
      WithoutKeyCuts(protocol, h, key, i);
      assert clients[..i] == h[..i] && clients[i + 1..] == h[i + 1..] + [c];
    }
  }

  lemma {:induction false} NobodyHasKey(protocol: Protocol, clients: seq<Client>, key: string)
    requires forall i :: 0 <= i < |clients| ==> Key(protocol, clients[i]) != key
    ensures Ledger.WithoutKey(protocol, clients, key) == clients && Ledger.EmailOfKey(protocol, clients, key) == ""
  {
    if |clients| == 0 {
    } else {
      var h, c := clients[..|clients| - 1], clients[|clients| - 1];
      NobodyHasKey(protocol, h, key);
      assert clients == h + [c];
    }
  }

  /** The client that the key names, among those of an inbound. */
  ghost predicate Names(t: Tables, id: int, key: string, i: int) {
    id in t.inbounds && 0 <= i < |t.inbounds[id].clients| && HasKey(t.inbounds[id].protocol, t.inbounds[id].clients[i], key)
  }

  /** The client with the key is cut out of the list, and its row goes. */
  lemma DelClientStores(t: Tables, id: int, key: string, i: nat)
    requires Ledger.Inv(t) && Ledger.DelInboundClient(t, id, key).1 == Done && Names(t, id, key, i)
    ensures var (t', inb) := (Ledger.DelInboundClient(t, id, key).0, t.inbounds[id]);
            && t'.inbounds == t.inbounds[id := inb.(clients := inb.clients[..i] + inb.clients[i + 1..])]
            && t'.traffics == if inb.clients[i].email == "" then t.traffics else t.traffics - {(id, inb.clients[i].email)}
  {
    var inb := t.inbounds[id];
    KeyIff(inb.protocol, key);
    forall j | 0 <= j < |inb.clients|
      ensures Key(inb.protocol, inb.clients[j]) == key <==> j == i
    {
      assert Key(inb.protocol, inb.clients[i]) == key;
    }
    WithoutKeyCuts(inb.protocol, inb.clients, key, i);
  }

  /** A key that no client has changes nothing. */
  lemma DelNobody(t: Tables, id: int, key: string)
    requires forall i :: !Names(t, id, key, i)
    ensures Ledger.DelInboundClient(t, id, key).0 == t
  {
    if id in t.inbounds {
      var inb := t.inbounds[id];
      KeyIff(inb.protocol, key);
      forall i | 0 <= i < |inb.clients|
        ensures Key(inb.protocol, inb.clients[i]) != key
      {
        assert !Names(t, id, key, i);
      }
      NobodyHasKey(inb.protocol, inb.clients, key);
      SameInboundStored(t, id);
    }
  }

  lemma SameInboundStored(t: Tables, id: int)
    requires id in t.inbounds
    ensures t.inbounds[id := t.inbounds[id].(clients := t.inbounds[id].clients)] == t.inbounds
  {
  }

  // ----- UpdateInboundClient -----

  lemma NamedIndex(t: Tables, id: int, key: string, i: int)
    requires Ledger.AllDistinct(t) && Names(t, id, key, i)
    ensures Ledger.IndexOfKey(t.inbounds[id].protocol, t.inbounds[id].clients, key) == i
  {
    var inb := t.inbounds[id];
    KeyIff(inb.protocol, key);
    assert Key(inb.protocol, inb.clients[i]) == key;
  }

  lemma UpdateClientRefuses(t: Tables, id: int, clients: seq<Client>, key: string)
    requires Ledger.Inv(t) && Ledger.Allowed(t, Ledger.ReqUpdateClient(id, clients, key))
    ensures var (t', outcome) := Ledger.UpdateInboundClient(t, id, clients, key);
            && (outcome == NotFound <==> id !in t.inbounds)
            && (outcome == EmptyClientId <==>
                id in t.inbounds && (Blank(t.inbounds[id].protocol, clients[0]) || forall i :: !Names(t, id, key, i)))
            && (outcome == DuplicateEmail <==>
                exists i :: Names(t, id, key, i) && !Blank(t.inbounds[id].protocol, clients[0]) && clients[0].email != "" &&
                            clients[0].email != t.inbounds[id].clients[i].email && Taken(t, clients))
            && (outcome == Done || outcome == NotFound || outcome == EmptyClientId || outcome == DuplicateEmail)
            && (outcome != Done ==> t' == t)
  {
    Ledger.UpdateClientKeeps(t, id, clients, key);
    TakenIff(t, clients);
    if id in t.inbounds {
      var inb := t.inbounds[id];
      KeyIff(inb.protocol, key);
      KeyIff(inb.protocol, "");
      assert Key(inb.protocol, clients[0]) == "" <==> Blank(inb.protocol, clients[0]);
      var i := Ledger.IndexOfKey(inb.protocol, inb.clients, key);
      if i < |inb.clients| {
        assert Names(t, id, key, i);
        forall j | Names(t, id, key, j)
          ensures j == i
        {
          NamedIndex(t, id, key, j);
        }
      } else {
        assert forall j :: 0 <= j < |inb.clients| ==> !Names(t, id, key, j);
      }
    }
  }

  /** The client is replaced where it is; other inbounds and other rows stay. */
  lemma UpdateClientStores(t: Tables, id: int, clients: seq<Client>, key: string, i: int)
    requires Ledger.Inv(t) && Ledger.Allowed(t, Ledger.ReqUpdateClient(id, clients, key))
    requires Ledger.UpdateInboundClient(t, id, clients, key).1 == Done && Names(t, id, key, i)
    ensures var (t', c, was) := (Ledger.UpdateInboundClient(t, id, clients, key).0, clients[0], t.inbounds[id].clients[i].email);
            && t'.inbounds == t.inbounds[id := t.inbounds[id].(clients := t.inbounds[id].clients[i := c])]
            && (forall k :: k != (id, was) && k != (id, c.email) ==> (k in t'.traffics <==> k in t.traffics))
            && (forall k :: k != (id, was) && k != (id, c.email) && k in t'.traffics ==> t'.traffics[k] == t.traffics[k])
            && (was != c.email && was != "" ==> (id, was) !in t'.traffics)
  {
    NamedIndex(t, id, key, i);
    var was := t.inbounds[id].clients[i].email;
    assert t.inbounds[id].clients[i] in t.inbounds[id].clients && HasEmail(t.inbounds[id].clients, was);
    RowReplaced(t.traffics, id, was, clients[0], Ledger.UpdateInboundClient(t, id, clients, key).0.traffics);
  }

  /** In every case of the update only the rows of the old and the new email change. */
  lemma RowReplaced(rows: map<RowKey, ClientTraffic>, id: int, was: string, c: Client, rows': map<RowKey, ClientTraffic>)
    requires was != "" ==> (id, was) in rows
    requires rows' == if c.email == "" then rows - {(id, was)}
                      else if was == "" then Ledger.AddRow(rows, id, c)
                      else (rows - {(id, was)})[(id, c.email) := Ledger.ChangedRow(rows[(id, was)], c)]
    ensures forall k :: k != (id, was) && k != (id, c.email) ==> (k in rows' <==> k in rows)
    ensures forall k :: k != (id, was) && k != (id, c.email) && k in rows' ==> rows'[k] == rows[k]
    ensures was != c.email && was != "" ==> (id, was) !in rows'
  {
  }

  /**
   The row of a client with an email: enabled, with the new quota, expiry and period, and with the counters
   of the old row, or none if the client had no email before.
   */
  lemma UpdateClientRow(t: Tables, id: int, clients: seq<Client>, key: string, i: int)
    requires Ledger.Inv(t) && Ledger.Allowed(t, Ledger.ReqUpdateClient(id, clients, key))
    requires Ledger.UpdateInboundClient(t, id, clients, key).1 == Done && Names(t, id, key, i) && clients[0].email != ""
    ensures var (rows, c, was) := (Ledger.UpdateInboundClient(t, id, clients, key).0.traffics, clients[0], t.inbounds[id].clients[i].email);
            && (id, c.email) in rows
            && var r := rows[(id, c.email)];
            && r.enable && r.total == c.totalGB && r.expiryTime == c.expiryTime && r.reset == c.reset
            && (was == "" ==> r.up == 0 && r.down == 0 && r.allTime == 0)
            && (was != "" ==> (id, was) in t.traffics && r.up == t.traffics[(id, was)].up
                              && r.down == t.traffics[(id, was)].down && r.allTime == t.traffics[(id, was)].allTime)
  {
    NamedIndex(t, id, key, i);
    var inb, c := t.inbounds[id], clients[0];
    var was := inb.clients[i].email;
    if was != "" {
      assert inb.clients[i] in inb.clients && HasEmail(inb.clients, was);
    } else {
      Ledger.NoClash(t, clients);
      assert clients[0] in clients && HasEmail(clients, c.email);
      assert (id, c.email) !in t.traffics;
    }
  }

  // ----- whole runs -----

  /** After every run any two inbounds have different ports, or both listen on one address, and on different ones. */
  lemma RunHasNoSharedAddress(t: Tables, rs: seq<Ledger.Request>, id: int, id': int)
    requires Ledger.Inv(t) && Ledger.AllowedRun(t, rs)
    requires id in Ledger.Run(t, rs).inbounds && id' in Ledger.Run(t, rs).inbounds && id != id'
    ensures var (a, b) := (Ledger.Run(t, rs).inbounds[id], Ledger.Run(t, rs).inbounds[id']);
            || a.port != b.port
            || (!Anywhere(a.listen) && !Anywhere(b.listen) && a.listen != b.listen)
  {
    Ledger.RunHasNoClash(t, rs, id, id');
  }

  /** No row without its client, no email twice, no row behind its counters. */
  ghost predicate RowsInOrder(t: Tables) {
    && (forall id, e :: id in t.inbounds && e != "" ==> ((id, e) in t.traffics <==> exists c :: c in t.inbounds[id].clients && c.email == e))
    && (forall k :: k in t.traffics ==> k.0 in t.inbounds && k.1 != "")
    && (forall k :: k in t.traffics ==>
          t.traffics[k].up >= 0 && t.traffics[k].down >= 0 && t.traffics[k].up + t.traffics[k].down <= t.traffics[k].allTime)
  }

  ghost predicate EmailsUnique(t: Tables) {
    forall id, i, id', j :: id in t.inbounds && id' in t.inbounds && 0 <= i < |t.inbounds[id].clients| && 0 <= j < |t.inbounds[id'].clients|
                            && (id != id' || i != j) && t.inbounds[id].clients[i].email != "" ==>
      t.inbounds[id].clients[i].email != t.inbounds[id'].clients[j].email
  }

  /** Every client with an email has a row that expires with it. */
  ghost predicate ExpiresWithRow(t: Tables) {
    forall id, c :: id in t.inbounds && c in t.inbounds[id].clients && c.email != "" ==>
      (id, c.email) in t.traffics && t.traffics[(id, c.email)].expiryTime == c.expiryTime
  }

  /**
   After every history of requests, ticks, resets and clean-ups the rows are exactly those of the clients,
   emails are unique and lifetime totals cover the counters; and unless an inbound update edits the expiry
   of a client that stays, every client expires with its row.
   */
  lemma HistoryFields(t: Tables, es: seq<PanelRuns.Event>)
    requires PanelRuns.Consistent(t) && PanelRuns.AllowedHistory(t, es)
    ensures RowsInOrder(PanelRuns.History(t, es)) && EmailsUnique(PanelRuns.History(t, es))
    ensures ExpiresWithRow(t) && PanelRuns.AllLeaveExpiries(t, es) ==> ExpiresWithRow(PanelRuns.History(t, es))
  {
    PanelRuns.HistoryKeepsConsistent(t, es);
    ConsistentFields(PanelRuns.History(t, es));
    ExpiresWithRowIff(t);
    ExpiresWithRowIff(PanelRuns.History(t, es));
    if ExpiresWithRow(t) && PanelRuns.AllLeaveExpiries(t, es) {
      PanelRuns.HistoryKeepsExpiries(t, es);
    }
  }

  lemma ExpiresWithRowIff(t: Tables)
    ensures ExpiresWithRow(t) <==> Traffic.ExpiriesAgree(t)
  {
    forall id | id in t.inbounds
      ensures Traffic.RowsFollow(t.traffics, id, t.inbounds[id].clients) <==>
              forall c :: c in t.inbounds[id].clients && c.email != "" ==>
                (id, c.email) in t.traffics && t.traffics[(id, c.email)].expiryTime == c.expiryTime
    {
    }
  }

  lemma ConsistentFields(t: Tables)
    requires PanelRuns.Consistent(t)
    ensures RowsInOrder(t) && EmailsUnique(t)
  {
    forall id, i, id', j | id in t.inbounds && id' in t.inbounds && 0 <= i < |t.inbounds[id].clients| && 0 <= j < |t.inbounds[id'].clients|
                           && (id != id' || i != j) && t.inbounds[id].clients[i].email != ""
      ensures t.inbounds[id].clients[i].email != t.inbounds[id'].clients[j].email
    {
      var c, d := t.inbounds[id].clients[i], t.inbounds[id'].clients[j];
      if id != id' {
        assert c in t.inbounds[id].clients && d in t.inbounds[id'].clients;
        assert c.email == d.email ==> HasEmail(t.inbounds[id].clients, c.email) && HasEmail(t.inbounds[id'].clients, c.email);
      } else {
        SameInbound(t.inbounds[id].protocol, t.inbounds[id].clients, i, j);
      }
    }
  }

  lemma SameInbound(protocol: Protocol, clients: seq<Client>, i: nat, j: nat)
    requires Ledger.ClientsDistinct(protocol, clients) && i < |clients| && j < |clients| && i != j
    requires clients[i].email != ""
    ensures clients[i].email != clients[j].email
  {
    if j < i {
      assert clients[j].email != "" ==> clients[j].email != clients[i].email;
    }
  }
}
