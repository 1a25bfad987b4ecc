/** `InboundService`: the requests on inbounds and clients, step by step on the two tables. */
module InboundServices {
  import opened Panel
  import Ledger

  class InboundService {
    var inbounds: map<int, Inbound>
    var traffics: map<RowKey, ClientTraffic>

    function Tables(): Tables
      reads this
    {
      Panel.Tables(inbounds, traffics)
    }

    constructor ()
      ensures Tables() == Panel.Tables(map[], map[])
    {
      inbounds, traffics := map[], map[];
    }

    // ----- checks -----

    method CheckPortExist(listen: string, port: int, ignoreId: int) returns (exist: bool)
      ensures exist == Ledger.PortTaken(Tables(), listen, port, ignoreId)
    {
      if Wildcard(listen) {
        exist := exists id :: id in inbounds && inbounds[id].port == port && (ignoreId > 0 ==> id != ignoreId);
      } else {
        exist := exists id :: id in inbounds && inbounds[id].port == port &&
                              (inbounds[id].listen == listen || Wildcard(inbounds[id].listen)) &&
                              (ignoreId > 0 ==> id != ignoreId);
      }
    }

    /** The first client whose non-empty email is in use or repeated. */
    method CheckEmailsExist(clients: seq<Client>) returns (email: string)
      ensures email != "" <==> Ledger.EmailClash(Tables(), clients)
      ensures email != "" ==> HasEmail(clients, email)
    {
      var emails: seq<string> := [];
      for i := 0 to |clients|
        invariant forall e :: e in emails <==> exists j :: 0 <= j < i && clients[j].email != "" && clients[j].email == e
        invariant forall k :: 0 <= k < i && clients[k].email != "" ==>
                    !Ledger.EmailInUse(Tables(), clients[k].email) &&
                    forall j :: 0 <= j < k && clients[j].email != "" ==> !Ledger.SameEmail(clients[j].email, clients[k].email)
      {
        var e := clients[i].email;
        if e != "" {
          if (exists e' :: e' in emails && Ledger.SameEmail(e', e)) || Ledger.EmailInUse(Tables(), e) {
            return e;
          }
          emails := emails + [e];
        }
      }
      email := "";
    }

    /** The check on client ids that comes before anything is stored. */
    method CheckKeys(protocol: Protocol, clients: seq<Client>) returns (ok: bool)
      ensures ok == !Ledger.SomeKeyEmpty(protocol, clients)
    {
      for i := 0 to |clients|
        invariant forall c :: c in clients[..i] ==> Key(protocol, c) != ""
      {
        if Key(protocol, clients[i]) == "" {
          return false;
        }
      }
      assert clients[..|clients|] == clients;
      ok := true;
    }

    // ----- rows -----

    method AddClientStat(id: int, c: Client) returns (ok: bool)
      modifies this`traffics
      ensures ok == ((id, c.email) !in old(traffics))
      ensures traffics == Ledger.AddRow(old(traffics), id, c)
    {
      ok := (id, c.email) !in traffics;
      if ok {
        traffics := traffics[(id, c.email) := ClientTraffic(true, 0, 0, 0, c.expiryTime, c.totalGB, c.reset)];
      }
    }

    method DelClientStat(id: int, email: string)
      modifies this`traffics
      ensures traffics == old(traffics) - {(id, email)}
    {
      traffics := traffics - {(id, email)};
    }

    /** `UpdateClientStat`: the unique index refuses a second row for the new email. */
    method UpdateClientStat(id: int, email: string, c: Client) returns (ok: bool)
      modifies this`traffics
      ensures ok == ((id, email) in old(traffics) && c.email != email ==> (id, c.email) !in old(traffics))
      ensures traffics ==
              if ok && (id, email) in old(traffics)
              then (old(traffics) - {(id, email)})[(id, c.email) := Ledger.ChangedRow(old(traffics)[(id, email)], c)]
              else old(traffics)
    {
      ok := true;
      if (id, email) in traffics {
        if c.email != email && (id, c.email) in traffics {
          return false;
        }
        var r := traffics[(id, email)];
        traffics := (traffics - {(id, email)})[(id, c.email) :=
          r.(enable := true, total := c.totalGB, expiryTime := c.expiryTime, reset := c.reset)];
      }
    }

    // ----- requests on inbounds -----

    /** The ids in ascending order. */
    method SortedIds() returns (ids: seq<int>)
      ensures forall i, j :: 0 <= i < j < |ids| ==> ids[i] < ids[j]
      ensures forall id :: id in ids <==> id in inbounds
    {
      var rest := inbounds.Keys;
      ids := [];
      while exists id :: id in rest
        invariant forall i, j :: 0 <= i < j < |ids| ==> ids[i] < ids[j]
        invariant forall id :: id in inbounds <==> id in ids || id in rest
        invariant forall i, id :: 0 <= i < |ids| && id in rest ==> ids[i] < id
        decreases rest
      {
        LeastExists(rest);
        var least :| least in rest && forall id :: id in rest ==> least <= id;
        ids := ids + [least];
        rest := rest - {least};
      }
    }

    method NextFreeId() returns (nextId: int)
      ensures nextId == Ledger.NextId(inbounds.Keys)
    {
      var ids := SortedIds();
      nextId := 1;
      var i := 0;
      while i < |ids|
        invariant 0 <= i <= |ids| && nextId == i + 1
        invariant forall j :: 0 <= j < i ==> ids[j] == j + 1
      {
        if ids[i] != nextId {
          break;
        }
        nextId := nextId + 1;
        i := i + 1;
      }
      GapIsNextId(inbounds.Keys, ids, i);
    }

    method AddInbound(inb: Inbound) returns (outcome: Outcome)
      modifies this
      ensures (Tables(), outcome) == Ledger.AddInbound(old(Tables()), inb)
    {
      var exist := CheckPortExist(inb.listen, inb.port, 0);
      if exist {
        return PortExists;
      }
      var email := CheckEmailsExist(inb.clients);
      if email != "" {
        return DuplicateEmail;
      }
      var keysOk := CheckKeys(inb.protocol, inb.clients);
      if !keysOk {
        return EmptyClientId;
      }
      var nextId := NextFreeId();
      if Ledger.TagTaken(Tables(), inb.tag, nextId) {
        return DatabaseError;
      }
      inbounds := inbounds[nextId := inb];
      for i := 0 to |inb.clients|
        invariant inbounds == old(inbounds)[nextId := inb]
        invariant traffics == Ledger.AddRows(old(traffics), nextId, inb.clients[..i])
      {
        var _ := AddClientStat(nextId, inb.clients[i]);
        assert inb.clients[..i + 1][..i] == inb.clients[..i];
      }
      assert inb.clients[..|inb.clients|] == inb.clients;
      outcome := Done;
    }

    method DelInbound(id: int) returns (outcome: Outcome)
      modifies this
      ensures (Tables(), outcome) == Ledger.DelInbound(old(Tables()), id)
    {
      traffics := map k | k in traffics && k.0 != id :: traffics[k];
      if id !in inbounds {
        return NotFound;
      }
      inbounds := inbounds - {id};
      outcome := Done;
    }

    method EmailExists(clients: seq<Client>, email: string) returns (emailExists: bool)
      ensures emailExists <==> email in Ledger.Emails(clients)
    {
      emailExists := false;
      for j := 0 to |clients|
        invariant !emailExists && forall k :: 0 <= k < j ==> clients[k].email != email
      {
        if clients[j].email == email {
          return true;
        }
      }
    }

    /** The first loop of `updateClientTraffics`. */
    method DropGoneClients(id: int, oldClients: seq<Client>, newClients: seq<Client>)
      modifies this`traffics
      ensures traffics == Ledger.DropRows(old(traffics), id, Ledger.Emails(oldClients) - Ledger.Emails(newClients))
    {
      ghost var was := traffics;
      for i := 0 to |oldClients|
        invariant traffics == Ledger.DropRows(was, id, Ledger.Emails(oldClients[..i]) - Ledger.Emails(newClients))
      {
        var emailExists := EmailExists(newClients, oldClients[i].email);
        EmailsSnoc(oldClients, i);
        if !emailExists {
          DelClientStat(id, oldClients[i].email);
        }
      }
      assert oldClients[..|oldClients|] == oldClients;
    }

    /** The second loop of `updateClientTraffics`. */
    method AddNewClients(id: int, oldClients: seq<Client>, newClients: seq<Client>) returns (ok: bool)
      modifies this`traffics
      ensures var added := Ledger.NotAmong(newClients, Ledger.Emails(oldClients));
              ok == Ledger.AllNew(old(traffics), id, added) && (ok ==> traffics == Ledger.AddRows(old(traffics), id, added))
    {
      ghost var kept, emails := traffics, Ledger.Emails(oldClients);
      for i := 0 to |newClients|
        invariant traffics == Ledger.AddRows(kept, id, Ledger.NotAmong(newClients[..i], emails))
        invariant Ledger.AllNew(kept, id, Ledger.NotAmong(newClients[..i], emails))
      {
        var emailExists := EmailExists(oldClients, newClients[i].email);
        ghost var h := Ledger.NotAmong(newClients[..i], emails);
        NotAmongSnoc(newClients, i, emails);
        if !emailExists {
          AllNewSnoc(kept, id, h, newClients[i]);
          ok := AddClientStat(id, newClients[i]);
          if !ok {
            NotAllNew(kept, id, newClients, i + 1, emails);
            return;
          }
        }
      }
      assert newClients[..|newClients|] == newClients;
      ok := true;
    }

    /** Rows of emails that are gone are dropped, rows for new emails are inserted. */
    method UpdateClientTraffics(id: int, oldClients: seq<Client>, newClients: seq<Client>) returns (ok: bool)
      modifies this`traffics
      ensures var kept := Ledger.DropRows(old(traffics), id, Ledger.Emails(oldClients) - Ledger.Emails(newClients));
              var added := Ledger.NotAmong(newClients, Ledger.Emails(oldClients));
              ok == Ledger.AllNew(kept, id, added) && (ok ==> traffics == Ledger.AddRows(kept, id, added))
    {
      DropGoneClients(id, oldClients, newClients);
      ok := AddNewClients(id, oldClients, newClients);
    }

    method UpdateInbound(id: int, inb: Inbound) returns (outcome: Outcome)
      modifies this
      ensures (Tables(), outcome) == Ledger.UpdateInbound(old(Tables()), id, inb)
    {
      var exist := CheckPortExist(inb.listen, inb.port, id);
      if exist {
        return PortExists;
      }
      if id !in inbounds {
        return NotFound;
      }
      var oldInbound := inbounds[id];
      var rollback := traffics;
      var ok := UpdateClientTraffics(id, oldInbound.clients, inb.clients);
      if !ok {
        traffics := rollback;
        return DatabaseError;
      }
      var tag := if Wildcard(inb.listen) then "inbound-" + Decimal(inb.port)
                 else "inbound-" + inb.listen + ":" + Decimal(inb.port);
      if Ledger.TagTaken(Tables(), tag, id) {
        return DatabaseError;
      }
      inbounds := inbounds[id := oldInbound.(
        up := inb.up, down := inb.down, total := inb.total, enable := inb.enable, expiryTime := inb.expiryTime,
        deviceLimit := inb.deviceLimit, listen := inb.listen, port := inb.port, protocol := inb.protocol,
        clients := inb.clients, tag := tag)];
      outcome := Done;
    }

    // ----- requests on clients -----

    method AddInboundClient(id: int, clients: seq<Client>) returns (outcome: Outcome)
      modifies this
      ensures (Tables(), outcome) == Ledger.AddInboundClient(old(Tables()), id, clients)
    {
      var email := CheckEmailsExist(clients);
      if email != "" {
        return DuplicateEmail;
      }
      if id !in inbounds {
        return NotFound;
      }
      var oldInbound := inbounds[id];
      var keysOk := CheckKeys(oldInbound.protocol, clients);
      if !keysOk {
        return EmptyClientId;
      }
      for i := 0 to |clients|
        invariant inbounds == old(inbounds)
        invariant traffics == Ledger.AddRows(old(traffics), id, Ledger.WithEmail(clients[..i]))
      {
        assert clients[..i + 1][..i] == clients[..i];
        ghost var h := Ledger.WithEmail(clients[..i]);
        if clients[i].email != "" {
          var _ := AddClientStat(id, clients[i]);
          assert (h + [clients[i]])[..|h|] == h;
        } else {
          assert h + [] == h;
        }
      }
      assert clients[..|clients|] == clients;
      inbounds := inbounds[id := oldInbound.(clients := oldInbound.clients + clients)];
      outcome := Done;
    }

    method DelInboundClient(id: int, clientId: string) returns (outcome: Outcome)
      modifies this
      ensures (Tables(), outcome) == Ledger.DelInboundClient(old(Tables()), id, clientId)
    {
      if id !in inbounds {
        return NotFound;
      }
      var oldInbound := inbounds[id];
      var clients, protocol := oldInbound.clients, oldInbound.protocol;
      var newClients: seq<Client> := [];
      var email := "";
      for i := 0 to |clients|
        invariant newClients == Ledger.WithoutKey(protocol, clients[..i], clientId)
        invariant email == Ledger.EmailOfKey(protocol, clients[..i], clientId)
      {
        assert clients[..i + 1][..i] == clients[..i];
        if Key(protocol, clients[i]) == clientId {
          email := clients[i].email;
          assert newClients + [] == newClients;
        } else {
          newClients := newClients + [clients[i]];
        }
      }
      assert clients[..|clients|] == clients;
      if |newClients| == 0 {
        return NoClientRemained;
      }
      if email != "" {
        if (id, email) !in traffics {
          return DatabaseError;
        }
        DelClientStat(id, email);
      }
      inbounds := inbounds[id := oldInbound.(clients := newClients)];
      outcome := Done;
    }

    method UpdateInboundClient(id: int, clients: seq<Client>, clientId: string) returns (outcome: Outcome)
      requires |clients| > 0
      modifies this
      ensures (Tables(), outcome) == Ledger.UpdateInboundClient(old(Tables()), id, clients, clientId)
    {
      if id !in inbounds {
        return NotFound;
      }
      var oldInbound := inbounds[id];
      var oldClients, protocol := oldInbound.clients, oldInbound.protocol;
      var oldEmail, newClientId := "", "";
      var clientIndex := -1;
      for index := 0 to |oldClients|
        invariant clientIndex == -1 && (index > 0 ==> newClientId == Key(protocol, clients[0]))
        invariant forall j :: 0 <= j < index ==> Key(protocol, oldClients[j]) != clientId
      {
        newClientId := Key(protocol, clients[0]);
        if clientId == Key(protocol, oldClients[index]) {
          oldEmail := oldClients[index].email;
          clientIndex := index;
          break;
        }
      }
      ghost var i := Ledger.IndexOfKey(protocol, oldClients, clientId);
      assert clientIndex == (if i == |oldClients| then -1 else i);
      if newClientId == "" || clientIndex == -1 {
        return EmptyClientId;
      }
      if clients[0].email != "" && clients[0].email != oldEmail {
        var email := CheckEmailsExist(clients);
        if email != "" {
          return DuplicateEmail;
        }
      }
      if clients[0].email != "" {
        if oldEmail != "" {
          var ok := UpdateClientStat(id, oldEmail, clients[0]);
          if !ok {
            return DatabaseError;
          }
        } else {
          var _ := AddClientStat(id, clients[0]);
        }
      } else {
        DelClientStat(id, oldEmail);
      }
      inbounds := inbounds[id := oldInbound.(clients := oldClients[clientIndex := clients[0]])];
      outcome := Done;
    }
  }

  // ----- why the loops compute what they should -----

  /** Where the scan of the sorted ids stops. */
  lemma GapIsNextId(ids: set<int>, sorted: seq<int>, i: nat)
    requires forall j, k :: 0 <= j < k < |sorted| ==> sorted[j] < sorted[k]
    requires forall id :: id in sorted <==> id in ids
    requires i <= |sorted| && (forall j :: 0 <= j < i ==> sorted[j] == j + 1)
    requires i < |sorted| ==> sorted[i] != i + 1
    ensures i + 1 == Ledger.NextId(ids)
  {
    forall j | 0 <= j < |sorted| && i > 0
      ensures sorted[j] >= 1
    {
      assert sorted[0] == 1;
      assert j > 0 ==> sorted[0] < sorted[j];
    }
    if forall id :: id in ids ==> id >= 1 {
      forall m | 1 <= m < i + 1
        ensures m in ids
      {
        assert sorted[m - 1] == m;
      }
      forall j | 0 <= j < |sorted|
        ensures sorted[j] != i + 1
      {
        assert sorted[j] in ids;
        if j >= i {
          assert sorted[i] in ids;
          assert i > 0 ==> sorted[i - 1] == i && sorted[i - 1] < sorted[i];
          assert j > i ==> sorted[i] < sorted[j];
        }
      }
      LeastFreeUnique(ids, 1, i + 1);
    }
  }

  lemma EmailsSnoc(clients: seq<Client>, i: nat)
    requires i < |clients|
    ensures Ledger.Emails(clients[..i + 1]) == Ledger.Emails(clients[..i]) + {clients[i].email}
  {
    assert clients[..i + 1] == clients[..i] + [clients[i]];
    Ledger.EmailSnoc(clients[..i], clients[i]);
    Ledger.EmailsHas(clients[..i]);
    Ledger.EmailsHas(clients[..i + 1]);
  }

  lemma NotAmongSnoc(clients: seq<Client>, i: nat, emails: set<string>)
    requires i < |clients|
    ensures var h := Ledger.NotAmong(clients[..i], emails);
            if clients[i].email in emails then Ledger.NotAmong(clients[..i + 1], emails) == h
            else Ledger.NotAmong(clients[..i + 1], emails) == h + [clients[i]] && (h + [clients[i]])[..|h|] == h
  {
    var h := Ledger.NotAmong(clients[..i], emails);
    assert clients[..i + 1][..i] == clients[..i];
    assert h + [] == h;
  }

  lemma AllNewSnoc(kept: map<RowKey, ClientTraffic>, id: int, h: seq<Client>, c: Client)
    requires Ledger.AllNew(kept, id, h)
    ensures Ledger.AllNew(kept, id, h + [c]) <==> (id, c.email) !in Ledger.AddRows(kept, id, h)
  {
    Ledger.AddRowsKeys(kept, id, h);
    if Ledger.AllNew(kept, id, h + [c]) {
      NewEmailIsNew(kept, id, h, c);
    } else if (id, c.email) !in Ledger.AddRows(kept, id, h) {
      AppendNew(kept, id, h, c);
    }
  }

  lemma NewEmailIsNew(kept: map<RowKey, ClientTraffic>, id: int, h: seq<Client>, c: Client)
    requires Ledger.AllNew(kept, id, h + [c])
    ensures (id, c.email) !in kept && !HasEmail(h, c.email)
  {
    var s := h + [c];
    assert (id, s[|h|].email) !in kept;
    forall d | d in h
      ensures d.email != c.email
    {
      var i :| 0 <= i < |h| && h[i] == d;
      assert s[i].email != s[|h|].email;
    }
  }

  lemma AppendNew(kept: map<RowKey, ClientTraffic>, id: int, h: seq<Client>, c: Client)
    requires Ledger.AllNew(kept, id, h) && (id, c.email) !in kept && !HasEmail(h, c.email)
    ensures Ledger.AllNew(kept, id, h + [c])
  {
    var s := h + [c];
    forall i | 0 <= i < |s|
      ensures (id, s[i].email) !in kept
    {
      assert i < |h| ==> s[i] == h[i];
    }
    forall i, j | 0 <= i < j < |s|
      ensures s[i].email != s[j].email
    {
      assert s[i] == h[i] && h[i] in h;
      assert j < |h| ==> s[j] == h[j];
    }
  }

  lemma {:induction false} NotAllNew(kept: map<RowKey, ClientTraffic>, id: int, clients: seq<Client>, i: nat, emails: set<string>)
    requires i <= |clients| && !Ledger.AllNew(kept, id, Ledger.NotAmong(clients[..i], emails))
    ensures !Ledger.AllNew(kept, id, Ledger.NotAmong(clients, emails))
    decreases |clients| - i
  {
    if i == |clients| {
      assert clients[..i] == clients;
    } else {
      var a, b := Ledger.NotAmong(clients[..i], emails), Ledger.NotAmong(clients[..i + 1], emails);
      assert clients[..i + 1][..i] == clients[..i];
      assert a <= b;
      assert forall k :: 0 <= k < |a| ==> b[k] == a[k];
      NotAllNew(kept, id, clients, i + 1, emails);
    }
  }
}
