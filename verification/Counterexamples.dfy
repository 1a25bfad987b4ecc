/** The smallest databases at which the panel does not do what it is for. */
module Counterexamples {
  import opened Panel
  import opened Depleted
  import Ledger
  import PanelRuns
  import Traffic
  import XrayConfig

  function Named(email: string): Client {
    Client(email, "", email, true, 0, 0, 0, 0)
  }

  function Listening(port: int, clients: seq<Client>): Inbound {
    Inbound(0, 0, 0, 0, true, 0, 0, "", port, VLESS, DeriveTag("", port), clients)
  }

  function Row(enable: bool): ClientTraffic {
    ClientTraffic(enable, 0, 0, 0, 0, 0, 0)
  }

  // ----- one inbound with one client -----

  function Single(c: Client, r: ClientTraffic): Tables {
    Tables(map[1 := Listening(1, [c])], map[(1, c.email) := r])
  }

  lemma OneEmail(c: Client)
    ensures forall e :: HasEmail([c], e) <==> e == c.email
  {
    assert c in [c];
  }

  lemma SingleIsConsistent(c: Client, r: ClientTraffic)
    requires c.email != "" && r.up >= 0 && r.down >= 0 && r.up + r.down <= r.allTime
    ensures PanelRuns.Consistent(Single(c, r))
    ensures c.expiryTime == r.expiryTime ==> Traffic.ExpiriesAgree(Single(c, r))
  {
    OneEmail(c);
    var t := Single(c, r);
    assert Ledger.PortsOk(t) && Ledger.AllDistinct(t);
  }

  const DAILY: Client := Named("a").(expiryTime := Traffic.DAY, reset := 1)

  const DAILY_ROW: ClientTraffic := ClientTraffic(true, 5, 5, 10, Traffic.DAY, 0, 1)

  /** A daily client one day after its expiry: renewed in both places, and disabled by the same tick. */
  lemma RenewedAndDisabled()
    ensures var (t, now) := (Single(DAILY, DAILY_ROW), 2 * Traffic.DAY);
            var t' := Traffic.Tick(t, [], [], now);
            && Traffic.Clean(t)
            && t'.traffics[(1, "a")] == DAILY_ROW.(up := 0, down := 0, expiryTime := now, enable := false)
            && |t'.inbounds[1].clients| == 1 && t'.inbounds[1].clients[0] == DAILY.(expiryTime := now)
  {
    var t, now := Single(DAILY, DAILY_ROW), 2 * Traffic.DAY;
    SingleIsConsistent(DAILY, DAILY_ROW);
    assert Traffic.Bump(Traffic.DAY, Traffic.DAY, now) == now;
    Traffic.NothingReported(t, now);
  }

  /** An update of the inbound that moves its client's expiry: the row keeps the old one. */
  lemma EditedExpiry()
    ensures var t := Single(Named("a"), Row(true));
            var inb := Listening(1, [Named("a").(expiryTime := 5)]);
            && PanelRuns.Consistent(t) && Traffic.ExpiriesAgree(t) && Ledger.Allowed(t, Ledger.ReqUpdateInbound(1, inb))
            && Ledger.UpdateInbound(t, 1, inb).1 == Done && !Traffic.ExpiriesAgree(Ledger.UpdateInbound(t, 1, inb).0)
  {
    var t, c := Single(Named("a"), Row(true)), Named("a").(expiryTime := 5);
    SingleIsConsistent(Named("a"), Row(true));
    UpdateOfSingle(Named("a"), Row(true), [c]);
    OneEmail(Named("a"));
    OneEmail(c);
    Ledger.AllNewIff(t.traffics, 1, [Named("a")], VLESS, [c]);
    PanelRuns.UpdateInboundExpiriesIff(t, 1, Listening(1, [c]));
    assert c in [c];
  }

  /** The inbound's own address is free for its update. */
  lemma UpdateOfSingle(c: Client, r: ClientTraffic, clients: seq<Client>)
    ensures !Ledger.PortTaken(Single(c, r), "", 1, 1) && !Ledger.TagTaken(Single(c, r), DeriveTag("", 1), 1)
  {
  }

  /** An update that brings two clients without an email: the index refuses the second row. */
  lemma TwoNameless()
    ensures var t := Single(Named("a"), Row(true));
            var inb := Listening(1, [Named("x").(email := ""), Named("y").(email := "")]);
            && Ledger.Inv(t) && Ledger.Allowed(t, Ledger.ReqUpdateInbound(1, inb))
            && Ledger.UpdateInbound(t, 1, inb).1 == DatabaseError
  {
    var t := Single(Named("a"), Row(true));
    var x, y := Named("x").(email := ""), Named("y").(email := "");
    SingleIsConsistent(Named("a"), Row(true));
    UpdateOfSingle(Named("a"), Row(true), [x, y]);
    OneEmail(Named("a"));
    assert [x, y][0] == x && [x, y][1] == y && x in [x, y];
    assert forall c :: c in [x, y] ==> c.email == "";
    Ledger.UpdateInboundKeeps(t, 1, Listening(1, [x, y]));
  }

  /** A limit of -1, and a template without policies: the client's level has none. */
  lemma NegativeLimit(levels: XrayConfig.Levels)
    requires XrayConfig.BuiltFrom(map[], {}, levels)
    ensures var t := Single(Named("a").(speedLimit := -1), Row(true));
            && (forall v :: !XrayConfig.SpeedInUse(t.inbounds, v))
            && XrayConfig.Emit(t.inbounds[1].clients, t.inbounds[1].clients[0]).level == -1
            && !XrayConfig.HasPolicy(levels, -1)
  {
    var t := Single(Named("a").(speedLimit := -1), Row(true));
    XrayConfig.OwnLimitHasPolicyIff(t, map[], levels, {}, 1, 0);
  }

  /** A client that expires with the tick that the configuration runs is emitted all the same. */
  lemma StaleSnapshot()
    ensures var t := Single(Named("a").(expiryTime := 5), Row(true).(expiryTime := 5));
            && PanelRuns.Consistent(t) && Traffic.ExpiriesAgree(t)
            && XrayConfig.Configs(t) != XrayConfig.Configs(Traffic.Tick(t, [], [], 5))
  {
    var c, r := Named("a").(expiryTime := 5), Row(true).(expiryTime := 5);
    SingleIsConsistent(c, r);
    assert c in [c];
    XrayConfig.SnapshotIsCurrentIff(Single(c, r), 5);
  }

  // ----- a key that two clients share -----

  function SharedKey(): Tables {
    Tables(map[1 := Listening(1, [Named("a").(id := "k"), Named("b").(id := "k"), Named("c")])],
           map[(1, "a") := Row(true), (1, "b") := Row(true), (1, "c") := Row(true)])
  }

  /** Deleting by the shared key drops both clients and one of their rows. */
  lemma SharedKeyDeletion()
    ensures var (t, (t', outcome)) := (SharedKey(), Ledger.DelInboundClient(SharedKey(), 1, "k"));
            && Ledger.EmailsAgree(t) && outcome == Done && !Ledger.EmailsAgree(t')
            && t'.inbounds[1].clients == [Named("c")] && (1, "a") in t'.traffics && (1, "b") !in t'.traffics
  {
    var a, b, c := Named("a").(id := "k"), Named("b").(id := "k"), Named("c");
    SharedKeyList(a, b, c);
    SharedKeyAgrees(a, b, c);
    var t', e := Ledger.DelInboundClient(SharedKey(), 1, "k").0, "a";
    OneEmail(c);
    assert (1, e) in t'.traffics && !HasEmail(t'.inbounds[1].clients, e);
  }

  lemma SharedKeyList(a: Client, b: Client, c: Client)
    requires a.id == b.id != c.id
    ensures Ledger.WithoutKey(VLESS, [a, b, c], a.id) == [c]
    ensures Ledger.EmailOfKey(VLESS, [a, b, c], a.id) == b.email
  {
    var one, two := [a], [a, b];
    assert [a, b, c][..2] == two && two[..1] == one && one[..0] == [];
    assert Ledger.WithoutKey(VLESS, one, a.id) == [] + [] == [];
    assert Ledger.WithoutKey(VLESS, two, a.id) == [] + [] == [];
    assert [] + [c] == [c];
  }

  lemma SharedKeyAgrees(a: Client, b: Client, c: Client)
    requires a == Named("a").(id := "k") && b == Named("b").(id := "k") && c == Named("c")
    ensures Ledger.EmailsAgree(SharedKey())
  {
    OneEmail(a);
    Ledger.EmailSnoc([a], b);
    Ledger.EmailSnoc([a, b], c);
    assert [a] + [b] == [a, b] && [a, b] + [c] == [a, b, c];
  }

  // ----- a clean-up of two inbounds -----

  /** Inbound 1 has a depleted client and a live one, inbound 2 only a depleted one. */
  function TwoInbounds(): Tables {
    Tables(map[1 := Listening(1, [Named("a"), Named("b")]), 2 := Listening(2, [Named("c")])],
           map[(1, "a") := Row(false), (1, "b") := Row(true), (2, "c") := Row(false)])
  }

  /** When inbound 1 is saved first, inbound 2 stays with a client that has no row. */
  lemma LockedOutDeletion()
    ensures var (t, u) := (TwoInbounds(), CleanUp(TwoInbounds(), -1, [1, 2]));
            && Traffic.Clean(t) && NoCommaEmails(t) && IsOrder(t, -1, [1, 2])
            && 2 in u.inbounds && u.inbounds[2].clients == [Named("c")] && (2, "c") !in u.traffics
            && !Ledger.EmailsAgree(u)
  {
    var t, order := TwoInbounds(), [1, 2];
    TwoInboundsClean();
    TwoGroups();
    assert order[0] == 1 && order[1] == 2;
    assert Locked(t, -1, order, 1) && Stuck(t, -1, order, 2);
    AgreementIff(t, -1, order);
  }

  lemma TwoInboundsClean()
    ensures Traffic.Clean(TwoInbounds()) && NoCommaEmails(TwoInbounds())
  {
    TwoInboundsDistinct();
    TwoInboundsAgree();
    TwoInboundsNamed();
  }

  lemma TwoInboundsNamed()
    ensures forall k :: k in TwoInbounds().traffics ==> k.1 == "a" || k.1 == "b" || k.1 == "c"
  {
  }

  lemma TwoInboundsAgree()
    ensures Ledger.EmailsAgree(TwoInbounds())
  {
    TwoInboundsEmails();
  }

  lemma TwoInboundsEmails()
    ensures forall e :: HasEmail(TwoInbounds().inbounds[1].clients, e) <==> e == "a" || e == "b"
    ensures forall e :: HasEmail(TwoInbounds().inbounds[2].clients, e) <==> e == "c"
  {
    assert [Named("a"), Named("b")] == [] + [Named("a")] + [Named("b")];
    Ledger.EmailSnoc([Named("a")], Named("b"));
    Ledger.EmailSnoc([], Named("a"));
    Ledger.EmailSnoc([], Named("c"));
  }

  lemma TwoInboundsDistinct()
    ensures Ledger.AllDistinct(TwoInbounds())
  {
    TwoInboundsEmails();
    DifferentClients(Named("a"), Named("b"));
  }

  lemma DifferentClients(c: Client, d: Client)
    requires c.id != d.id && c.email != d.email
    ensures Ledger.ClientsDistinct(VLESS, [c, d])
  {
  }

  lemma TwoGroups()
    ensures Groups(TwoInbounds(), -1) == {1, 2} && IsOrder(TwoInbounds(), -1, [1, 2])
    ensures IsDepleted(TwoInbounds(), -1, (2, "c"))
    ensures !Emptied(TwoInbounds(), -1, 1) && Emptied(TwoInbounds(), -1, 2)
  {
    var t := TwoInbounds();
    assert IsDepleted(t, -1, (1, "a")) && IsDepleted(t, -1, (2, "c")) && !IsDepleted(t, -1, (1, "b"));
    RemainingClients(t, -1, 1, t.inbounds[1].clients);
    assert Named("b") in t.inbounds[1].clients;
    assert t.inbounds[2].clients[..0] == [];
  }
}
