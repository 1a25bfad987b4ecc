/**
 `GetXrayConfig`: policy levels for the speed limits in use, and the clients of every enabled inbound
 with the level of their limit.
 */
module XrayConfig {
  import opened Panel
  import Ledger
  import Traffic
  import InboundServices
  import TrafficService

  /** The part of a policy level that limits the speed. */
  datatype Level = Level(uplinkOnly: int, downlinkOnly: int)

  /** A client of the emitted configuration. */
  datatype XrayClient = XrayClient(id: string, email: string, password: string, level: int)

  /** Policy levels are keyed by the decimal text of a number. */
  type Levels = map<string, Level>

  // ----- first and second step: the levels -----

  /** All positive limits of clients of enabled inbounds. */
  ghost predicate SpeedInUse(inbounds: map<int, Inbound>, speed: int) {
    exists id, c :: id in inbounds && inbounds[id].enable && c in inbounds[id].clients &&
                    c.speedLimit == speed && speed > 0
  }

  method InboundSpeeds(inb: Inbound) returns (speeds: set<int>)
    ensures forall v :: v in speeds <==> inb.enable && exists c :: c in inb.clients && c.speedLimit == v && v > 0
  {
    speeds := {};
    if !inb.enable {
      return;
    }
    for i := 0 to |inb.clients|
      invariant forall v :: v in speeds <==> exists c :: c in inb.clients[..i] && c.speedLimit == v && v > 0
    {
      var c := inb.clients[i];
      assert inb.clients[..i + 1] == inb.clients[..i] + [c];
      ghost var before := speeds;
      if c.speedLimit > 0 {
        speeds := speeds + {c.speedLimit};
      }
      forall v
        ensures v in speeds <==> exists d :: d in inb.clients[..i + 1] && d.speedLimit == v && v > 0
      {
        if v in before {
          var d :| d in inb.clients[..i] && d.speedLimit == v && v > 0;
          assert d in inb.clients[..i + 1];
        }
        assert c in inb.clients[..i + 1];
      }
    }
    assert inb.clients[..|inb.clients|] == inb.clients;
  }

  method CollectSpeeds(inbounds: map<int, Inbound>) returns (uniqueSpeeds: set<int>)
    ensures forall v :: v in uniqueSpeeds <==> SpeedInUse(inbounds, v)
  {
    uniqueSpeeds := {};
    var rest := inbounds.Keys;
    while exists id :: id in rest
      invariant rest <= inbounds.Keys
      invariant forall v :: v in uniqueSpeeds <==>
                  exists id, c :: id in inbounds && id !in rest && inbounds[id].enable && c in inbounds[id].clients &&
                                  c.speedLimit == v && v > 0
      decreases rest
    {
      var id :| id in rest;
      var speeds := InboundSpeeds(inbounds[id]);
      uniqueSpeeds := uniqueSpeeds + speeds;
      rest := rest - {id};
    }
  }

  /** Level 0, a level for every speed, and the template's other levels. */
  ghost predicate BuiltFrom(template: Levels, speeds: set<int>, levels: Levels) {
    && "0" in levels && levels["0"] == Level(0, 0)
    && (forall v :: v in speeds ==> Decimal(v) in levels && levels[Decimal(v)] == Level(v, v))
    && (forall key :: key in levels ==> key == "0" || (exists v :: v in speeds && key == Decimal(v)) || key in template)
    && (forall key :: key in template && key != "0" && (forall v :: v in speeds ==> key != Decimal(v)) ==>
          key in levels && levels[key] == template[key])
  }

  /** The levels of the template, level 0 without a limit, and one level for every speed. */
  method BuildLevels(template: Levels, uniqueSpeeds: set<int>) returns (levels: Levels)
    requires forall v :: v in uniqueSpeeds ==> v > 0
    ensures BuiltFrom(template, uniqueSpeeds, levels)
  {
    levels := template["0" := Level(0, 0)];
    assert Decimal(0) == "0";
    var rest := uniqueSpeeds;
    while exists v :: v in rest
      invariant rest <= uniqueSpeeds
      invariant BuiltFrom(template, uniqueSpeeds - rest, levels)
      decreases rest
    {
      var speed :| speed in rest;
      forall v | Decimal(v) == Decimal(speed)
        ensures v == speed
      {
        DecimalInjective(v, speed);
      }
      NextLevel(template, uniqueSpeeds - rest, levels, speed);
      levels := levels[Decimal(speed) := Level(speed, speed)];
      assert uniqueSpeeds - (rest - {speed}) == uniqueSpeeds - rest + {speed};
      rest := rest - {speed};
    }
    assert uniqueSpeeds - rest == uniqueSpeeds;
  }

  lemma NextLevel(template: Levels, speeds: set<int>, levels: Levels, speed: int)
    requires BuiltFrom(template, speeds, levels) && speed != 0
    ensures BuiltFrom(template, speeds + {speed}, levels[Decimal(speed) := Level(speed, speed)])
  {
    forall v | Decimal(v) == Decimal(speed)
      ensures v == speed
    {
      DecimalInjective(v, speed);
    }
    assert Decimal(0) == "0";
    var levels' := levels[Decimal(speed) := Level(speed, speed)];
    forall key | key in levels'
      ensures key == "0" || (exists v :: v in speeds + {speed} && key == Decimal(v)) || key in template
    {
      if key == Decimal(speed) {
        assert speed in speeds + {speed};
      } else if v :| v in speeds && key == Decimal(v) {
        assert v in speeds + {speed};
      }
    }
  }

  // ----- third step: the clients -----

  /** The limit of the last client with a given email or id, as the maps of the loop hold it. */
  function LastSpeed(clients: seq<Client>, key: string, byEmail: bool): int {
    if |clients| == 0 then 0
    else
      var c := clients[|clients| - 1];
      if (if byEmail then c.email else c.id) == key then c.speedLimit
      else LastSpeed(clients[..|clients| - 1], key, byEmail)
  }

  function LevelOf(clients: seq<Client>, c: Client): int {
    var byEmail := if c.email != "" then LastSpeed(clients, c.email, true) else 0;
    var byId := if c.id != "" then LastSpeed(clients, c.id, false) else 0;
    if byEmail > 0 then byEmail else if byId > 0 then byId else c.speedLimit
  }

  function Emit(clients: seq<Client>, c: Client): XrayClient {
    XrayClient(c.id, c.email, c.password, LevelOf(clients, c))
  }

  /** Enabled in the settings, and not disabled by a row of the inbound. */
  predicate Enabled(t: Tables, id: int, c: Client) {
    c.enable && ((id, c.email) in t.traffics ==> t.traffics[(id, c.email)].enable)
  }

  function EnabledClients(t: Tables, id: int, clients: seq<Client>): seq<Client> {
    if |clients| == 0 then []
    else EnabledClients(t, id, clients[..|clients| - 1]) +
         if Enabled(t, id, clients[|clients| - 1]) then [clients[|clients| - 1]] else []
  }

  function EmitAll(clients: seq<Client>, some: seq<Client>): (s: seq<XrayClient>)
    ensures |s| == |some|
  {
    seq(|some|, i requires 0 <= i < |some| => Emit(clients, some[i]))
  }

  /** The maps from emails and ids to limits; a later client overwrites an earlier one. */
  method SpeedMaps(clients: seq<Client>) returns (speedByEmail: map<string, int>, speedById: map<string, int>)
    ensures forall e :: (if e in speedByEmail then speedByEmail[e] else 0) == if e == "" then 0 else LastSpeed(clients, e, true)
    ensures forall i :: (if i in speedById then speedById[i] else 0) == if i == "" then 0 else LastSpeed(clients, i, false)
  {
    speedByEmail, speedById := map[], map[];
    for k := 0 to |clients|
      invariant forall e :: (if e in speedByEmail then speedByEmail[e] else 0) == if e == "" then 0 else LastSpeed(clients[..k], e, true)
      invariant forall i :: (if i in speedById then speedById[i] else 0) == if i == "" then 0 else LastSpeed(clients[..k], i, false)
    {
      assert clients[..k + 1][..k] == clients[..k];
      var dbc := clients[k];
      if dbc.email != "" {
        speedByEmail := speedByEmail[dbc.email := dbc.speedLimit];
      }
      if dbc.id != "" {
        speedById := speedById[dbc.id := dbc.speedLimit];
      }
    }
    assert clients[..|clients|] == clients;
  }

  /** The level of one client, from the maps before its own limit. */
  method MapLevel(ghost clients: seq<Client>, c: Client, speedByEmail: map<string, int>, speedById: map<string, int>)
    returns (level: int)
    requires (if c.email in speedByEmail then speedByEmail[c.email] else 0) ==
             if c.email == "" then 0 else LastSpeed(clients, c.email, true)
    requires (if c.id in speedById then speedById[c.id] else 0) == if c.id == "" then 0 else LastSpeed(clients, c.id, false)
    ensures level == LevelOf(clients, c)
  {
    level := 0;
    if c.email != "" {
      if c.email in speedByEmail && speedByEmail[c.email] > 0 {
        level := speedByEmail[c.email];
      }
    }
    if level == 0 && c.id != "" {
      if c.id in speedById && speedById[c.id] > 0 {
        level := speedById[c.id];
      }
    }
    if level == 0 {
      level := c.speedLimit;
    }
  }

  method BuildClients(t: Tables, id: int) returns (xrayClients: seq<XrayClient>)
    requires id in t.inbounds
    ensures xrayClients == EmitAll(t.inbounds[id].clients, EnabledClients(t, id, t.inbounds[id].clients))
  {
    var clients := t.inbounds[id].clients;
    var speedByEmail, speedById := SpeedMaps(clients);
    xrayClients := [];
    for i := 0 to |clients|
      invariant xrayClients == EmitAll(clients, EnabledClients(t, id, clients[..i]))
    {
      assert clients[..i + 1][..i] == clients[..i];
      ghost var h := EnabledClients(t, id, clients[..i]);
      var c := clients[i];
      if !c.enable {
        assert EnabledClients(t, id, clients[..i + 1]) == h + [] == h;
        continue;
      }
      if (id, c.email) in t.traffics && !t.traffics[(id, c.email)].enable {
        assert EnabledClients(t, id, clients[..i + 1]) == h + [] == h;
        continue;
      }
      var level := MapLevel(clients, c, speedByEmail, speedById);
      xrayClients := xrayClients + [XrayClient(c.id, c.email, c.password, level)];
      assert EnabledClients(t, id, clients[..i + 1]) == h + [c];
    }
    assert clients[..|clients|] == clients;
  }

  function Configs(t: Tables): map<int, seq<XrayClient>> {
    map id | id in t.inbounds && t.inbounds[id].enable ::
      EmitAll(t.inbounds[id].clients, EnabledClients(t, id, t.inbounds[id].clients))
  }

  /**
   The configuration: the levels, and the clients of every enabled inbound. The tables are loaded
   first; the tick that the method runs before the third step shows only in the tables it leaves.
   */
  method GetXrayConfig(s: InboundServices.InboundService, template: Levels, now: int)
    returns (levels: Levels, configs: map<int, seq<XrayClient>>, ghost speeds: set<int>)
    modifies s
    ensures forall v :: v in speeds <==> SpeedInUse(old(s.inbounds), v)
    ensures BuiltFrom(template, speeds, levels)
    ensures configs == Configs(old(s.Tables()))
    ensures Traffic.WithinLimits(s.Tables(), now)
    ensures old(Traffic.Clean(s.Tables())) ==> s.Tables() == Traffic.Tick(old(s.Tables()), [], [], now)
  {
    var t := s.Tables();
    var uniqueSpeeds := CollectSpeeds(t.inbounds);
    speeds := uniqueSpeeds;
    levels := BuildLevels(template, uniqueSpeeds);
    var _ := TrafficService.AddTraffic(s, [], [], now);
    ghost var left := s.Tables();
    configs := map[];
    var rest := t.inbounds.Keys;
    while exists id :: id in rest
      invariant rest <= t.inbounds.Keys && s.Tables() == left
      invariant configs.Keys == set id | id in t.inbounds && id !in rest && t.inbounds[id].enable
      invariant forall id :: id in configs ==> configs[id] == Configs(t)[id]
      decreases rest
    {
      var id :| id in rest;
      if t.inbounds[id].enable {
        var clients := BuildClients(t, id);
        configs := configs[id := clients];
      }
      rest := rest - {id};
    }
  }

  /** Emitted are exactly the clients enabled in both places, list after list in their order. */
  lemma {:induction false} EmittedExactly(t: Tables, id: int, a: seq<Client>, b: seq<Client>)
    ensures forall c :: c in EnabledClients(t, id, b) <==> c in b && Enabled(t, id, c)
    ensures EnabledClients(t, id, a + b) == EnabledClients(t, id, a) + EnabledClients(t, id, b)
    decreases |b|
  {
    if |b| == 0 {
      assert a + b == a;
    } else {
      var h, c := b[..|b| - 1], b[|b| - 1];
      EmittedExactly(t, id, a, h);
      assert b == h + [c];
      assert (a + b)[..|a + b| - 1] == a + h;
    }
  }

  /**
   The entries of an inbound, by their fields: one for every client that is enabled in the settings and has
   no disabled row, with its id, email and password.
   */
  lemma EmittedFields(t: Tables, id: int)
    requires id in t.inbounds
    ensures id in Configs(t) <==> t.inbounds[id].enable
    ensures t.inbounds[id].enable ==>
              forall x :: x in Configs(t)[id] <==>
                exists c :: c in t.inbounds[id].clients && c.enable
                            && !((id, c.email) in t.traffics && !t.traffics[(id, c.email)].enable)
                            && x.id == c.id && x.email == c.email && x.password == c.password
                            && x.level == LevelOf(t.inbounds[id].clients, c)
  {
    if t.inbounds[id].enable {
      var clients := t.inbounds[id].clients;
      var s := EnabledClients(t, id, clients);
      EmittedExactly(t, id, [], clients);
      forall x | x in Configs(t)[id]
        ensures exists c :: c in s && x == Emit(clients, c)
      {
        var i :| 0 <= i < |s| && Configs(t)[id][i] == x;
        assert s[i] in s;
      }
      forall c | c in s
        ensures Emit(clients, c) in Configs(t)[id]
      {
        var i :| 0 <= i < |s| && s[i] == c;
        assert Configs(t)[id][i] == Emit(clients, c);
      }
    }
  }

  /** The text of a positive limit of a client of an enabled inbound. */
  ghost predicate OfSomeLimit(t: Tables, key: string) {
    exists id, c :: id in t.inbounds && t.inbounds[id].enable && c in t.inbounds[id].clients && c.speedLimit > 0 && key == Decimal(c.speedLimit)
  }

  /**
   The levels by the limits themselves: 0 without a limit, one under the decimal text of every positive limit
   of a client of an enabled inbound, no other beside the template's, and those of the template kept.
   */
  lemma PolicyFields(t: Tables, template: Levels, levels: Levels, speeds: set<int>)
    requires forall v :: v in speeds <==> SpeedInUse(t.inbounds, v)
    requires BuiltFrom(template, speeds, levels)
    ensures "0" in levels && levels["0"] == Level(0, 0)
    ensures forall id, c :: id in t.inbounds && t.inbounds[id].enable && c in t.inbounds[id].clients && c.speedLimit > 0 ==>
              Decimal(c.speedLimit) in levels && levels[Decimal(c.speedLimit)] == Level(c.speedLimit, c.speedLimit)
    ensures forall key :: key in levels && key != "0" && !OfSomeLimit(t, key) ==> key in template && levels[key] == template[key]
    ensures forall key :: key in template && key != "0" && !OfSomeLimit(t, key) ==> key in levels
  {
    forall key | !OfSomeLimit(t, key)
      ensures forall v :: v in speeds ==> key != Decimal(v)
    {
      forall v | v in speeds
        ensures key != Decimal(v)
      {
        var id, c :| id in t.inbounds && t.inbounds[id].enable && c in t.inbounds[id].clients && c.speedLimit == v && v > 0;
      }
    }
    forall id, c | id in t.inbounds && t.inbounds[id].enable && c in t.inbounds[id].clients && c.speedLimit > 0
      ensures c.speedLimit in speeds
    {
      assert SpeedInUse(t.inbounds, c.speedLimit);
    }
  }

  // ----- what the levels mean -----

  lemma {:induction false} LastSpeedIsSome(clients: seq<Client>, key: string, byEmail: bool)
    requires LastSpeed(clients, key, byEmail) != 0
    ensures exists c :: c in clients && c.speedLimit == LastSpeed(clients, key, byEmail)
  {
    var h, c := clients[..|clients| - 1], clients[|clients| - 1];
    assert c in clients;
    if (if byEmail then c.email else c.id) != key {
      LastSpeedIsSome(h, key, byEmail);
      var d :| d in h && d.speedLimit == LastSpeed(h, key, byEmail);
      assert d in clients;
    }
  }

  /** The client at i is the last with the text, as an email or as an id. */
  ghost predicate LastWith(clients: seq<Client>, key: string, byEmail: bool, i: int) {
    && 0 <= i < |clients| && (if byEmail then clients[i].email else clients[i].id) == key
    && forall k :: i < k < |clients| ==> (if byEmail then clients[k].email else clients[k].id) != key
  }

  lemma {:induction false} LastSpeedAt(clients: seq<Client>, key: string, byEmail: bool, i: nat)
    requires LastWith(clients, key, byEmail, i)
    ensures LastSpeed(clients, key, byEmail) == clients[i].speedLimit
    decreases |clients|
  {
    if i < |clients| - 1 {
      LastSpeedAt(clients[..|clients| - 1], key, byEmail, i);
    }
  }

  /**
   A client's level, in lists that repeat emails and ids as well: the limit of the last client with its
   email, if it has one and that is positive; else likewise of the last with its id; else its own.
   */
  lemma LevelFields(clients: seq<Client>, c: Client, i: nat, j: nat)
    requires LastWith(clients, c.email, true, i) && LastWith(clients, c.id, false, j)
    ensures LevelOf(clients, c) ==
            if c.email != "" && clients[i].speedLimit > 0 then clients[i].speedLimit
            else if c.id != "" && clients[j].speedLimit > 0 then clients[j].speedLimit
            else c.speedLimit
  {
    LastSpeedAt(clients, c.email, true, i);
    LastSpeedAt(clients, c.id, false, j);
  }

  /** The limit that a level stands for is in force: its policy has exactly this number. */
  ghost predicate HasPolicy(levels: Levels, level: int) {
    Decimal(level) in levels && levels[Decimal(level)] == Level(level, level)
  }

  /**
   An emitted client's level has its own policy exactly when it is not negative, unless the template
   brings a policy for it; and only a negative limit gives a negative level.
   */
  lemma LevelsHavePolicies(t: Tables, template: Levels, levels: Levels, speeds: set<int>, id: int, c: Client)
    requires forall v :: v in speeds <==> SpeedInUse(t.inbounds, v)
    requires BuiltFrom(template, speeds, levels)
    requires id in t.inbounds && t.inbounds[id].enable && c in t.inbounds[id].clients
    ensures var level := LevelOf(t.inbounds[id].clients, c);
            HasPolicy(levels, level) <==> level >= 0 || HasPolicy(template, level)
    ensures LevelOf(t.inbounds[id].clients, c) < 0 ==> c.speedLimit < 0
  {
    var clients := t.inbounds[id].clients;
    var level := LevelOf(clients, c);
    assert Decimal(0) == "0";
    if level > 0 {
      LevelIsSome(clients, c);
      var d :| d in clients && d.speedLimit == level;
      assert SpeedInUse(t.inbounds, level);
    } else if level < 0 {
      forall v | v in speeds || v == 0
        ensures Decimal(v) != Decimal(level)
      {
        assert v >= 0;
        DecimalSign(v);
        DecimalSign(level);
      }
    }
  }

  lemma LevelIsSome(clients: seq<Client>, c: Client)
    requires c in clients && LevelOf(clients, c) > 0
    ensures exists d :: d in clients && d.speedLimit == LevelOf(clients, c)
  {
    if c.email != "" && LastSpeed(clients, c.email, true) > 0 {
      LastSpeedIsSome(clients, c.email, true);
    } else if c.id != "" && LastSpeed(clients, c.id, false) > 0 {
      LastSpeedIsSome(clients, c.id, false);
    }
  }

  /** Distinct emails and ids, apart from empty ones. */
  ghost predicate Unique(clients: seq<Client>) {
    forall i, j :: 0 <= i < j < |clients| ==>
      (clients[i].email != "" ==> clients[i].email != clients[j].email) &&
      (clients[i].id != "" ==> clients[i].id != clients[j].id)
  }

  lemma {:induction false} LastSpeedIsOwn(clients: seq<Client>, i: nat, byEmail: bool)
    requires Unique(clients) && i < |clients|
    requires (if byEmail then clients[i].email else clients[i].id) != ""
    ensures LastSpeed(clients, if byEmail then clients[i].email else clients[i].id, byEmail) == clients[i].speedLimit
    decreases |clients|
  {
    if i == |clients| - 1 {
    } else {
      var h := clients[..|clients| - 1];
      assert h[i] == clients[i];
      assert clients[i].email != "" ==> clients[i].email != clients[|clients| - 1].email;
      assert clients[i].id != "" ==> clients[i].id != clients[|clients| - 1].id;
      LastSpeedIsOwn(h, i, byEmail);
    }
  }

  /** With unique emails and ids a client's level is its own limit. */
  lemma LevelIsOwnLimit(clients: seq<Client>, i: nat)
    requires Unique(clients) && i < |clients|
    ensures LevelOf(clients, clients[i]) == clients[i].speedLimit
  {
    if clients[i].email != "" {
      LastSpeedIsOwn(clients, i, true);
    }
    if clients[i].id != "" {
      LastSpeedIsOwn(clients, i, false);
    }
  }

  /** With unique emails and ids a client has the policy of its own limit if and only if that is not negative. */
  lemma OwnLimitHasPolicyIff(t: Tables, template: Levels, levels: Levels, speeds: set<int>, id: int, i: nat)
    requires forall v :: v in speeds <==> SpeedInUse(t.inbounds, v)
    requires BuiltFrom(template, speeds, levels)
    requires id in t.inbounds && t.inbounds[id].enable && i < |t.inbounds[id].clients| && Unique(t.inbounds[id].clients)
    ensures var c := t.inbounds[id].clients[i];
            && Emit(t.inbounds[id].clients, c).level == c.speedLimit
            && (HasPolicy(levels, c.speedLimit) <==> c.speedLimit >= 0 || HasPolicy(template, c.speedLimit))
  {
    LevelIsOwnLimit(t.inbounds[id].clients, i);
    LevelsHavePolicies(t, template, levels, speeds, id, t.inbounds[id].clients[i]);
  }

  // ----- the tick inside -----

  ghost predicate SameButExpiries(a: seq<Client>, b: seq<Client>) {
    |a| == |b| && forall i :: 0 <= i < |a| ==> b[i] == a[i].(expiryTime := b[i].expiryTime)
  }

  lemma {:induction false} LastSpeedSame(a: seq<Client>, b: seq<Client>, key: string, byEmail: bool)
    requires SameButExpiries(a, b)
    ensures LastSpeed(a, key, byEmail) == LastSpeed(b, key, byEmail)
  {
    if |a| == 0 {
    } else {
      LastSpeedSame(a[..|a| - 1], b[..|b| - 1], key, byEmail);
    }
  }

  /** The configuration does not carry expiries. */
  lemma EmitSame(a: seq<Client>, b: seq<Client>, c: Client, d: Client)
    requires SameButExpiries(a, b) && d == c.(expiryTime := d.expiryTime)
    ensures Emit(a, c) == Emit(b, d)
  {
    LastSpeedSame(a, b, c.email, true);
    LastSpeedSame(a, b, c.id, false);
  }

  /** Clients that are enabled in the one tables exactly when they are in the other. */
  ghost predicate SameEnabled(t: Tables, u: Tables, id: int, clients: seq<Client>) {
    forall c :: c in clients ==> (Enabled(t, id, c) <==> Enabled(u, id, c))
  }

  lemma {:induction false} EmitAllSame(t: Tables, u: Tables, id: int, a: seq<Client>, b: seq<Client>, n: nat)
    requires SameButExpiries(a, b) && SameEnabled(t, u, id, a) && n <= |a|
    ensures EmitAll(a, EnabledClients(t, id, a[..n])) == EmitAll(b, EnabledClients(u, id, b[..n]))
  {
    if n == 0 {
    } else {
      EmitAllSame(t, u, id, a, b, n - 1);
      EmitSame(a, b, a[n - 1], b[n - 1]);
      SameClientEnabled(t, u, id, a, b, n - 1);
      EmitOneMore(t, u, id, a, b, a[..n - 1], b[..n - 1], a[n - 1], b[n - 1]);
      assert a[..n] == a[..n - 1] + [a[n - 1]] && b[..n] == b[..n - 1] + [b[n - 1]];
    }
  }

  lemma SameClientEnabled(t: Tables, u: Tables, id: int, a: seq<Client>, b: seq<Client>, i: nat)
    requires SameButExpiries(a, b) && SameEnabled(t, u, id, a) && i < |a|
    ensures Enabled(t, id, a[i]) <==> Enabled(u, id, b[i])
  {
    assert a[i] in a;
  }

  lemma EmitOneMore(t: Tables, u: Tables, id: int, a: seq<Client>, b: seq<Client>,
                    p: seq<Client>, q: seq<Client>, c: Client, d: Client)
    requires EmitAll(a, EnabledClients(t, id, p)) == EmitAll(b, EnabledClients(u, id, q))
    requires Emit(a, c) == Emit(b, d) && (Enabled(t, id, c) <==> Enabled(u, id, d))
    ensures EmitAll(a, EnabledClients(t, id, p + [c])) == EmitAll(b, EnabledClients(u, id, q + [d]))
  {
    EmitAllSnoc(t, id, a, p, c);
    EmitAllSnoc(u, id, b, q, d);
  }

  lemma EmitAllSnoc(t: Tables, id: int, whole: seq<Client>, h: seq<Client>, c: Client)
    ensures EmitAll(whole, EnabledClients(t, id, h + [c])) ==
            EmitAll(whole, EnabledClients(t, id, h)) + if Enabled(t, id, c) then [Emit(whole, c)] else []
  {
    assert (h + [c])[..|h|] == h;
  }

  /** An emitted client shows whether its email is enabled. */
  lemma EmittedShows(t: Tables, u: Tables, id: int, a: seq<Client>, b: seq<Client>, c: Client)
    requires EmitAll(a, EnabledClients(t, id, a)) == EmitAll(b, EnabledClients(u, id, b))
    requires c in a && Enabled(t, id, c)
    ensures Enabled(u, id, c)
  {
    EmittedExactly(t, id, [], a);
    EmittedExactly(u, id, [], b);
    var s, s' := EnabledClients(t, id, a), EnabledClients(u, id, b);
    var i :| 0 <= i < |s| && s[i] == c;
    assert EmitAll(a, s)[i] == Emit(a, c) && EmitAll(b, s')[i] == Emit(b, s'[i]);
    assert s'[i].email == c.email && s'[i] in s';
  }

  lemma EmitAllSameIff(t: Tables, u: Tables, id: int, a: seq<Client>, b: seq<Client>)
    requires SameButExpiries(a, b)
    ensures EmitAll(a, EnabledClients(t, id, a)) == EmitAll(b, EnabledClients(u, id, b)) <==> SameEnabled(t, u, id, a)
  {
    if SameEnabled(t, u, id, a) {
      EmitAllSame(t, u, id, a, b, |a|);
      assert a[..|a|] == a && b[..|b|] == b;
    }
    if EmitAll(a, EnabledClients(t, id, a)) == EmitAll(b, EnabledClients(u, id, b)) {
      forall c | c in a
        ensures Enabled(t, id, c) <==> Enabled(u, id, c)
      {
        var i :| 0 <= i < |a| && a[i] == c;
        assert b[i] in b;
        if Enabled(t, id, c) {
          EmittedShows(t, u, id, a, b, c);
        }
        if Enabled(u, id, b[i]) {
          EmittedShows(u, t, id, b, a, b[i]);
        }
      }
    }
  }

  /** Whether a tick without reports leaves a row enabled: a row that it renews, unless whole periods have passed. */
  predicate EnabledAfter(r: ClientTraffic, now: int) {
    if Traffic.Due(r, now) then (now - r.expiryTime) % (r.reset * Traffic.DAY) != 0
    else r.enable && !Traffic.RowSpent(r, now)
  }

  ghost predicate ClientsSettled(t: Tables, now: int, id: int, clients: seq<Client>) {
    forall c :: c in clients && c.enable && (id, c.email) in t.traffics ==>
      (t.traffics[(id, c.email)].enable <==> EnabledAfter(t.traffics[(id, c.email)], now))
  }

  /** No enabled inbound is spent, and no client's row that is loaded for it is about to be switched. */
  ghost predicate Settled(t: Tables, now: int) {
    forall id :: id in t.inbounds && t.inbounds[id].enable ==>
      !Traffic.InboundSpent(t.inbounds[id], now) && ClientsSettled(t, now, id, t.inbounds[id].clients)
  }

  lemma EmptyTick(t: Tables, now: int, id: int)
    requires id in t.inbounds
    ensures var u := Traffic.Tick(t, [], [], now);
            && u.inbounds.Keys == t.inbounds.Keys && u.traffics.Keys == t.traffics.Keys
            && u.inbounds[id].enable == (t.inbounds[id].enable && !Traffic.InboundSpent(t.inbounds[id], now))
            && SameButExpiries(t.inbounds[id].clients, u.inbounds[id].clients)
            && forall k :: k in t.traffics ==> u.traffics[k] == Traffic.Ended(t.traffics[k], now)
  {
    Traffic.NothingReported(t, now);
  }

  lemma EndedEnabled(r: ClientTraffic, now: int)
    ensures Traffic.Ended(r, now).enable <==> EnabledAfter(r, now)
  {
    if Traffic.Due(r, now) {
      Traffic.RenewedIsSpentIff(r, now);
    }
  }

  lemma ClientsSettledIff(t: Tables, now: int, id: int)
    requires id in t.inbounds
    ensures SameEnabled(t, Traffic.Tick(t, [], [], now), id, t.inbounds[id].clients) <==>
            ClientsSettled(t, now, id, t.inbounds[id].clients)
  {
    var clients, u := t.inbounds[id].clients, Traffic.Tick(t, [], [], now);
    EmptyTick(t, now, id);
    forall k | k in t.traffics
      ensures u.traffics[k].enable <==> EnabledAfter(t.traffics[k], now)
    {
      EndedEnabled(t.traffics[k], now);
    }
  }

  lemma InboundIsCurrentIff(t: Tables, now: int, id: int)
    requires id in t.inbounds && t.inbounds[id].enable
    ensures var after := Configs(Traffic.Tick(t, [], [], now));
            (id in after && Configs(t)[id] == after[id]) <==>
            !Traffic.InboundSpent(t.inbounds[id], now) && ClientsSettled(t, now, id, t.inbounds[id].clients)
  {
    var u := Traffic.Tick(t, [], [], now);
    EmptyTick(t, now, id);
    ClientsSettledIff(t, now, id);
    EmitAllSameIff(t, u, id, t.inbounds[id].clients, u.inbounds[id].clients);
  }

  /**
   The tables are loaded before the tick that the method runs half-way: the configuration is that of the
   tables left behind if and only if no enabled inbound is spent and no row of its clients is about to
   be switched.
   */
  lemma SnapshotIsCurrentIff(t: Tables, now: int)
    ensures Configs(t) == Configs(Traffic.Tick(t, [], [], now)) <==> Settled(t, now)
  {
    var u := Traffic.Tick(t, [], [], now);
    var before, after := Configs(t), Configs(u);
    forall id | id in t.inbounds && t.inbounds[id].enable
      ensures (id in after && before[id] == after[id]) <==>
              !Traffic.InboundSpent(t.inbounds[id], now) && ClientsSettled(t, now, id, t.inbounds[id].clients)
    {
      InboundIsCurrentIff(t, now, id);
    }
    forall id | id in after
      ensures id in before
    {
      Traffic.NothingReported(t, now);
      EmptyTick(t, now, id);
    }
    if before == after {
      assert forall id :: id in before ==> id in after && before[id] == after[id];
    }
    if Settled(t, now) {
      assert before.Keys == after.Keys;
    }
  }

  /** Directly after a tick at the same time it is. */
  lemma SnapshotIsCurrent(t: Tables, tags: seq<Traffic.TagTraffic>, reports: seq<Traffic.Report>, now: int)
    ensures Settled(Traffic.Tick(t, tags, reports, now), now)
  {
    Traffic.TickSettles(t, tags, reports, now);
    SnapshotIsCurrentIff(Traffic.Tick(t, tags, reports, now), now);
  }
}
