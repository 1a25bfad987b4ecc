/**
 The panel's database: the tables `inbounds` and `client_traffics`, with the client list inside an
 inbound's settings as a typed list. A table is a map from its unique index to the rest of the row,
 because the queries ask for no order.
 */
module Panel {
  datatype Protocol = VMESS | VLESS | Tunnel | HTTP | Trojan | Shadowsocks | Socks | WireGuard

  datatype Client = Client(
    id: string,
    password: string,
    email: string,
    enable: bool,
    speedLimit: int,
    totalGB: int,
    expiryTime: int,
    reset: int)

  datatype Inbound = Inbound(
    up: int,
    down: int,
    total: int,
    allTime: int,
    enable: bool,
    expiryTime: int,
    deviceLimit: int,
    listen: string,
    port: int,
    protocol: Protocol,
    tag: string,
    clients: seq<Client>)

  /** The unique index of `client_traffics`: the inbound's id and the client's email. */
  type RowKey = (int, string)

  datatype ClientTraffic = ClientTraffic(
    enable: bool,
    up: int,
    down: int,
    allTime: int,
    expiryTime: int,
    total: int,
    reset: int)

  datatype Tables = Tables(inbounds: map<int, Inbound>, traffics: map<RowKey, ClientTraffic>)

  datatype Outcome =
    | Done
    | PortExists
    | DuplicateEmail
    | EmptyClientId
    | NotFound
    | NoClientRemained
    | DatabaseError

  /** What identifies a client in the requests: its password, email or id, by protocol. */
  function Key(protocol: Protocol, c: Client): string {
    match protocol
    case Trojan => c.password
    case Shadowsocks => c.email
    case _ => c.id
  }

  predicate HasEmail(clients: seq<Client>, email: string) {
    exists c :: c in clients && c.email == email
  }

  // ----- listen addresses, ports and tags -----

  predicate Wildcard(listen: string) {
    listen == "" || listen == "0.0.0.0" || listen == "::" || listen == "::0"
  }

  /** Two inbounds that cannot listen at the same time. */
  predicate Clash(listen: string, port: int, listen': string, port': int) {
    port == port' && (Wildcard(listen) || Wildcard(listen') || listen == listen')
  }

  function Digit(d: int): char
    requires 0 <= d < 10
  {
    '0' + d as char
  }

  function Natural(n: nat): (s: string)
    ensures |s| > 0
  {
    if n < 10 then [Digit(n)] else Natural(n / 10) + [Digit(n % 10)]
  }

  function Decimal(n: int): string {
    if n < 0 then "-" + Natural(-n) else Natural(n)
  }

  function DeriveTag(listen: string, port: int): string {
    if Wildcard(listen) then "inbound-" + Decimal(port)
    else "inbound-" + listen + ":" + Decimal(port)
  }

  /** The number that a text of decimal digits stands for. */
  function ReadDigits(s: string): int {
    if |s| == 0 then 0 else 10 * ReadDigits(s[..|s| - 1]) + (s[|s| - 1] as int - '0' as int)
  }

  /** The decimal digits of a number, without leading zeros. */
  predicate IsNumeral(s: string, n: int) {
    && |s| > 0 && (forall c :: c in s ==> '0' <= c <= '9')
    && ReadDigits(s) == n && (s[0] == '0' ==> s == "0")
  }

  lemma {:induction false} NaturalIsNumeral(n: nat)
    ensures IsNumeral(Natural(n), n)
  {
    if n < 10 {
      assert ReadDigits([]) == 0;
    } else {
      NaturalIsNumeral(n / 10);
      assert Natural(n)[..|Natural(n)| - 1] == Natural(n / 10);
      assert "0"[..0] == "" && ReadDigits("0") == 0;
      assert Natural(n / 10)[0] != '0';
    }
  }

  lemma DecimalIsNumeral(n: int)
    ensures n >= 0 ==> IsNumeral(Decimal(n), n)
    ensures n < 0 ==> Decimal(n)[0] == '-' && IsNumeral(Decimal(n)[1..], -n)
  {
    NaturalIsNumeral(if n < 0 then -n else n);
    assert n < 0 ==> Decimal(n)[1..] == Natural(-n);
  }

  // ----- tags are as distinct as their addresses -----

  lemma DecimalSign(n: int)
    ensures |Decimal(n)| > 0 && (Decimal(n)[0] == '-' <==> n < 0)
    ensures ':' !in Decimal(n)
  {
    var m := if n < 0 then -n else n;
    NaturalIsNumeral(m);
    assert Natural(m)[0] in Natural(m);
  }

  lemma DecimalInjective(m: int, n: int)
    requires Decimal(m) == Decimal(n)
    ensures m == n
  {
    DecimalSign(m);
    DecimalSign(n);
    DecimalIsNumeral(m);
    DecimalIsNumeral(n);
  }

  /** Where the last colon of a text is. */
  ghost predicate LastColonAt(s: string, i: nat) {
    i < |s| && s[i] == ':' && forall k :: i < k < |s| ==> s[k] != ':'
  }

  lemma LastColon(a: string, p: string)
    requires ':' !in p
    ensures LastColonAt(a + ":" + p, |a|)
    ensures (a + ":" + p)[..|a|] == a && (a + ":" + p)[|a| + 1..] == p
  {
    var s := a + ":" + p;
    forall k | |a| < k < |s|
      ensures s[k] != ':'
    {
      assert s[k] == p[k - |a| - 1];
    }
  }

  lemma TagTail(listen: string, port: int)
    ensures var t := DeriveTag(listen, port);
            |t| >= 8 && t[8..] == if Wildcard(listen) then Decimal(port) else listen + ":" + Decimal(port)
    ensures ':' in DeriveTag(listen, port)[8..] <==> !Wildcard(listen)
  {
    DecimalSign(port);
    LastColon(listen, Decimal(port));
    var rest := if Wildcard(listen) then Decimal(port) else listen + ":" + Decimal(port);
    assert |"inbound-"| == 8 && DeriveTag(listen, port) == "inbound-" + rest;
    if !Wildcard(listen) {
      assert rest[|listen|] == ':';
    }
  }

  /** Addresses that do not clash get different tags. */
  lemma TagsDiffer(listen: string, port: int, listen': string, port': int)
    requires DeriveTag(listen, port) == DeriveTag(listen', port')
    ensures Clash(listen, port, listen', port')
  {
    TagTail(listen, port);
    TagTail(listen', port');
    DecimalSign(port);
    DecimalSign(port');
    if Wildcard(listen) {
      DecimalInjective(port, port');
    } else {
      LastColon(listen, Decimal(port));
      LastColon(listen', Decimal(port'));
      assert |listen| == |listen'|;
      DecimalInjective(port, port');
    }
  }

  // ----- ids -----

  /** The least number from n on that is not taken. */
  ghost function LeastFree(ids: set<int>, n: int): int
    decreases ids
  {
    if n in ids then LeastFree(ids - {n}, n + 1) else n
  }

  lemma {:induction false} LeastFreeIsLeast(ids: set<int>, n: int)
    ensures LeastFree(ids, n) >= n && LeastFree(ids, n) !in ids
    ensures forall k :: n <= k < LeastFree(ids, n) ==> k in ids
    decreases ids
  {
    if n !in ids {
    } else {
      LeastFreeIsLeast(ids - {n}, n + 1);
    }
  }

  lemma LeastExists(ids: set<int>)
    requires exists id :: id in ids
    ensures exists least :: least in ids && forall id :: id in ids ==> least <= id
  {
    var x :| x in ids;
    LeastBelow(ids, x);
  }

  lemma {:induction false} LeastBelow(ids: set<int>, x: int)
    requires x in ids
    ensures exists least :: least in ids && forall id :: id in ids ==> least <= id
    decreases ids
  {
    if y :| y in ids && y < x {
      var rest := set id | id in ids && id < x;
      assert x !in rest && rest <= ids;
      LeastBelow(rest, y);
      var least :| least in rest && forall id :: id in rest ==> least <= id;
      assert forall id :: id in ids && id < x ==> id in rest;
      assert forall id :: id in ids ==> least <= id;
    } else {
      assert forall id :: id in ids ==> x <= id;
    }
  }

  lemma {:induction false} LeastFreeUnique(ids: set<int>, n: int, k: int)
    requires n <= k && k !in ids && forall m :: n <= m < k ==> m in ids
    ensures LeastFree(ids, n) == k
    decreases k - n
  {
    if n == k {
    } else {
      LeastFreeUnique(ids - {n}, n + 1, k);
    }
  }
}
