/** Host identity strings and the order of hosts (pkg/permissions/internal/selecthost/helpers.go
    and host.go). */
module HostIdentity {

  newtype uint16 = n: int | 0 <= n < 0x1_0000

  /** The fields of an SRV record. */
  datatype Record = Record(target: string, port: uint16, priority: uint16, weight: uint16)

  // ---------- strings ----------

  /** strings.TrimRight(s, "."). */
  function TrimDots(s: string): (t: string)
    ensures t <= s && (t == "" || t[|t| - 1] != '.')
    ensures forall i :: |t| <= i < |s| ==> s[i] == '.'
  {
    if s != "" && s[|s| - 1] == '.' then TrimDots(s[..|s| - 1]) else s
  }

  /** The value is the only prefix without a trailing dot that lacks nothing but dots. */
  lemma {:induction false} TrimIsUnique(s: string, t: string)
    requires t <= s && (t == "" || t[|t| - 1] != '.') && forall i :: |t| <= i < |s| ==> s[i] == '.'
    ensures TrimDots(s) == t
  {
    if s != "" && s[|s| - 1] == '.' {
      TrimIsUnique(s[..|s| - 1], t);
    }
  }

  function Digit(d: nat): (c: char)
    requires d < 10
    ensures '0' <= c <= '9'
  {
    '0' + d as char
  }

  /** strconv.FormatUint(n, 10). */
  function Decimal(n: nat): (s: string)
    ensures s != "" && forall c :: c in s ==> '0' <= c <= '9'
  {
    if n < 10 then [Digit(n)] else Decimal(n / 10) + [Digit(n % 10)]
  }

  const MAX_PORT: nat := 0xFFFF

  /** strconv.ParseUint(s, 10, 16) from an accumulated value, errors dropped: 0 where the text is
      not a number, the maximum where the number does not fit. */
  function ParseFrom(n: nat, s: string): (r: nat)
    requires n <= MAX_PORT
    ensures r <= MAX_PORT
    decreases |s|
  {
    if s == "" then n
    else if !('0' <= s[0] <= '9') then 0
    else
      var m := 10 * n + (s[0] - '0') as nat;
      if m > MAX_PORT then MAX_PORT else ParseFrom(m, s[1..])
  }

  function ParsePort(s: string): uint16 {
    ParseFrom(0, s) as uint16
  }

  predicate Digits(s: string) {
    forall i :: 0 <= i < |s| ==> '0' <= s[i] <= '9'
  }

  /** The digits that the text begins with. */
  function Lead(s: string): (t: string)
    ensures t <= s && Digits(t)
    ensures t == s || !('0' <= s[|t|] <= '9')
  {
    if s == "" || !('0' <= s[0] <= '9') then "" else [s[0]] + Lead(s[1..])
  }

  /** The number that decimal digits denote. */
  function Value(s: string): nat
    requires Digits(s)
  {
    if s == "" then 0 else 10 * Value(s[..|s| - 1]) + (s[|s| - 1] - '0') as nat
  }

  /** Digits in front weigh at least as much as without them. */
  lemma {:induction false} ValueGrows(s: string, k: nat)
    requires Digits(s) && k <= |s|
    ensures Digits(s[..k]) && Value(s[..k]) <= Value(s)
  {
    if k < |s| {
      ValueGrows(s[..|s| - 1], k);
      assert s[..|s| - 1][..k] == s[..k];
    } else {
      assert s[..k] == s;
    }
  }

  lemma NextDigit(lead: string, k: nat)
    requires Digits(lead) && k < |lead|
    ensures Digits(lead[..k]) && Digits(lead[..k + 1])
    ensures Value(lead[..k + 1]) == 10 * Value(lead[..k]) + (lead[k] - '0') as nat
  {
    assert lead[..k + 1][..k] == lead[..k];
  }

  /** No digit follows. */
  predicate Ends(tail: string) {
    tail == "" || !('0' <= tail[0] <= '9')
  }

  /** Parsing on from the first k of the leading digits. */
  lemma {:induction false} ParseOn(lead: string, tail: string, k: nat)
    requires Digits(lead) && Ends(tail) && k <= |lead| && Value(lead[..k]) <= MAX_PORT
    ensures ParseFrom(Value(lead[..k]), lead[k..] + tail) ==
      if Value(lead) > MAX_PORT then MAX_PORT else if tail == "" then Value(lead) else 0
    decreases |lead| - k
  {
    if k == |lead| {
      assert lead[..k] == lead && lead[k..] + tail == tail;
    } else {
      var s := lead[k..] + tail;
      assert s[0] == lead[k] && s[1..] == lead[k + 1..] + tail;
      NextDigit(lead, k);
      if Value(lead[..k + 1]) > MAX_PORT {
        ValueGrows(lead, k + 1);
      } else {
        ParseOn(lead, tail, k + 1);
      }
    }
  }

  /** The port read from a text: its number if it fits, the maximum if the digits it begins with
      do not fit, and 0 if it is not a number. */
  lemma PortReadFrom(s: string)
    ensures ParsePort(s) as nat ==
      if Value(Lead(s)) > MAX_PORT then MAX_PORT else if Lead(s) == s then Value(s) else 0
  {
    var lead, tail := Lead(s), s[|Lead(s)|..];
    assert lead[..0] == "" && lead[0..] + tail == s;
    ParseOn(lead, tail, 0);
  }

  /** The decimal number of a 16-bit port. */
  predicate IsPort(s: string) {
    s != "" && Digits(s) && Value(s) <= MAX_PORT
  }

  lemma {:induction false} LeadOfDigits(s: string)
    ensures Lead(s) == s <==> Digits(s)
  {
    if s != "" {
      LeadOfDigits(s[1..]);
      assert s == [s[0]] + s[1..];
    }
  }

  /** A text that is not a port is read as the default 0 exactly when the digits it begins with
      denote a 16-bit number. */
  lemma InvalidPortIsZero(s: string)
    requires !IsPort(s)
    ensures ParsePort(s) == 0 <==> Value(Lead(s)) <= MAX_PORT
  {
    PortReadFrom(s);
    LeadOfDigits(s);
  }

  /** A port that does not fit is no port, and is read as the maximum. */
  lemma LargePortIsNotZero()
    ensures !IsPort("70000") && ParsePort("70000") == 65535
  {
    var s := "70000";
    assert s[..0] == "" && s[..5] == s;
    NextDigit(s, 0);
    NextDigit(s, 1);
    NextDigit(s, 2);
    NextDigit(s, 3);
    NextDigit(s, 4);
    LeadOfDigits(s);
    PortReadFrom(s);
  }

  lemma {:induction false} ParseReadsOn(n: nat, rest: string)
    requires n <= MAX_PORT
    ensures ParseFrom(0, Decimal(n) + rest) == ParseFrom(n, rest)
    decreases n
  {
    if n < 10 {
      assert (Decimal(n) + rest)[1..] == rest;
    } else {
      var next := [Digit(n % 10)] + rest;
      ParseReadsOn(n / 10, next);
      assert Decimal(n / 10) + next == Decimal(n) + rest;
      assert next[1..] == rest;
    }
  }

  /** A port that was formatted parses back. */
  lemma PortRoundTrip(port: uint16)
    ensures ParsePort(Decimal(port as nat)) == port
  {
    ParseReadsOn(port as nat, "");
    assert Decimal(port as nat) + "" == Decimal(port as nat);
  }

  lemma DecimalIsInjective(a: uint16, b: uint16)
    requires Decimal(a as nat) == Decimal(b as nat)
    ensures a == b
  {
    PortRoundTrip(a);
    PortRoundTrip(b);
  }

  // ---------- identity ----------

  function HostID(host: string, port: uint16, priority: uint16, weight: uint16): string {
    TrimDots(host) + ":" + Decimal(port as nat) + ":" + Decimal(priority as nat) + ":" + Decimal(weight as nat)
  }

  function KeyOf(srv: Record): string {
    HostID(srv.target, srv.port, srv.priority, srv.weight)
  }

  function LastColonAt(s: string): int {
    if s == "" then -1 else if s[|s| - 1] == ':' then |s| - 1 else LastColonAt(s[..|s| - 1])
  }

  lemma {:induction false} ColonBetween(a: string, b: string)
    requires ':' !in b
    ensures LastColonAt(a + ":" + b) == |a|
  {
    if b != "" {
      ColonBetween(a, b[..|b| - 1]);
      assert (a + ":" + b)[..|a + ":" + b| - 1] == a + ":" + b[..|b| - 1];
    }
  }

  /** The text after the last colon, and the text before it, are determined. */
  lemma LastColon(a: string, b: string, c: string, d: string)
    requires a + ":" + b == c + ":" + d && ':' !in b && ':' !in d
    ensures a == c && b == d
  {
    ColonBetween(a, b);
    ColonBetween(c, d);
    var s, t := a + ":" + b, c + ":" + d;
    assert s[..|a|] == a && t[..|c|] == c;
    assert s[|a| + 1..] == b && t[|c| + 1..] == d;
  }

  /** Two hosts share an identity exactly when they differ in trailing dots at most, whatever
      colons their names contain. */
  lemma IdentityIsInjective(h1: string, p1: uint16, r1: uint16, w1: uint16, h2: string, p2: uint16, r2: uint16,
    w2: uint16)
    ensures HostID(h1, p1, r1, w1) == HostID(h2, p2, r2, w2) <==>
      TrimDots(h1) == TrimDots(h2) && p1 == p2 && r1 == r2 && w1 == w2
  {
    if HostID(h1, p1, r1, w1) == HostID(h2, p2, r2, w2) {
      var d1, d2 := Decimal(w1 as nat), Decimal(w2 as nat);
      var a1, a2 := TrimDots(h1) + ":" + Decimal(p1 as nat), TrimDots(h2) + ":" + Decimal(p2 as nat);
      LastColon(a1 + ":" + Decimal(r1 as nat), d1, a2 + ":" + Decimal(r2 as nat), d2);
      LastColon(a1, Decimal(r1 as nat), a2, Decimal(r2 as nat));
      LastColon(TrimDots(h1), Decimal(p1 as nat), TrimDots(h2), Decimal(p2 as nat));
      DecimalIsInjective(p1, p2);
      DecimalIsInjective(r1, r2);
      DecimalIsInjective(w1, w2);
    }
  }

  /** The identity newHost computes from a host name, the text of a port and a record. */
  function NewHostID(target: string, port: string, srv: Record): string {
    HostID(TrimDots(target), ParsePort(port), srv.priority, srv.weight)
  }

  /** A host made from a discovered record has the key of the record. */
  lemma NewHostHasKey(srv: Record)
    ensures NewHostID(srv.target, Decimal(srv.port as nat), srv) == KeyOf(srv)
  {
    PortRoundTrip(srv.port);
    TrimIsUnique(TrimDots(srv.target), TrimDots(srv.target));
  }

  /** A host configured by name, as the preferred one is, equals a discovered record exactly when
      the record has that name and port, and priority and weight zero. */
  lemma ConfiguredHostMatches(host: string, port: string, srv: Record)
    ensures NewHostID(host, port, Record("", 0, 0, 0)) == KeyOf(srv) <==>
      TrimDots(host) == TrimDots(srv.target) && ParsePort(port) == srv.port && srv.priority == 0 && srv.weight == 0
  {
    TrimIsUnique(TrimDots(host), TrimDots(host));
    IdentityIsInjective(TrimDots(host), ParsePort(port), 0, 0, srv.target, srv.port, srv.priority, srv.weight);
  }

  /** A preferred host is not recognised in a record of its name and port that has a weight. */
  lemma PreferredHostIsMissed()
    ensures var srv := Record("a.example.", 443, 0, 5);
      NewHostID("a.example", "443", Record("", 0, 0, 0)) != KeyOf(srv) && TrimDots("a.example") == TrimDots(srv.target)
      && ParsePort("443") == srv.port
  {
    var srv := Record("a.example.", 443, 0, 5);
    TrimIsUnique("a.example", "a.example");
    TrimIsUnique(srv.target, "a.example");
    ConfiguredHostMatches("a.example", "443", srv);
    assert Decimal(443) == "443" by {
      assert Decimal(4) == "4" && Decimal(44) == "44";
    }
    PortRoundTrip(443);
  }

  // ---------- order ----------

  /** What the order of hosts looks at. */
  datatype Standing = Standing(failed: bool, priority: uint16, weight: uint16, average: nat)

  predicate Before(a: Standing, b: Standing) {
    if !a.failed && b.failed then true
    else if a.failed && !b.failed then false
    else if a.priority < b.priority then true
    else if a.priority > b.priority then false
    else if a.weight < b.weight then true
    else if a.weight > b.weight then false
    else a.average < b.average
  }

  /** Before is a strict weak order: asymmetric, and negatively transitive. */
  lemma BeforeIsStrictWeakOrder(a: Standing, b: Standing, c: Standing)
    ensures !(Before(a, b) && Before(b, a))
    ensures Before(a, b) && Before(b, c) ==> Before(a, c)
    ensures !Before(a, b) && !Before(b, c) ==> !Before(a, c)
    ensures !Before(a, b) && !Before(b, a) <==> a == b
  {
  }

  /** Errors first, then priority, then weight, each worth more than all that follow. */
  function Rank(failed: bool, priority: uint16, weight: uint16): nat {
    (if failed then 0x1_0000_0000 else 0) + priority as nat * 0x1_0000 + weight as nat
  }

  /** Before is the order of the ranks, least first, and of the averages among equal ranks. */
  lemma BeforeComparesRanks(a: Standing, b: Standing)
    ensures Before(a, b) <==>
      var x, y := Rank(a.failed, a.priority, a.weight), Rank(b.failed, b.priority, b.weight);
      x < y || (x == y && a.average < b.average)
  {
  }
}
