/** Addresses, gateways and subnets as the strings the program builds and compares. */
module Addresses {
  import opened Text

  const MIN_SUBNET := 1
  const MAX_SUBNET := 254
  const BASE_IP := "10.20"
  const FIRST_HOST := 2
  const LAST_HOST := 254

  function NetworkBase(n: nat): string {
    BASE_IP + ['.'] + Digits(n)
  }

  function SubnetOf(n: nat): string {
    NetworkBase(n) + ".0/24"
  }

  function Address(base: string, host: nat): string {
    base + ['.'] + Digits(host)
  }

  function GatewayOf(n: nat): string {
    Address(NetworkBase(n), 1)
  }

  /** The first three parts of a gateway of four parts. */
  function BaseOf(gateway: string): (base: seq<string>)
    ensures |base| <= 1
  {
    var parts := Split(gateway, '.');
    if |parts| != 4 then [] else [parts[0] + ['.'] + parts[1] + ['.'] + parts[2]]
  }

  lemma LastPartUnique(a: string, x: string, b: string, y: string, sep: char)
    requires sep !in x && sep !in y
    requires a + [sep] + x == b + [sep] + y
    ensures a == b && x == y
  {
    var s := a + [sep] + x;
    assert s == b + [sep] + y;
    assert forall k | |a| < k < |s| :: s[k] == x[k - |a| - 1];
    assert forall k | |b| < k < |s| :: s[k] == y[k - |b| - 1];
    assert s[|a|] == sep && s[|b|] == sep;
    assert |a| == |b|;
    assert s[..|a|] == a && s[..|b|] == b;
    assert s[|a| + 1..] == x && s[|b| + 1..] == y;
  }

  /** Equal address strings are equal addresses. */
  lemma AddressInjective(base: string, host: nat, base': string, host': nat)
    requires Address(base, host) == Address(base', host')
    ensures base == base' && host == host'
  {
    LastPartUnique(base, Digits(host), base', Digits(host'), '.');
    DigitsInjective(host, host');
  }

  lemma NetworkBaseInjective(m: nat, n: nat)
    requires NetworkBase(m) == NetworkBase(n)
    ensures m == n
  {
    LastPartUnique(BASE_IP, Digits(m), BASE_IP, Digits(n), '.');
    DigitsInjective(m, n);
  }

  lemma SubnetInjective(m: nat, n: nat)
    requires SubnetOf(m) == SubnetOf(n)
    ensures m == n
  {
    assert SubnetOf(m)[..|SubnetOf(m)| - 5] == NetworkBase(m);
    assert SubnetOf(n)[..|SubnetOf(n)| - 5] == NetworkBase(n);
    NetworkBaseInjective(m, n);
  }

  lemma Regroup(a: string, b: string, c: string, d: string)
    ensures a + ['.'] + b + ['.'] + c + ['.'] + d == a + ['.'] + (b + ['.'] + (c + ['.'] + d))
  {
    assert a + ['.'] + b + ['.'] + c == a + ['.'] + (b + ['.'] + c);
  }

  /** Four parts with dots between them. */
  lemma FourParts(a: string, b: string, c: string, d: string)
    requires '.' !in a && '.' !in b && '.' !in c && '.' !in d
    ensures Split(a + ['.'] + b + ['.'] + c + ['.'] + d, '.') == [a, b, c, d]
  {
    var s2 := c + ['.'] + d;
    var s3 := b + ['.'] + s2;
    SplitSingle(d, '.');
    SplitFirst(c, d, '.');
    SplitFirst(b, s2, '.');
    SplitFirst(a, s3, '.');
    Regroup(a, b, c, d);
    assert [a] + ([b] + ([c] + [d])) == [a, b, c, d];
  }

  lemma BaseInParts(n: nat)
    ensures NetworkBase(n) == "10" + ['.'] + "20" + ['.'] + Digits(n)
  {
    assert BASE_IP == "10" + ['.'] + "20";
  }

  /** The strings of network n are 10.20.n.0/24, 10.20.n.1, and 10.20.n.h for its hosts. */
  lemma PartsOf(n: nat, host: nat)
    ensures Split(SubnetOf(n), '.') == ["10", "20", Digits(n), "0/24"]
    ensures Split(GatewayOf(n), '.') == ["10", "20", Digits(n), "1"]
    ensures Split(Address(NetworkBase(n), host), '.') == ["10", "20", Digits(n), Digits(host)]
  {
    BaseInParts(n);
    FourParts("10", "20", Digits(n), "0/24");
    assert SubnetOf(n) == NetworkBase(n) + ['.'] + "0/24";
    FourParts("10", "20", Digits(n), Digits(1));
    FourParts("10", "20", Digits(n), Digits(host));
  }

  /** A gateway of four parts gives its first three, and any other gives none. */
  lemma BaseOfParts(parts: seq<string>)
    requires parts != [] && forall p | p in parts :: '.' !in p
    ensures BaseOf(Join(parts, '.')) ==
            if |parts| == 4 then [parts[0] + ['.'] + parts[1] + ['.'] + parts[2]] else []
  {
    SplitJoin(parts, '.');
  }

  /** Splitting a gateway the program made gives back the base it was made from. */
  lemma BaseOfGateway(n: nat)
    ensures BaseOf(GatewayOf(n)) == [NetworkBase(n)]
  {
    PartsOf(n, 1);
    BaseInParts(n);
  }

  /** An address of the same base occurs in every address whose host digits start with its own. */
  lemma AddressOccurs(base: string, host: nat, other: nat, rest: string)
    requires HasPrefix(Digits(other), Digits(host))
    ensures Contains(Address(base, other) + rest, Address(base, host))
  {
    var line := Address(base, other) + rest;
    var ip := Address(base, host);
    assert line[..|ip|] == ip by {
      assert line[..|base| + 1] == base + ['.'];
      assert line[|base| + 1..|ip|] == Digits(other)[..|Digits(host)|];
      assert line[..|ip|] == line[..|base| + 1] + line[|base| + 1..|ip|];
    }
    assert line[0..] == line;
    assert OccursAt(line, ip, 0);
  }
}
