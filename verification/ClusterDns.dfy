/** The cluster DNS address derived from the service range, and membership of an address in a range. */
module ClusterDns {
  import opened Wrappers
  import opened Text

  // ----- IPv4 texts -----

  type octet = b: int | 0 <= b < 256

  datatype Addr = Addr(a: octet, b: octet, c: octet, d: octet)

  datatype Cidr = Cidr(addr: Addr, bits: nat)

  /** A decimal octet without leading zeros. */
  function ParseOctet(s: string): (r: Option<octet>)
  {
    if |s| > 1 && s[0] == '0' then None
    else
      match ParseUint(s, 255)
      case None => None
      case Some(n) => Some(n)
  }

  function AddrOf(parts: seq<string>): Option<Addr>
  {
    if |parts| != 4 then None
    else
      match (ParseOctet(parts[0]), ParseOctet(parts[1]), ParseOctet(parts[2]), ParseOctet(parts[3]))
      case (Some(a), Some(b), Some(c), Some(d)) => Some(Addr(a, b, c, d))
      case _ => None
  }

  function ParseIP(s: string): Option<Addr>
  {
    AddrOf(Split(s, '.'))
  }

  function ParseCIDR(s: string): (r: Option<Cidr>)
    ensures r.Some? ==> r.value.bits <= 32
  {
    var slash := Find(s, '/');
    if slash == |s| then None
    else
      match (ParseIP(s[..slash]), ParseUint(s[slash + 1..], 32))
      case (Some(addr), Some(bits)) => Some(Cidr(addr, bits))
      case _ => None
  }

  // ----- The DNS address -----

  /** isIPv6 stands for the parser of IPv6 ranges. */
  function GetClusterDns(cidr: string, isIPv6: string -> bool): Option<string>
  {
    if ParseCIDR(cidr).Some? then
      var dot := LastIndex(cidr, '.');
      if dot < 0 then None else Some(cidr[..dot] + ".10")
    else if isIPv6(cidr) then Some(Split(cidr, '/')[0] + "a")
    else None
  }

  lemma JoinFour(p: seq<string>)
    requires |p| == 4
    ensures Join(p, '.') == p[0] + "." + p[1] + "." + p[2] + "." + p[3]
  {
    assert p[1..][1..] == p[2..] && p[2..][1..] == [p[3]];
    assert Join(p[2..], '.') == p[2] + "." + p[3];
    assert Join(p[1..], '.') == p[1] + "." + Join(p[2..], '.');
  }

  /** An IPv4 range text taken apart into its four octet texts and its prefix length. */
  lemma CidrText(cidr: string) returns (p: seq<string>, bits: string)
    requires ParseCIDR(cidr).Some?
    ensures |p| == 4 && AddrOf(p) == Some(ParseCIDR(cidr).value.addr)
    ensures '.' !in bits && '.' !in p[0] && '.' !in p[1] && '.' !in p[2] && '.' !in p[3]
    ensures cidr == p[0] + "." + p[1] + "." + p[2] + "." + p[3] + "/" + bits
  {
    var slash := Find(cidr, '/');
    var text := cidr[..slash];
    bits := cidr[slash + 1..];
    p := Split(text, '.');
    JoinOfSplit(text, '.');
    assert cidr == text + "/" + bits;
    JoinFour(p);
  }

  lemma Regroup(a: string, b: string, c: string)
    ensures a + "." + b + "." + c == a + "." + (b + "." + c)
  {
  }

  lemma SplitFour(p0: string, p1: string, p2: string, p3: string)
    requires '.' !in p0 && '.' !in p1 && '.' !in p2 && '.' !in p3
    ensures Split(p0 + "." + p1 + "." + p2 + "." + p3, '.') == [p0, p1, p2, p3]
  {
    var r2 := p2 + ['.'] + p3;
    var r1 := p1 + ['.'] + r2;
    assert p0 + "." + p1 + "." + p2 + "." + p3 == p0 + ['.'] + r1 by {
      Regroup(p0 + "." + p1, p2, p3);
      Regroup(p0, p1, r2);
    }
    SplitFirst(p0, r1, '.');
    SplitFirst(p1, r2, '.');
    SplitFirst(p2, p3, '.');
    SplitWhole(p3, '.');
  }

  lemma TenIsAnOctet()
    ensures ParseOctet("10") == Some(10) && '.' !in "10"
  {
    assert Value("1") == 10 * Value("") + 1 == 1 by {
      assert "1"[..0] == "";
    }
    assert Value("10") == 10 * Value("1") + 0 by {
      assert "10"[..1] == "1";
    }
  }

  /** The derived address is the range's own address with its last octet replaced by 10. */
  lemma DnsReplacesTheLastOctet(cidr: string, isIPv6: string -> bool)
    requires ParseCIDR(cidr).Some?
    ensures var dns := GetClusterDns(cidr, isIPv6);
            dns.Some? && ParseIP(dns.value) == Some(ParseCIDR(cidr).value.addr.(d := 10))
  {
    var p, bits := CidrText(cidr);
    var head := p[0] + "." + p[1] + "." + p[2];
    var tail := p[3] + "/" + bits;
    assert cidr == head + ['.'] + tail;
    LastIndexAt(head, '.', tail);
    assert cidr[..|head|] == head;
    var dns := p[0] + "." + p[1] + "." + p[2] + "." + "10";
    assert GetClusterDns(cidr, isIPv6) == Some(dns) by {
      assert head + ".10" == dns;
    }
    TenIsAnOctet();
    SplitFour(p[0], p[1], p[2], "10");
  }

  // ----- The texts of addresses and ranges -----

  function PrintAddr(x: Addr): string
  {
    Decimal(x.a) + "." + Decimal(x.b) + "." + Decimal(x.c) + "." + Decimal(x.d)
  }

  lemma OctetExactly(s: string, n: octet)
    ensures ParseOctet(s) == Some(n) <==> s == Decimal(n)
  {
    ValueOfDecimal(n);
    DecimalIsCanonical(n);
    if ParseOctet(s) == Some(n) {
      DecimalOfValue(s);
    }
  }

  lemma FourPieces(p: seq<string>, x: Addr)
    requires |p| == 4
    ensures AddrOf(p) == Some(x)
            <==> p[0] == Decimal(x.a) && p[1] == Decimal(x.b) && p[2] == Decimal(x.c) && p[3] == Decimal(x.d)
  {
    OctetExactly(p[0], x.a);
    OctetExactly(p[1], x.b);
    OctetExactly(p[2], x.c);
    OctetExactly(p[3], x.d);
  }

  /** An address is written exactly as its four octets, the most significant first. */
  lemma AddrsExactly(s: string, x: Addr)
    ensures ParseIP(s) == Some(x) <==> s == PrintAddr(x)
  {
    if ParseIP(s) == Some(x) {
      JoinOfSplit(s, '.');
      FourPieces(Split(s, '.'), x);
      JoinFour(Split(s, '.'));
    }
    if s == PrintAddr(x) {
      var p := [Decimal(x.a), Decimal(x.b), Decimal(x.c), Decimal(x.d)];
      SplitFour(p[0], p[1], p[2], p[3]);
      FourPieces(p, x);
    }
  }

  lemma AddrHasNoSlash(x: Addr)
    ensures '/' !in PrintAddr(x)
  {
  }

  lemma CidrParts(addr: string, bits: string)
    requires '/' !in addr
    ensures var s := addr + "/" + bits;
            Find(s, '/') == |addr| < |s| && s[..|addr|] == addr && s[|addr| + 1..] == bits
  {
    assert addr + "/" + bits == addr + ['/'] + bits;
    FindAt(addr, '/', bits);
  }

  lemma BitsOfCidr(s: string, x: Addr, n: nat) returns (bits: string)
    requires ParseCIDR(s) == Some(Cidr(x, n))
    ensures bits != "" && AllDigits(bits) && Value(bits) == n && n <= 32 && s == PrintAddr(x) + "/" + bits
  {
    var slash := Find(s, '/');
    bits := s[slash + 1..];
    AddrsExactly(s[..slash], x);
    assert s == s[..slash] + "/" + bits;
    assert ParseUint(bits, 32) == Some(n);
  }

  lemma CidrOfBits(x: Addr, bits: string)
    requires bits != "" && AllDigits(bits) && Value(bits) <= 32
    ensures ParseCIDR(PrintAddr(x) + "/" + bits) == Some(Cidr(x, Value(bits)))
  {
    AddrHasNoSlash(x);
    CidrParts(PrintAddr(x), bits);
    AddrsExactly(PrintAddr(x), x);
  }

  /** A range is written exactly as its address, a slash and the digits of its prefix length. */
  lemma CidrsExactly(s: string, x: Addr, n: nat)
    ensures ParseCIDR(s) == Some(Cidr(x, n))
            <==> exists bits :: bits != "" && AllDigits(bits) && Value(bits) == n && n <= 32 && s == PrintAddr(x) + "/" + bits
  {
    if ParseCIDR(s) == Some(Cidr(x, n)) {
      var bits := BitsOfCidr(s, x, n);
    }
    if bits :| bits != "" && AllDigits(bits) && Value(bits) == n && n <= 32 && s == PrintAddr(x) + "/" + bits {
      CidrOfBits(x, bits);
    }
  }

  lemma TenText(head: string)
    ensures head + "." + Decimal(10) == head + ".10"
  {
    assert Decimal(10) == "10";
  }

  /** The text of the DNS address of an IPv4 range. */
  lemma DnsText(cidr: string, x: Addr, n: nat, isIPv6: string -> bool)
    requires ParseCIDR(cidr) == Some(Cidr(x, n))
    ensures GetClusterDns(cidr, isIPv6) == Some(Decimal(x.a) + "." + Decimal(x.b) + "." + Decimal(x.c) + ".10")
  {
    DnsReplacesTheLastOctet(cidr, isIPv6);
    var dns := GetClusterDns(cidr, isIPv6).value;
    AddrsExactly(dns, x.(d := 10));
    TenText(Decimal(x.a) + "." + Decimal(x.b) + "." + Decimal(x.c));
  }

  /** An IPv6 range gives the text before its slash with an a after it, and a text that is no range gives an error. */
  lemma DnsTextIPv6(net: string, bits: string, isIPv6: string -> bool)
    requires '/' !in net && ParseCIDR(net + "/" + bits).None?
    ensures GetClusterDns(net + "/" + bits, isIPv6) == if isIPv6(net + "/" + bits) then Some(net + "a") else None
  {
    assert net + "/" + bits == net + ['/'] + bits;
    SplitFirst(net, bits, '/');
  }

  // ----- Masks -----

  function Pow2(n: nat): (p: nat)
    ensures p >= 1
  {
    if n == 0 then 1 else 2 * Pow2(n - 1)
  }

  /** Bitwise and of two numbers of n bits. */
  function BitAnd(x: nat, y: nat, n: nat): nat
  {
    if n == 0 then 0 else 2 * BitAnd(x / 2, y / 2, n - 1) + (x % 2) * (y % 2)
  }

  /** The complement of the byte 0xFF shifted right by k, which has its k high bits set. */
  function MaskByte(k: nat): int
  {
    255 - 255 / Pow2(k)
  }

  /** How many bits of byte i a prefix of this length fixes. */
  function MaskBits(bits: nat, i: nat): (k: nat)
    ensures k <= 8
  {
    if bits >= 8 * (i + 1) then 8 else if bits <= 8 * i then 0 else bits - 8 * i
  }

  function MaskedByte(x: octet, bits: nat, i: nat): nat
  {
    var mask := MaskByte(MaskBits(bits, i));
    if mask < 0 then 0 else BitAnd(x, mask, 8)
  }

  predicate Contains(r: Cidr, ip: Addr)
  {
    && MaskedByte(r.addr.a, r.bits, 0) == MaskedByte(ip.a, r.bits, 0)
    && MaskedByte(r.addr.b, r.bits, 1) == MaskedByte(ip.b, r.bits, 1)
    && MaskedByte(r.addr.c, r.bits, 2) == MaskedByte(ip.c, r.bits, 2)
    && MaskedByte(r.addr.d, r.bits, 3) == MaskedByte(ip.d, r.bits, 3)
  }

  // What an address range that is not written as IPv4 answers for an IPv4 address; None if it is no range at all.
  type OtherRange = (string, Addr) -> Option<bool>

  function ContainsIP(cidr: string, ip: Addr, other: OtherRange): Option<bool>
  {
    match ParseCIDR(cidr)
    case None => other(cidr, ip)
    case Some(r) => Some(Contains(r, ip))
  }

  /**
   The first range that does not parse or contains the address decides; an IPv6 range without the address is
   passed over. `ip` is None for an address with no IPv4 form.
   */
  method IsIPInCIDRs(ip: Option<Addr>, cidrs: seq<string>, other: OtherRange) returns (r: Option<bool>)
    ensures ip.None? ==> r == None
    ensures ip.Some? ==>
              (r == Some(true) <==> exists i :: 0 <= i < |cidrs| && ContainsIP(cidrs[i], ip.value, other) == Some(true)
                                      && forall j :: 0 <= j < i ==> ContainsIP(cidrs[j], ip.value, other) == Some(false))
    ensures ip.Some? ==>
              (r == Some(false) <==> forall i :: 0 <= i < |cidrs| ==> ContainsIP(cidrs[i], ip.value, other) == Some(false))
  {
    if ip.None? {
      return None;
    }
    for i := 0 to |cidrs|
      invariant forall j :: 0 <= j < i ==> ContainsIP(cidrs[j], ip.value, other) == Some(false)
    {
      var inNetwork := ContainsIP(cidrs[i], ip.value, other);
      if inNetwork.None? {
        return None;
      } else if inNetwork.value {
        return Some(true);
      }
    }
    return Some(false);
  }

  // ----- Masking is comparing quotients -----

  /** x divided by two j times. */
  function Halved(x: nat, j: nat): nat
  {
    if j == 0 then x else Halved(x / 2, j - 1)
  }

  /** x with its j low bits cleared. */
  function Cleared(x: nat, j: nat): nat
  {
    if j == 0 then x else 2 * Cleared(x / 2, j - 1)
  }

  /** The number of n bits whose k high bits are set. */
  function HighBits(n: nat, k: nat): nat
    requires k <= n
  {
    if k == 0 then 0
    else if k == n then 2 * HighBits(n - 1, k - 1) + 1
    else 2 * HighBits(n - 1, k)
  }

  lemma {:induction false} HighBitsValue(n: nat, k: nat)
    requires k <= n
    ensures HighBits(n, k) == Pow2(n) - Pow2(n - k)
  {
    if k > 0 {
      HighBitsValue(n - 1, if k == n then k - 1 else k);
    }
  }

  lemma PowersOfTwo()
    ensures Pow2(0) == 1 && Pow2(1) == 2 && Pow2(2) == 4 && Pow2(3) == 8 && Pow2(4) == 16
    ensures Pow2(5) == 32 && Pow2(6) == 64 && Pow2(7) == 128 && Pow2(8) == 256
  {
    assert Pow2(2) == 2 * Pow2(1);
    assert Pow2(3) == 2 * Pow2(2);
    assert Pow2(4) == 2 * Pow2(3);
    assert Pow2(5) == 2 * Pow2(4);
    assert Pow2(6) == 2 * Pow2(5);
    assert Pow2(7) == 2 * Pow2(6);
    assert Pow2(8) == 2 * Pow2(7);
  }

  lemma MaskByteIsHighBits(k: nat)
    requires k <= 8
    ensures MaskByte(k) == HighBits(8, k)
  {
    HighBitsValue(8, k);
    PowersOfTwo();
    assert k == 0 || k == 1 || k == 2 || k == 3 || k == 4 || k == 5 || k == 6 || k == 7 || k == 8;
  }

  lemma HighBitsHalved(n: nat, k: nat)
    requires 0 < n && k <= n
    ensures HighBits(n, k) / 2 == HighBits(n - 1, if k == n then k - 1 else k)
    ensures HighBits(n, k) % 2 == if k == n then 1 else 0
  {
  }

  lemma {:induction false} AndWithHighBits(x: nat, n: nat, k: nat)
    requires k <= n && x < Pow2(n)
    ensures BitAnd(x, HighBits(n, k), n) == Cleared(x, n - k)
  {
    if n > 0 {
      var rest := if k == n then k - 1 else k;
      HighBitsHalved(n, k);
      AndWithHighBits(x / 2, n - 1, rest);
      assert BitAnd(x, HighBits(n, k), n) == 2 * Cleared(x / 2, n - 1 - rest) + (if k == n then x % 2 else 0);
      if k == n {
        assert Cleared(x, 0) == x && Cleared(x / 2, 0) == x / 2;
      }
    }
  }

  lemma {:induction false} ClearedEqualsIffHalvedEqual(x: nat, y: nat, j: nat)
    ensures Cleared(x, j) == Cleared(y, j) <==> Halved(x, j) == Halved(y, j)
  {
    if j > 0 {
      ClearedEqualsIffHalvedEqual(x / 2, y / 2, j - 1);
    }
  }

  lemma MaskedByteIsHalved(x: octet, y: octet, bits: nat, i: nat)
    ensures var j := 8 - MaskBits(bits, i);
            MaskedByte(x, bits, i) == MaskedByte(y, bits, i) <==> Halved(x, j) == Halved(y, j)
  {
    var k := MaskBits(bits, i);
    MaskByteIsHighBits(k);
    PowersOfTwo();
    AndWithHighBits(x, 8, k);
    AndWithHighBits(y, 8, k);
    ClearedEqualsIffHalvedEqual(x, y, 8 - k);
  }

  // ----- Ranges of numbers (section 3.1 of RFC 4632) -----

  function Number(x: Addr): nat
  {
    ((x.a * 256 + x.b) * 256 + x.c) * 256 + x.d
  }

  /** The number of addresses that share a prefix of this length. */
  function BlockSize(bits: nat): (n: nat)
    requires bits <= 32
    ensures n >= 1
  {
    Pow2(32 - bits)
  }

  lemma ProductAtLeast(a: int, m: int)
    requires a >= 1 && m >= 1
    ensures a * m >= m
  {
  }

  lemma QuotientIs(x: nat, m: nat, q: nat, r: nat)
    requires m >= 1 && x == q * m + r && r < m
    ensures x / m == q
  {
    var q', r' := x / m, x % m;
    assert x == q' * m + r';
    assert (q - q') * m == r' - r;
    if q > q' {
      ProductAtLeast(q - q', m);
    } else if q < q' {
      ProductAtLeast(q' - q, m);
    }
  }

  lemma HalvingQuotient(x: nat, m: nat)
    requires m >= 1
    ensures x / (2 * m) == x / 2 / m
  {
    var q, r := x / 2 / m, x / 2 % m;
    assert x / 2 == q * m + r;
    assert x == 2 * (q * m + r) + x % 2;
    assert 2 * (q * m) == q * (2 * m);
    QuotientIs(x, 2 * m, q, 2 * r + x % 2);
  }

  lemma {:induction false} HalvedIsQuotient(x: nat, j: nat)
    ensures Halved(x, j) == x / Pow2(j)
  {
    if j > 0 {
      HalvedIsQuotient(x / 2, j - 1);
      HalvingQuotient(x, Pow2(j - 1));
    }
  }

  lemma {:induction false} HalvedTwice(x: nat, i: nat, j: nat)
    ensures Halved(x, i + j) == Halved(Halved(x, i), j)
  {
    if i > 0 {
      HalvedTwice(x / 2, i - 1, j);
    }
  }

  lemma HalvedByte(high: nat, low: octet)
    ensures Halved(high * 256 + low, 8) == high
  {
    HalvedIsQuotient(high * 256 + low, 8);
    PowersOfTwo();
  }

  /** u doubled n times. */
  function Doubled(u: nat, n: nat): nat
  {
    if n == 0 then u else 2 * Doubled(u, n - 1)
  }

  lemma DoubledEightTimes(u: nat)
    ensures Doubled(u, 8) == 256 * u
  {
    assert Doubled(u, 2) == 2 * Doubled(u, 1) == 4 * u;
    assert Doubled(u, 4) == 2 * Doubled(u, 3) == 4 * Doubled(u, 2);
    assert Doubled(u, 6) == 2 * Doubled(u, 5) == 4 * Doubled(u, 4);
    assert Doubled(u, 8) == 2 * Doubled(u, 7) == 4 * Doubled(u, 6);
  }

  lemma {:induction false} HalvedSplit(u: nat, v: nat, n: nat, j: nat)
    requires j <= n
    ensures Halved(Doubled(u, n) + v, j) == Doubled(u, n - j) + Halved(v, j)
  {
    if j > 0 {
      assert (Doubled(u, n) + v) / 2 == Doubled(u, n - 1) + v / 2;
      HalvedSplit(u, v / 2, n - 1, j - 1);
    }
  }

  /** Halving up to eight times compares the bytes above the last one and what remains of the last one. */
  lemma HalvedHighLow(u: nat, v: octet, u': nat, v': octet, j: nat)
    requires j <= 8
    ensures Halved(u * 256 + v, j) == Halved(u' * 256 + v', j) <==> u == u' && Halved(v, j) == Halved(v', j)
  {
    DoubledEightTimes(u);
    DoubledEightTimes(u');
    HalvedSplit(u, v, 8, j);
    HalvedSplit(u', v', 8, j);
    if Halved(u * 256 + v, j) == Halved(u' * 256 + v', j) {
      HalvedTwice(u * 256 + v, j, 8 - j);
      HalvedTwice(u' * 256 + v', j, 8 - j);
      HalvedByte(u, v);
      HalvedByte(u', v');
    }
  }

  /** The leading i + 1 bytes of an address as one number. */
  function Leading(x: Addr, i: nat): nat
    requires i <= 3
  {
    if i == 0 then x.a
    else if i == 1 then x.a * 256 + x.b
    else if i == 2 then (x.a * 256 + x.b) * 256 + x.c
    else Number(x)
  }

  lemma LeadingOfNumber(x: Addr, i: nat)
    requires i <= 3
    ensures Halved(Number(x), 8 * (3 - i)) == Leading(x, i)
  {
    HalvedByte(Leading(x, 2), x.d);
    HalvedByte(Leading(x, 1), x.c);
    HalvedByte(Leading(x, 0), x.b);
    HalvedTwice(Number(x), 8, 8);
    HalvedTwice(Number(x), 16, 8);
  }

  /** Which block of its size an address lies in. */
  lemma BlockOf(x: Addr, bits: nat, i: nat)
    requires i <= 3 && 8 * i <= bits <= 8 * (i + 1)
    ensures Number(x) / BlockSize(bits) == Halved(Leading(x, i), 8 * (i + 1) - bits)
  {
    HalvedIsQuotient(Number(x), 32 - bits);
    HalvedTwice(Number(x), 8 * (3 - i), 8 * (i + 1) - bits);
    LeadingOfNumber(x, i);
  }

  lemma NothingLeft(x: octet)
    ensures Halved(x, 8) == 0 && Halved(x, 0) == x
  {
    HalvedByte(0, x);
  }

  lemma SameLeading(x: Addr, y: Addr, i: nat, j: nat)
    requires i <= 3 && j <= 8
    ensures Halved(Leading(x, i), j) == Halved(Leading(y, i), j)
            <==> match i
                 case 0 => Halved(x.a, j) == Halved(y.a, j)
                 case 1 => x.a == y.a && Halved(x.b, j) == Halved(y.b, j)
                 case 2 => x.a == y.a && x.b == y.b && Halved(x.c, j) == Halved(y.c, j)
                 case _ => x.a == y.a && x.b == y.b && x.c == y.c && Halved(x.d, j) == Halved(y.d, j)
  {
    if i == 1 {
      HalvedHighLow(x.a, x.b, y.a, y.b, j);
    } else if i == 2 {
      HalvedHighLow(Leading(x, 1), x.c, Leading(y, 1), y.c, j);
    } else if i == 3 {
      HalvedHighLow(Leading(x, 2), x.d, Leading(y, 2), y.d, j);
    }
  }

  /** Byte i as the mask sees it: all of it, none of it, or the bits that the prefix fixes. */
  lemma SameByte(x: octet, y: octet, bits: nat, i: nat)
    ensures bits >= 8 * (i + 1) ==> (MaskedByte(x, bits, i) == MaskedByte(y, bits, i) <==> x == y)
    ensures bits <= 8 * i ==> MaskedByte(x, bits, i) == MaskedByte(y, bits, i)
    ensures 8 * i <= bits <= 8 * (i + 1) ==>
              (MaskedByte(x, bits, i) == MaskedByte(y, bits, i)
               <==> Halved(x, 8 * (i + 1) - bits) == Halved(y, 8 * (i + 1) - bits))
  {
    MaskedByteIsHalved(x, y, bits, i);
    NothingLeft(x);
    NothingLeft(y);
  }

  lemma ContainsByHalves(r: Cidr, ip: Addr, i: nat)
    requires i <= 3 && 8 * i <= r.bits <= 8 * (i + 1)
    ensures var j := 8 * (i + 1) - r.bits;
            Contains(r, ip) <==> Halved(Leading(r.addr, i), j) == Halved(Leading(ip, i), j)
  {
    var x := r.addr;
    SameByte(x.a, ip.a, r.bits, 0);
    SameByte(x.b, ip.b, r.bits, 1);
    SameByte(x.c, ip.c, r.bits, 2);
    SameByte(x.d, ip.d, r.bits, 3);
    SameLeading(x, ip, i, 8 * (i + 1) - r.bits);
  }

  /** A range contains an address exactly when both lie in the same block of addresses of its size. */
  lemma ContainsIffSameBlock(r: Cidr, ip: Addr)
    requires r.bits <= 32
    ensures Contains(r, ip) <==> Number(ip) / BlockSize(r.bits) == Number(r.addr) / BlockSize(r.bits)
  {
    var i := if r.bits == 0 then 0 else (r.bits - 1) / 8;
    ContainsByHalves(r, ip, i);
    BlockOf(ip, r.bits, i);
    BlockOf(r.addr, r.bits, i);
  }

  /** x with its remainder by m taken off. */
  function RoundDown(x: nat, m: nat): int
    requires m >= 1
  {
    x - x % m
  }

  lemma RoundDownIsProduct(x: nat, m: nat)
    requires m >= 1
    ensures RoundDown(x, m) == x / m * m
  {
  }

  lemma SameQuotientIffInBlock(x: nat, y: nat, m: nat)
    requires m >= 1
    ensures x / m == y / m <==> RoundDown(y, m) <= x < RoundDown(y, m) + m
  {
    RoundDownIsProduct(x, m);
    RoundDownIsProduct(y, m);
    if RoundDown(y, m) <= x < RoundDown(y, m) + m {
      QuotientIs(x, m, y / m, x - RoundDown(y, m));
    }
  }

  /** A range holds the BlockSize addresses that start at its own one with the host bits cleared, and no others. */
  lemma ContainsIffInRange(r: Cidr, ip: Addr)
    requires r.bits <= 32
    ensures var size := BlockSize(r.bits);
            Contains(r, ip) <==> RoundDown(Number(r.addr), size) <= Number(ip) < RoundDown(Number(r.addr), size) + size
  {
    ContainsIffSameBlock(r, ip);
    SameQuotientIffInBlock(Number(ip), Number(r.addr), BlockSize(r.bits));
  }

  lemma ContainsOtherLastOctet(r: Cidr, last: octet)
    requires r.bits <= 32
    ensures Contains(r, r.addr.(d := last)) <==> r.bits <= 24 || r.addr.d / BlockSize(r.bits) == last / BlockSize(r.bits)
  {
    MaskedByteIsHalved(r.addr.d, last, r.bits, 3);
    NothingLeft(r.addr.d);
    NothingLeft(last);
    HalvedIsQuotient(r.addr.d, 32 - r.bits);
    HalvedIsQuotient(last, 32 - r.bits);
  }

  /**
   The derived DNS address lies in the service range exactly when the range fixes at most 24 bits or its own
   last octet shares the fixed bits of 10.
   */
  lemma DnsLiesInRange(cidr: string, isIPv6: string -> bool, other: OtherRange)
    requires ParseCIDR(cidr).Some?
    ensures var r := ParseCIDR(cidr).value;
            var dns := GetClusterDns(cidr, isIPv6);
            && dns.Some? && ParseIP(dns.value).Some?
            && ContainsIP(cidr, ParseIP(dns.value).value, other)
               == Some(r.bits <= 24 || r.addr.d / BlockSize(r.bits) == 10 / BlockSize(r.bits))
  {
    DnsReplacesTheLastOctet(cidr, isIPv6);
    ContainsOtherLastOctet(ParseCIDR(cidr).value, 10);
  }
}
