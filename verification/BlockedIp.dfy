/**
 The blocked-address test of src/bluesky/bluesky-identity.service.ts: octets are folded with JavaScript's
 32-bit signed shift and compared with the folds of a range table.
 */
module BlockedIp {
  import opened Basics

  type Octet = x: nat | x < 256

  /** An IPv4 address in dotted form. */
  datatype Address = Address(a: Octet, b: Octet, c: Octet, d: Octet)

  datatype Range = Range(start: Address, end: Address)

  const BLOCKED_RANGES: seq<Range> := [
    Range(Address(127, 0, 0, 0), Address(127, 255, 255, 255)),
    Range(Address(10, 0, 0, 0), Address(10, 255, 255, 255)),
    Range(Address(172, 16, 0, 0), Address(172, 31, 255, 255)),
    Range(Address(192, 168, 0, 0), Address(192, 168, 255, 255)),
    Range(Address(169, 254, 0, 0), Address(169, 254, 255, 255)),
    Range(Address(0, 0, 0, 0), Address(0, 255, 255, 255)),
    Range(Address(224, 0, 0, 0), Address(239, 255, 255, 255)),
    Range(Address(240, 0, 0, 0), Address(255, 255, 255, 255))
  ]

  /** ToInt32: the representative modulo 2^32 between -2^31 and 2^31 - 1. */
  function ToInt32(x: int): int {
    var m := x % 0x1_0000_0000;
    if m >= 0x8000_0000 then m - 0x1_0000_0000 else m
  }

  /** `(acc << 8) + octet`: the shift works on 32-bit signed integers, the addition does not wrap. */
  function ShiftAdd(acc: int, octet: Octet): int {
    ToInt32(ToInt32(acc) * 256) + octet
  }

  function Fold(acc: int, octets: seq<Octet>): int
    decreases |octets|
  {
    if octets == [] then acc else Fold(ShiftAdd(acc, octets[0]), octets[1..])
  }

  function IpToNumber(ip: Address): int {
    Fold(0, [ip.a, ip.b, ip.c, ip.d])
  }

  predicate InRange(n: int, range: Range) {
    IpToNumber(range.start) <= n <= IpToNumber(range.end)
  }

  predicate InSomeRange(n: int, ranges: seq<Range>) {
    ranges != [] && (InRange(n, ranges[0]) || InSomeRange(n, ranges[1..]))
  }

  predicate IsBlockedIp(ip: Address) {
    InSomeRange(IpToNumber(ip), BLOCKED_RANGES)
  }

  // ---------------------------------------------------------------- what the fold computes

  /** The address as the unsigned 32-bit number that its octets spell. */
  function Value(ip: Address): nat {
    ip.a * 0x100_0000 + ip.b * 0x1_0000 + ip.c * 0x100 + ip.d
  }

  lemma {:induction false} FoldTail(acc: int, octet: Octet, rest: seq<Octet>)
    ensures Fold(acc, [octet] + rest) == Fold(ShiftAdd(acc, octet), rest)
  {
    assert ([octet] + rest)[1..] == rest;
  }

  lemma FoldFour(a: Octet, b: Octet, c: Octet, d: Octet)
    ensures Fold(0, [a, b, c, d]) == ShiftAdd(ShiftAdd(ShiftAdd(ShiftAdd(0, a), b), c), d)
  {
    var one := ShiftAdd(0, a);
    var two := ShiftAdd(one, b);
    assert [a, b, c, d] == [a] + [b, c, d] && [b, c, d] == [b] + [c, d] && [c, d] == [c] + [d] && [d] == [d] + [];
    FoldTail(0, a, [b, c, d]);
    FoldTail(one, b, [c, d]);
    FoldTail(two, c, [d]);
    FoldTail(ShiftAdd(two, c), d, []);
  }

  lemma ShiftSmall(acc: nat, octet: Octet)
    requires acc < 0x100_0000
    ensures ShiftAdd(acc, octet) == acc * 256 + octet - (if acc < 0x80_0000 then 0 else 0x1_0000_0000)
  {
  }

  /** From 128.0.0.0 on the fold is negative: the address less 2^32. */
  lemma FoldIsSigned(ip: Address)
    ensures IpToNumber(ip) == if ip.a < 128 then Value(ip) else Value(ip) - 0x1_0000_0000
  {
    FoldFour(ip.a, ip.b, ip.c, ip.d);
    var two: int := ip.a as int * 256 + ip.b as int;
    var three: int := two * 256 + ip.c as int;
    ShiftSmall(0, ip.a);
    ShiftSmall(ip.a, ip.b);
    ShiftSmall(two, ip.c);
    ShiftSmall(three, ip.d);
  }

  predicate SameHalf(x: Address, y: Address) {
    x.a < 128 <==> y.a < 128
  }

  ghost predicate TestIsRight(range: Range) {
    forall ip :: InRange(IpToNumber(ip), range) <==> Value(range.start) <= Value(ip) <= Value(range.end)
  }

  /** Signed comparison decides a range correctly for every address exactly when the range does not cross 128.0.0.0. */
  lemma SignedRangeTestExactly(range: Range)
    requires Value(range.start) <= Value(range.end)
    ensures TestIsRight(range) <==> SameHalf(range.start, range.end)
  {
    FoldIsSigned(range.start);
    FoldIsSigned(range.end);
    if SameHalf(range.start, range.end) {
      forall ip
        ensures InRange(IpToNumber(ip), range) <==> Value(range.start) <= Value(ip) <= Value(range.end)
      {
        FoldIsSigned(ip);
      }
    } else {
      assert !InRange(IpToNumber(range.start), range);
    }
  }

  // ---------------------------------------------------------------- the eight blocks

  /** A CIDR block, by its base and the number of its addresses. */
  datatype Block = Block(base: Address, size: nat)

  /** 127/8, the private blocks of section 3 of RFC 1918, 169.254/16, 0/8, 224/4 and 240/4, in the table's order. */
  const BLOCKED_CIDRS: seq<Block> := [
    Block(Address(127, 0, 0, 0), 0x100_0000),
    Block(Address(10, 0, 0, 0), 0x100_0000),
    Block(Address(172, 16, 0, 0), 0x10_0000),
    Block(Address(192, 168, 0, 0), 0x1_0000),
    Block(Address(169, 254, 0, 0), 0x1_0000),
    Block(Address(0, 0, 0, 0), 0x100_0000),
    Block(Address(224, 0, 0, 0), 0x1000_0000),
    Block(Address(240, 0, 0, 0), 0x1000_0000)
  ]

  /** Membership in a block: the same leading bits as its base. */
  predicate InBlock(ip: Address, block: Block) {
    block.size > 0 && Value(ip) / block.size == Value(block.base) / block.size
  }

  lemma SmallMultiple(size: int, k: int)
    requires size > 0 && -size < size * k < size
    ensures k == 0
  {
    assert size * (k + 1) == size * k + size && size * (1 - k) == size - size * k;
    PositiveFactor(size, k + 1);
    PositiveFactor(size, 1 - k);
  }

  lemma SameQuotient(x: nat, base: nat, size: nat)
    requires size > 0 && base % size == 0
    ensures x / size == base / size <==> base <= x < base + size
  {
    var p, q := x / size, base / size;
    assert base == size * q && x == size * p + x % size;
    if base <= x < base + size {
      assert size * (p - q) == size * p - size * q;
      SmallMultiple(size, p - q);
    }
  }

  /** Each entry of the table runs from its block's base to its block's last address, on one side of 128.0.0.0. */
  lemma TableEntry(i: nat)
    requires i < 8
    ensures var range, block := BLOCKED_RANGES[i], BLOCKED_CIDRS[i];
      && range.start == block.base && block.size > 0 && SameHalf(range.start, range.end)
      && Value(block.base) % block.size == 0 && Value(range.end) == Value(block.base) + block.size - 1
  {
  }

  lemma EntryIsBlock(ip: Address, i: nat)
    requires i < 8
    ensures InRange(IpToNumber(ip), BLOCKED_RANGES[i]) <==> InBlock(ip, BLOCKED_CIDRS[i])
  {
    var range, block := BLOCKED_RANGES[i], BLOCKED_CIDRS[i];
    TableEntry(i);
    SignedRangeTestExactly(range);
    assert InRange(IpToNumber(ip), range) <==> Value(range.start) <= Value(ip) <= Value(range.end);
    SameQuotient(Value(ip), Value(block.base), block.size);
  }

  lemma {:induction false} InSomeRangeExactly(n: int, ranges: seq<Range>)
    ensures InSomeRange(n, ranges) <==> exists i :: 0 <= i < |ranges| && InRange(n, ranges[i])
  {
    if ranges != [] {
      InSomeRangeExactly(n, ranges[1..]);
      assert forall i :: 0 < i < |ranges| ==> ranges[i] == ranges[1..][i - 1];
      if InSomeRange(n, ranges[1..]) {
        var i :| 0 <= i < |ranges[1..]| && InRange(n, ranges[1..][i]);
        assert InRange(n, ranges[i + 1]);
      }
    }
  }

  /** An IPv4 address is blocked exactly when it lies in one of the eight blocks. */
  lemma BlockedExactly(ip: Address)
    ensures IsBlockedIp(ip) <==> exists i :: 0 <= i < |BLOCKED_CIDRS| && InBlock(ip, BLOCKED_CIDRS[i])
  {
    InSomeRangeExactly(IpToNumber(ip), BLOCKED_RANGES);
    forall i | 0 <= i < 8
      ensures InRange(IpToNumber(ip), BLOCKED_RANGES[i]) <==> InBlock(ip, BLOCKED_CIDRS[i])
    {
      EntryIsBlock(ip, i);
    }
  }
}
