/**
 * IPv4 blocks: the mask derived from a prefix length, masking an address,
 * block membership, and the ascending list of every address of a block that
 * the scanner's enumeration loop walks through.
 */
module CIDR {
  import opened Bits
  import opened IP

  /** A prefix length of an IPv4 block. */
  type Prefix = p: nat | p <= 32

  /** Go's `&` on bytes. */
  function And(x: Byte, y: Byte): Byte
  {
    BitsBound(x, y, 8);
    Pow2Eight();
    AndBits(x, y, 8)
  }

  /** Go's `|` on bytes. */
  function Or(x: Byte, y: Byte): Byte
  {
    BitsBound(x, y, 8);
    Pow2Eight();
    OrBits(x, y, 8)
  }

  /** Go's unary `^` on a byte. */
  function Not(x: Byte): Byte
  {
    255 - x
  }

  /** How many of a mask's `ones` leading one bits fall in byte i. */
  function OnesInByte(ones: nat, i: nat): (k: nat)
    ensures k <= 8
    ensures k == 8 <==> ones >= 8 * i + 8
    ensures k == 0 <==> ones <= 8 * i
  {
    if ones <= 8 * i then 0 else if ones - 8 * i >= 8 then 8 else ones - 8 * i
  }

  /** A mask byte with k leading ones, as net.CIDRMask builds it: 0xff, or ^byte(0xff >> k). */
  function MaskByte(k: nat): Byte
    requires k <= 8
  {
    if k == 8 then 0xFF else Not(255 / Pow2(k))
  }

  /** The n-byte mask with `ones` leading one bits (net.CIDRMask(ones, 8 * n)). */
  function CidrMask(ones: nat, n: nat): (m: seq<Byte>)
    ensures |m| == n
  {
    seq(n, (i: nat) => MaskByte(OnesInByte(ones, i)))
  }

  /** The IPv4 mask of a prefix. */
  function Mask(p: Prefix): Addr
  {
    CidrMask(p, 4)
  }

  /** net.IP.Mask: the bytewise AND of an address and a mask. */
  function Masked(a: seq<Byte>, m: seq<Byte>): (r: seq<Byte>)
    requires |a| == |m|
    ensures |r| == |a|
  {
    seq(|a|, i requires 0 <= i < |a| => And(a[i], m[i]))
  }

  /** The bytewise `a | ^m`: every host bit of a set. */
  function OrNot(a: seq<Byte>, m: seq<Byte>): (r: seq<Byte>)
    requires |a| == |m|
    ensures |r| == |a|
  {
    seq(|a|, i requires 0 <= i < |a| => Or(a[i], Not(m[i])))
  }

  // ---------------------------------------------------------------------
  // Byte-level facts

  /** A mask byte with k leading ones is 256 - 2^(8 - k). */
  /** 0xff shifted right by the bits a factor p of 256 counts: 255 / p == 256 / p - 1. */
  lemma ShiftOnes(p: nat, lo: nat)
    requires p >= 1 && lo >= 1 && p * lo == 256
    ensures 255 / p == lo - 1
  {
    MulDistrib(lo, -1, p);
    DivUnique(255, p, lo - 1, p - 1);
  }

  lemma MaskByteValue(k: nat)
    requires k <= 8
    ensures MaskByte(k) == HighOnes(8, 8 - k) == 256 - Pow2(8 - k)
  {
    Pow2Split(k, 8 - k, 8);
    Pow2Eight();
    HighOnesValue(8, 8 - k);
    if k < 8 {
      ShiftOnes(Pow2(k), Pow2(8 - k));
    }
  }

  lemma AndMaskByte(b: Byte, k: nat)
    requires k <= 8
    ensures And(b, MaskByte(k)) == b / Pow2(8 - k) * Pow2(8 - k)
  {
    MaskByteValue(k);
    Pow2Eight();
    AndHighOnes(b, 8, 8 - k);
  }

  lemma OrNotMaskByte(b: Byte, k: nat)
    requires k <= 8
    ensures Or(And(b, MaskByte(k)), Not(MaskByte(k))) == b / Pow2(8 - k) * Pow2(8 - k) + Pow2(8 - k) - 1
  {
    var h := 8 - k;
    var x := And(b, MaskByte(k));
    AndMaskByte(b, k);
    MaskByteValue(k);
    Pow2Eight();
    OrLowOnes(x, 8, h, b / Pow2(h));
  }

  // ---------------------------------------------------------------------
  // Peeling off the last byte

  /** The number of host bits of an n-byte mask with `ones` leading ones. */
  function HostBits(n: nat, ones: nat): (h: nat)
    ensures h <= 8 * n
  {
    if ones >= 8 * n then 0 else 8 * n - ones
  }

  lemma MaskPrefix(ones: nat, n: nat)
    requires n >= 1
    ensures CidrMask(ones, n)[..n - 1] == CidrMask(ones, n - 1)
  {
  }

  /** Rounding x + b down to a multiple of p, when x already is one, rounds only b. */
  lemma RoundAligned(x: nat, b: nat, c: nat, p: nat)
    requires p > 0 && x == c * p
    ensures (x + b) / p * p == x + b / p * p
  {
    DivAddMul(c, p, b);
    MulDistrib(c, b / p, p);
  }

  /** x / 1 * 1 == x. */
  lemma RoundOne(x: nat)
    ensures x / Pow2(0) * Pow2(0) == x
  {
    DivUnique(x, 1, x, 0);
  }

  /**
   * Rounding x = v * 256 + b down to a multiple of p = q * 256 clears b and
   * rounds v down to a multiple of q.
   */
  lemma RoundHostByte(x: nat, v: nat, b: nat, p: nat, q: nat)
    requires q >= 1 && p == q * 256 && b < 256 && x == v * 256 + b
    ensures x / p * p == (v / q * q) * 256
  {
    DivUnique(x, 256, v, b);
    DivDiv(x, 256, q);
    MulAssoc(v / q, q, 256);
  }

  /** Rounding x = v * 256 + b down to a multiple of p, where p divides 256, rounds only b. */
  lemma RoundNetByte(x: nat, v: nat, b: nat, p: nat, r: nat)
    requires p >= 1 && p * r == 256 && x == v * 256 + b
    ensures x / p * p == v * 256 + b / p * p
  {
    MulAssoc(v, r, p);
    RoundAligned(v * 256, b, v * r, p);
  }

  /**
   * The steps of the inductions below: v and b are the leading bytes' value
   * and the last byte of an address x, rv and rb those of its masked form, h
   * the number of host bits, k the mask's ones in the last byte and e the
   * host bits among the leading bytes.  When the last byte is a host byte
   * (k = 0), it is cleared and the leading bytes are rounded.
   */
  lemma MaskedStepHost(x: nat, v: nat, b: Byte, rv: nat, rb: nat, h: nat, k: nat, e: nat)
    requires x == v * 256 + b && k == 0 && e + 8 == h
    requires rb == b / Pow2(8 - k) * Pow2(8 - k) && rv == v / Pow2(e) * Pow2(e)
    ensures rv * 256 + rb == x / Pow2(h) * Pow2(h)
  {
    Pow2Eight();
    DivUnique(b, 256, 0, b);
    Pow2Split(e, 8, h);
    RoundHostByte(x, v, b, Pow2(h), Pow2(e));
  }

  /** When the host bits all lie in the last byte, only it is rounded. */
  lemma MaskedStepNet(x: nat, v: nat, b: Byte, rv: nat, rb: nat, h: nat, k: nat, e: nat)
    requires x == v * 256 + b && 0 < k <= 8 && h == 8 - k && e == 0
    requires rb == b / Pow2(8 - k) * Pow2(8 - k) && rv == v / Pow2(e) * Pow2(e)
    ensures rv * 256 + rb == x / Pow2(h) * Pow2(h)
  {
    RoundOne(v);
    Pow2Eight();
    Pow2Split(h, k, 8);
    RoundNetByte(x, v, b, Pow2(h), Pow2(k));
  }

  /** The same steps for the address with every host bit set. */
  lemma OrNotStepHost(x: nat, v: nat, b: Byte, rv: nat, rb: nat, h: nat, k: nat, e: nat)
    requires x == v * 256 + b && k == 0 && e + 8 == h
    requires rb == b / Pow2(8 - k) * Pow2(8 - k) + Pow2(8 - k) - 1
    requires rv == v / Pow2(e) * Pow2(e) + Pow2(e) - 1
    ensures rv * 256 + rb == x / Pow2(h) * Pow2(h) + Pow2(h) - 1
  {
    Pow2Eight();
    DivUnique(b, 256, 0, b);
    Pow2Split(e, 8, h);
    var q := Pow2(e);
    RoundHostByte(x, v, b, Pow2(h), q);
    MulDistrib(v / q * q, q - 1, 256);
  }

  lemma OrNotStepNet(x: nat, v: nat, b: Byte, rv: nat, rb: nat, h: nat, k: nat, e: nat)
    requires x == v * 256 + b && 0 < k <= 8 && h == 8 - k && e == 0
    requires rb == b / Pow2(8 - k) * Pow2(8 - k) + Pow2(8 - k) - 1
    requires rv == v / Pow2(e) * Pow2(e) + Pow2(e) - 1
    ensures rv * 256 + rb == x / Pow2(h) * Pow2(h) + Pow2(h) - 1
  {
    RoundOne(v);
    Pow2Eight();
    Pow2Split(h, k, 8);
    RoundNetByte(x, v, b, Pow2(h), Pow2(k));
  }

  /**
   * Masking with `ones` leading ones rounds the address down to a multiple
   * of 2^H, where H is the number of host bits.
   */
  lemma {:induction false} MaskedValue(a: seq<Byte>, ones: nat)
    ensures Value(Masked(a, CidrMask(ones, |a|))) == Value(a) / Pow2(HostBits(|a|, ones)) * Pow2(HostBits(|a|, ones))
  {
    if a != [] {
      var n := |a| - 1;
      var k := OnesInByte(ones, n);
      var r := Masked(a, CidrMask(ones, |a|));
      MaskPrefix(ones, |a|);
      assert r[..n] == Masked(a[..n], CidrMask(ones, n));
      MaskedValue(a[..n], ones);
      assert r[n] == And(a[n], MaskByte(k));
      AndMaskByte(a[n], k);
      var v, rv, b, rb := Value(a[..n]), Value(r[..n]), a[n], r[n];
      assert Value(a) == v * 256 + b;
      assert Value(r) == rv * 256 + rb;
      if k == 0 {
        MaskedStepHost(Value(a), v, b, rv, rb, HostBits(|a|, ones), k, HostBits(n, ones));
      } else {
        MaskedStepNet(Value(a), v, b, rv, rb, HostBits(|a|, ones), k, HostBits(n, ones));
      }
    } else {
      RoundOne(0);
    }
  }

  /** Setting every host bit of the masked address adds 2^H - 1. */
  lemma {:induction false} OrNotValue(a: seq<Byte>, ones: nat)
    ensures Value(OrNot(Masked(a, CidrMask(ones, |a|)), CidrMask(ones, |a|)))
         == Value(a) / Pow2(HostBits(|a|, ones)) * Pow2(HostBits(|a|, ones)) + Pow2(HostBits(|a|, ones)) - 1
  {
    if a != [] {
      var n := |a| - 1;
      var k := OnesInByte(ones, n);
      var m := CidrMask(ones, |a|);
      var m' := CidrMask(ones, n);
      var r := OrNot(Masked(a, m), m);
      MaskPrefix(ones, |a|);
      assert r[..n] == OrNot(Masked(a[..n], m'), m');
      OrNotValue(a[..n], ones);
      assert r[n] == Or(And(a[n], MaskByte(k)), Not(MaskByte(k)));
      OrNotMaskByte(a[n], k);
      var v, rv, b, rb := Value(a[..n]), Value(r[..n]), a[n], r[n];
      assert Value(a) == v * 256 + b;
      assert Value(r) == rv * 256 + rb;
      if k == 0 {
        OrNotStepHost(Value(a), v, b, rv, rb, HostBits(|a|, ones), k, HostBits(n, ones));
      } else {
        OrNotStepNet(Value(a), v, b, rv, rb, HostBits(|a|, ones), k, HostBits(n, ones));
      }
    } else {
      RoundOne(0);
    }
  }

  // ---------------------------------------------------------------------
  // Blocks

  /** An IPv4 block as net.IPNet holds it: an address and the length of its mask. */
  datatype Block = Block(ip: Addr, prefix: Prefix)

  /** The block net.ParseCIDR returns for ip/prefix: its address is already masked. */
  function BlockOf(ip: Addr, prefix: Prefix): Block
  {
    Block(Masked(ip, Mask(prefix)), prefix)
  }

  /** The number of addresses a block spans. */
  function Size(b: Block): nat
  {
    Pow2(32 - b.prefix)
  }

  /** The network address, ip & mask. */
  function Network(b: Block): Addr
  {
    Masked(b.ip, Mask(b.prefix))
  }

  /** The broadcast address, network | ^mask. */
  function Broadcast(b: Block): Addr
  {
    OrNot(Network(b), Mask(b.prefix))
  }

  /** net.IPNet.Contains: a agrees with the block's address on every mask bit. */
  predicate Contains(b: Block, a: Addr)
  {
    Masked(b.ip, Mask(b.prefix)) == Masked(a, Mask(b.prefix))
  }

  /** The address whose value is v modulo 2^32. */
  function AddrOf(v: nat): Addr
  {
    FromValue(v, 4)
  }

  lemma AddrOfValue(a: Addr, v: nat)
    requires v < Pow2(32) && a == AddrOf(v)
    ensures Value(a) == v
  {
    ValueFromValue(v, 4);
  }

  /** The n consecutive addresses starting at value lo. */
  function Span(lo: nat, n: nat): (r: seq<Addr>)
    ensures |r| == n
    ensures forall i :: 0 <= i < n ==> r[i] == AddrOf(lo + i)
  {
    if n == 0 then [] else Span(lo, n - 1) + [AddrOf(lo + n - 1)]
  }

  lemma SpanValue(lo: nat, n: nat, i: nat)
    requires i < n && lo + n <= Pow2(32)
    ensures Value(Span(lo, n)[i]) == lo + i
  {
    AddrOfValue(Span(lo, n)[i], lo + i);
  }

  /** Every address of the block: the network address and each one after it. */
  function Addresses(b: Block): seq<Addr>
  {
    Span(Value(Network(b)), Size(b))
  }

  /** Rounding v < t * s down to a multiple of s leaves room for one more s below t * s. */
  lemma AlignedBelow(v: nat, s: nat, t: nat)
    requires s > 0 && v < t * s
    ensures v / s * s + s <= t * s
  {
    var q := v / s;
    DivBounds(v, s, q);
    assert q >= t ==> q * s >= t * s;
    assert (q + 1) * s <= t * s;
  }

  lemma MulCancel(x: nat, y: nat, d: nat)
    requires d > 0 && x * d == y * d
    ensures x == y
  {
    DivAddMul(x, d, 0);
    DivAddMul(y, d, 0);
  }

  /** Masking an IPv4 address with a prefix's mask rounds it down to a multiple of 2^(32 - prefix). */
  lemma MaskValue(a: Addr, p: Prefix)
    ensures Value(Masked(a, Mask(p))) == Value(a) / Pow2(32 - p) * Pow2(32 - p)
  {
    MaskedValue(a, p);
    assert HostBits(4, p) == 32 - p;
  }

  /** The network address is the block's address rounded down to a multiple of the block size. */
  lemma NetworkValue(b: Block)
    ensures Value(Network(b)) == Value(b.ip) / Size(b) * Size(b)
  {
    MaskValue(b.ip, b.prefix);
  }

  /** The block ends within the address space. */
  lemma NetworkFits(b: Block)
    ensures Value(Network(b)) + Size(b) <= Pow2(32)
  {
    NetworkValue(b);
    ValueBound(b.ip);
    Pow2Split(b.prefix, 32 - b.prefix, 32);
    AlignedBelow(Value(b.ip), Size(b), Pow2(b.prefix));
  }

  /** Two values round down to the same multiple of s exactly when one lies in the other's slot. */
  lemma SameSlot(va: nat, vb: nat, s: nat)
    requires s > 0
    ensures va / s * s == vb / s * s <==> vb / s * s <= va < vb / s * s + s
  {
    DivBounds(va, s, vb / s);
    if va / s * s == vb / s * s {
      MulCancel(va / s, vb / s, s);
    }
  }

  /** Membership is a numeric range: [network, network + size). */
  lemma ContainsRange(b: Block, a: Addr)
    ensures Contains(b, a) <==> Value(Network(b)) <= Value(a) < Value(Network(b)) + Size(b)
  {
    var m := Mask(b.prefix);
    MaskValue(b.ip, b.prefix);
    MaskValue(a, b.prefix);
    SameSlot(Value(a), Value(b.ip), Size(b));
    if Value(Masked(a, m)) == Value(Masked(b.ip, m)) {
      ValueInjective(Masked(a, m), Masked(b.ip, m));
    }
  }

  lemma BroadcastValue(b: Block)
    ensures Value(Broadcast(b)) == Value(Network(b)) + Size(b) - 1
  {
    OrNotValue(b.ip, b.prefix);
    assert HostBits(4, b.prefix) == 32 - b.prefix;
    NetworkValue(b);
  }

  lemma AddressValue(b: Block, i: nat)
    requires i < Size(b)
    ensures Value(Addresses(b)[i]) == Value(Network(b)) + i
  {
    NetworkFits(b);
    SpanValue(Value(Network(b)), Size(b), i);
  }

  /** The addresses of a block are in strictly ascending order, hence distinct. */
  lemma AddressesAscending(b: Block)
    ensures |Addresses(b)| == Size(b)
    ensures forall i, j :: 0 <= i < j < |Addresses(b)| ==> Value(Addresses(b)[i]) < Value(Addresses(b)[j])
    ensures forall i, j :: 0 <= i < j < |Addresses(b)| ==> Addresses(b)[i] != Addresses(b)[j]
  {
    forall i, j | 0 <= i < j < |Addresses(b)|
      ensures Value(Addresses(b)[i]) < Value(Addresses(b)[j])
    {
      AddressValue(b, i);
      AddressValue(b, j);
    }
  }

  /** The first address is the network address and the last the broadcast address. */
  lemma AddressesEnds(b: Block)
    ensures |Addresses(b)| >= 1
    ensures Addresses(b)[0] == Network(b)
    ensures Addresses(b)[|Addresses(b)| - 1] == Broadcast(b)
  {
    var a := Addresses(b);
    AddressValue(b, 0);
    ValueInjective(a[0], Network(b));
    AddressValue(b, |a| - 1);
    BroadcastValue(b);
    ValueInjective(a[|a| - 1], Broadcast(b));
  }

  /** An address is listed exactly when the block contains it. */
  lemma AddressesExactly(b: Block, a: Addr)
    ensures a in Addresses(b) <==> Contains(b, a)
  {
    ContainsRange(b, a);
    if Contains(b, a) {
      var i := Value(a) - Value(Network(b));
      AddressValue(b, i);
      ValueInjective(Addresses(b)[i], a);
    }
    if a in Addresses(b) {
      var i :| 0 <= i < |Addresses(b)| && Addresses(b)[i] == a;
      AddressValue(b, i);
    }
  }

  /** Each listed address is the increment of the one before it. */
  lemma AddressesStep(b: Block, i: nat)
    requires i + 1 < Size(b)
    ensures Addresses(b)[i + 1] == Successor(Addresses(b)[i])
  {
    AddressValue(b, i);
    AddressValue(b, i + 1);
    NextAddress(Addresses(b)[i], Addresses(b)[i + 1]);
  }

  /** An address whose value is one more than x's is the successor of x. */
  lemma NextAddress(x: Addr, y: Addr)
    requires Value(y) == Value(x) + 1
    ensures y == Successor(x)
  {
    ValueBound(y);
    SuccessorValue(x);
    ModSmall(Value(x) + 1, Pow2(32));
    ValueInjective(y, Successor(x));
  }

  /** Masking an already masked address changes nothing. */
  lemma MaskedIdempotent(a: seq<Byte>, m: seq<Byte>)
    requires |a| == |m|
    ensures Masked(Masked(a, m), m) == Masked(a, m)
  {
    forall i | 0 <= i < |a|
      ensures Masked(Masked(a, m), m)[i] == Masked(a, m)[i]
    {
      AndBitsIdempotent(a[i], m[i], 8);
    }
  }

  /** The network address of the block ParseCIDR returns is the masked input address. */
  lemma NetworkOfBlock(ip: Addr, p: Prefix)
    ensures Network(BlockOf(ip, p)) == Masked(ip, Mask(p))
  {
    MaskedIdempotent(ip, Mask(p));
  }

  /** The /32 mask keeps every bit. */
  lemma MaskedByAll(a: Addr)
    ensures Masked(a, Mask(32)) == a
  {
    forall i | 0 <= i < 4
      ensures Masked(a, Mask(32))[i] == a[i]
    {
      assert Mask(32)[i] == MaskByte(8);
      AndMaskByte(a[i], 8);
      DivUnique(a[i], Pow2(0), a[i], 0);
    }
  }

  /** The /0 mask clears every bit. */
  lemma MaskedByNone(a: Addr)
    ensures Masked(a, Mask(0)) == [0, 0, 0, 0]
  {
    DivUnique(255, Pow2(0), 255, 0);
    assert MaskByte(0) == 0;
    forall i | 0 <= i < 4
      ensures Masked(a, Mask(0))[i] == 0
    {
      AndBitsZero(a[i], 8);
    }
  }

  /** A /32 block lists exactly one address: the one it was given. */
  lemma SingleHost(ip: Addr)
    ensures Addresses(BlockOf(ip, 32)) == [ip]
  {
    MaskedByAll(ip);
    FromValueValue(ip);
  }

  /**
   * The state of the enumeration loop after k steps: the address held has
   * value network + k modulo 2^32.  For a prefix of at least 1, the loop guard
   * holds exactly while k is below the block size, and then the address is
   * the k-th of the block.
   */
  lemma ContainsAtStep(b: Block, a: Addr, k: nat)
    requires b.prefix >= 1 && k <= Size(b)
    requires Value(a) == (Value(Network(b)) + k) % 0x1_0000_0000
    ensures Contains(b, a) <==> k < Size(b)
    ensures k < Size(b) ==> a == Addresses(b)[k]
  {
    StepValue(b, a, k);
    ContainsRange(b, a);
    if k < Size(b) {
      AddressValue(b, k);
      ValueInjective(a, Addresses(b)[k]);
    }
  }

  /** The numeric half of the lemma above. */
  lemma StepValue(b: Block, a: Addr, k: nat)
    requires b.prefix >= 1 && k <= Size(b)
    requires Value(a) == (Value(Network(b)) + k) % 0x1_0000_0000
    ensures Value(Network(b)) <= Value(a) < Value(Network(b)) + Size(b) <==> k < Size(b)
    ensures k < Size(b) ==> Value(a) == Value(Network(b)) + k
  {
    NetworkFits(b);
    HalfSpace(b);
    Pow2ThirtyTwo();
    StepArith(Value(Network(b)), k, Size(b), Value(a), 0x1_0000_0000);
  }

  /** A block with a prefix of at least 1 spans at most half the address space. */
  lemma HalfSpace(b: Block)
    requires b.prefix >= 1
    ensures 2 * Size(b) <= Pow2(32)
  {
    var p := b.prefix;
    Pow2Split(p, 32 - p, 32);
    assert Pow2(p) >= 2;
    MulMonotone(2, Pow2(p), Size(b));
  }

  /**
   * The numeric core of the loop guard: in a space of m values, stepping k
   * places from lo (modulo m) stays in [lo, lo + s) exactly while k < s, as
   * long as the range fits and is at most half the space.
   */
  lemma StepArith(lo: nat, k: nat, s: nat, v: nat, m: nat)
    requires 1 <= s
    requires lo + s <= m
    requires 2 * s <= m
    requires k <= s
    requires v == (lo + k) % m
    ensures lo <= v < lo + s <==> k < s
    ensures k < s ==> v == lo + k
  {
    if lo + k < m {
      ModSmall(lo + k, m);
    } else {
      ModSelf(m);
    }
  }

  /**
   * For prefix 0 every address is contained, including the increment of every
   * address, and the broadcast address wraps back to the network address: the
   * enumeration loop never exits.
   */
  lemma PrefixZeroNeverExits(b: Block, a: Addr)
    requires b.prefix == 0
    ensures Contains(b, a) && Contains(b, Successor(a))
    ensures Successor(Broadcast(b)) == Network(b)
  {
    PrefixZeroContains(b, a);
    PrefixZeroContains(b, Successor(a));
    PrefixZeroWraps(b);
  }

  lemma PrefixZeroContains(b: Block, a: Addr)
    requires b.prefix == 0
    ensures Contains(b, a)
  {
    MaskedByNone(b.ip);
    MaskedByNone(a);
  }

  lemma PrefixZeroWraps(b: Block)
    requires b.prefix == 0
    ensures Successor(Broadcast(b)) == Network(b)
  {
    MaskedByNone(b.ip);
    Pow2Eight();
    OrLowOnes(0, 8, 8, 0);
    assert Or(0, Not(0)) == 255;
    assert Broadcast(b) == [255, 255, 255, 255];
    SuccessorWraps(Broadcast(b));
    assert Zeros(4) == [0, 0, 0, 0];
  }
}
