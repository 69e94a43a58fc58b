/**
 * IP addresses as big-endian byte sequences, and the scanner's in-place
 * increment of an address (inc in main.go).
 */
module IP {
  import opened Bits

  /** An octet, Go's `byte`. */
  type Byte = b: int | 0 <= b < 256

  /** An IPv4 address in its 4-byte form. */
  type Addr = a: seq<Byte> | |a| == 4 witness [0, 0, 0, 0]

  /** The number a byte sequence denotes, most significant byte first. */
  function Value(s: seq<Byte>): nat
  {
    if s == [] then 0 else Value(s[..|s| - 1]) * 256 + s[|s| - 1]
  }

  /** An n-byte sequence denotes a number below 256^n. */
  lemma {:induction false} ValueBound(s: seq<Byte>)
    ensures Value(s) < Pow2(8 * |s|)
  {
    if s != [] {
      var n := |s| - 1;
      ValueBound(s[..n]);
      Pow2Byte(n);
    }
  }

  /** Appending a byte shifts the value one byte up. */
  lemma ValueSnoc(t: seq<Byte>, b: Byte)
    ensures Value(t + [b]) == Value(t) * 256 + b
  {
    assert (t + [b])[..|t|] == t;
  }

  /** The n-byte big-endian encoding of v modulo 256^n. */
  function FromValue(v: nat, n: nat): (s: seq<Byte>)
    ensures |s| == n
  {
    if n == 0 then [] else FromValue(v / 256, n - 1) + [v % 256]
  }

  lemma {:induction false} ValueFromValue(v: nat, n: nat)
    requires v < Pow2(8 * n)
    ensures Value(FromValue(v, n)) == v
  {
    if n > 0 {
      Pow2Byte(n - 1);
      DivBounds(v, 256, v / 256);
      assert v / 256 < Pow2(8 * (n - 1));
      ValueFromValue(v / 256, n - 1);
      ValueSnoc(FromValue(v / 256, n - 1), v % 256);
    }
  }

  lemma {:induction false} FromValueValue(s: seq<Byte>)
    ensures FromValue(Value(s), |s|) == s
  {
    if s != [] {
      var n := |s| - 1;
      var t, b := s[..n], s[n];
      assert s == t + [b];
      ValueSnoc(t, b);
      DivUnique(Value(s), 256, Value(t), b);
      FromValueValue(t);
      assert FromValue(Value(s), |s|) == FromValue(Value(t), n) + [b];
    }
  }

  /** Equal-length byte sequences that denote the same number are equal. */
  lemma ValueInjective(s: seq<Byte>, t: seq<Byte>)
    requires |s| == |t| && Value(s) == Value(t)
    ensures s == t
  {
    FromValueValue(s);
    FromValueValue(t);
  }

  /**
   * What inc leaves in the slice: one is added to the last byte, and a byte
   * that overflows to 0 carries into the byte before it.
   */
  function Successor(s: seq<Byte>): (r: seq<Byte>)
    ensures |r| == |s|
  {
    if s == [] then []
    else
      var n := |s| - 1;
      if s[n] < 255 then s[..n] + [s[n] + 1] else Successor(s[..n]) + [0]
  }

  function Zeros(n: nat): (s: seq<Byte>)
    ensures |s| == n && forall i :: 0 <= i < n ==> s[i] == 0
  {
    seq(n, _ => 0)
  }

  /** Read as a number, the successor is the old value plus one, modulo 256^len. */
  lemma {:induction false} SuccessorValue(s: seq<Byte>)
    ensures Value(Successor(s)) == (Value(s) + 1) % Pow2(8 * |s|)
  {
    if s != [] {
      var n := |s| - 1;
      var t := s[..n];
      assert s == t + [s[n]];
      ValueSnoc(t, s[n]);
      ValueBound(t);
      Pow2Byte(n);
      if s[n] < 255 {
        ValueSnoc(t, s[n] + 1);
        NoCarryArith(Value(t), s[n], Pow2(8 * n));
      } else {
        SuccessorValue(t);
        ValueSnoc(Successor(t), 0);
        CarryArith(Value(t), Value(Successor(t)), Pow2(8 * n));
      }
    }
  }

  /** A byte below 0xFF absorbs the increment: no wrap is possible. */
  lemma NoCarryArith(v: nat, b: nat, p: nat)
    requires v < p && b < 255
    ensures (v * 256 + b + 1) % (p * 256) == v * 256 + b + 1
  {
    assert v * 256 + b + 1 < p * 256;
    ModSmall(v * 256 + b + 1, p * 256);
  }

  /** A carry out of the last byte: the leading bytes are incremented modulo p. */
  lemma CarryArith(v: nat, w: nat, p: nat)
    requires v < p && w == (v + 1) % p
    ensures w * 256 + 0 == (v * 256 + 255 + 1) % (p * 256)
  {
    assert v * 256 + 255 + 1 == (v + 1) * 256;
    if v + 1 < p {
      ModSmall(v + 1, p);
      ModSmall((v + 1) * 256, p * 256);
    } else {
      ModSelf(p);
      ModSelf(p * 256);
    }
  }

  /**
   * The carry: when k is the last index whose byte is not 0xFF, the successor
   * keeps every byte before k, adds one at k and clears every byte after k.
   */
  lemma {:induction false} SuccessorCarry(s: seq<Byte>, k: nat)
    requires k < |s| && s[k] < 255
    requires forall i :: k < i < |s| ==> s[i] == 255
    ensures Successor(s) == s[..k] + [s[k] + 1] + Zeros(|s| - k - 1)
  {
    var n := |s| - 1;
    if k < n {
      SuccessorCarry(s[..n], k);
      assert s[..n][..k] == s[..k];
      assert Zeros(n - k - 1) + [0] == Zeros(|s| - k - 1);
    } else {
      assert Zeros(0) == [];
    }
  }

  /** An address of all 0xFF bytes wraps to all zeros. */
  lemma {:induction false} SuccessorWraps(s: seq<Byte>)
    requires forall i :: 0 <= i < |s| ==> s[i] == 255
    ensures Successor(s) == Zeros(|s|)
  {
    if s != [] {
      var n := |s| - 1;
      SuccessorWraps(s[..n]);
      assert Zeros(n) + [0] == Zeros(|s|);
    }
  }

  /** x.y.z.255 steps to x.y.(z+1).0 and x.y.255.255 to x.(y+1).0.0. */
  lemma SuccessorCarryExamples(x: Byte, y: Byte, z: Byte)
    ensures z < 255 ==> Successor([x, y, z, 255]) == [x, y, z + 1, 0]
    ensures y < 255 ==> Successor([x, y, 255, 255]) == [x, y + 1, 0, 0]
  {
    if z < 255 {
      SuccessorCarry([x, y, z, 255], 2);
    }
    if y < 255 {
      SuccessorCarry([x, y, 255, 255], 1);
    }
  }

  /** inc: add one to the address held in ip, in place, carrying leftwards. */
  method Inc(ip: array<Byte>)
    modifies ip
    ensures ip[..] == Successor(old(ip[..]))
  {
    var j := ip.Length - 1;
    while j >= 0
      invariant -1 <= j < ip.Length
      invariant forall i :: 0 <= i <= j ==> ip[i] == old(ip[i])
      invariant forall i :: j < i < ip.Length ==> ip[i] == 0 && old(ip[i]) == 255
    {
      ip[j] := (ip[j] as int + 1) % 256;
      if ip[j] > 0 {
        break;
      }
      j := j - 1;
    }
    ghost var s := old(ip[..]);
    if j < 0 {
      SuccessorWraps(s);
    } else {
      SuccessorCarry(s, j);
    }
    assert ip[..] == Successor(s);
  }
}
