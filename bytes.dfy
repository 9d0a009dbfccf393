/**
 * Byte strings and the unsigned big-endian integers they denote, the reading
 * that `new BigInteger(1, bytes)` gives a byte array and that Base58 encoding
 * divides down.
 */
module Bytes {

  /** An unsigned 8-bit value, as stored in a C# `byte[]`. */
  type byte = b: int | 0 <= b < 256

  function Pow256(k: nat): (p: nat)
    ensures p >= 1
  {
    if k == 0 then 1 else 256 * Pow256(k - 1)
  }

  /** The unsigned big-endian value of `s` (Horner's rule from the most significant byte). */
  function BeValue(s: seq<byte>): nat
  {
    if s == [] then 0 else BeValue(s[..|s| - 1]) * 256 + s[|s| - 1]
  }

  /** `k` zero bytes. */
  function Zeros(k: nat): (z: seq<byte>)
    ensures |z| == k
  {
    seq(k, _ => 0)
  }

  /** The number of zero bytes at the front of `s`. */
  function LeadingZeros(s: seq<byte>): (z: nat)
    ensures z <= |s|
    ensures forall i :: 0 <= i < z ==> s[i] == 0
    ensures z < |s| ==> s[z] != 0
  {
    if s == [] || s[0] != 0 then 0 else 1 + LeadingZeros(s[1..])
  }

  /** The shortest big-endian byte string whose value is `v`: empty for 0, otherwise no leading zero byte. */
  function MinimalBytes(v: nat): seq<byte>
    decreases v
  {
    if v == 0 then [] else MinimalBytes(v / 256) + [v % 256]
  }

  /** Byte-wise lexicographic "less than" of two strings of equal length. */
  predicate LexLess(a: seq<byte>, b: seq<byte>)
    requires |a| == |b|
  {
    |a| > 0 && (a[0] < b[0] || (a[0] == b[0] && LexLess(a[1..], b[1..])))
  }

  /** A value of `|s|` bytes is below 256^|s|. */
  lemma {:induction false} BeValueBound(s: seq<byte>)
    ensures BeValue(s) < Pow256(|s|)
  {
    if s != [] {
      var init := s[..|s| - 1];
      BeValueBound(init);
      assert BeValue(init) + 1 <= Pow256(|init|);
      assert BeValue(s) <= (Pow256(|init|) - 1) * 256 + 255;
    }
  }

  /** Reading `b` in front of `s` adds b * 256^|s|. */
  lemma {:induction false} BeValueCons(b: byte, s: seq<byte>)
    ensures BeValue([b] + s) == b * Pow256(|s|) + BeValue(s)
  {
    var t := [b] + s;
    if s == [] {
      assert t[..0] == [];
    } else {
      var init := s[..|s| - 1];
      assert t[..|t| - 1] == [b] + init;
      BeValueCons(b, init);
      calc {
        BeValue(t);
        BeValue([b] + init) * 256 + s[|s| - 1];
        (b * Pow256(|init|) + BeValue(init)) * 256 + s[|s| - 1];
        { assert (b * Pow256(|init|)) * 256 == b * (256 * Pow256(|init|)); }
        b * Pow256(|s|) + (BeValue(init) * 256 + s[|s| - 1]);
        b * Pow256(|s|) + BeValue(s);
      }
    }
  }

  /** Appending a byte: Horner's step. */
  lemma BeValueSnoc(s: seq<byte>, b: byte)
    ensures BeValue(s + [b]) == BeValue(s) * 256 + b
  {
    assert (s + [b])[..|s|] == s;
  }

  /** Extending a prefix by one byte: Horner's step. */
  lemma BeValuePrefixStep(s: seq<byte>, k: nat)
    requires k < |s|
    ensures BeValue(s[..k + 1]) == BeValue(s[..k]) * 256 + s[k]
  {
    assert s[..k + 1][..k] == s[..k];
  }

  /** Leading zero bytes do not change the value. */
  lemma {:induction false} BeValueDropZeros(s: seq<byte>, k: nat)
    requires k <= |s|
    requires forall i :: 0 <= i < k ==> s[i] == 0
    ensures BeValue(s) == BeValue(s[k..])
  {
    if k > 0 {
      assert s == [0] + s[1..];
      BeValueCons(0, s[1..]);
      BeValueDropZeros(s[1..], k - 1);
      assert s[1..][k - 1..] == s[k..];
    }
  }

  /** A string whose first byte is not zero is worth at least 256^(|s|-1). */
  lemma BeValueLowerBound(s: seq<byte>)
    requires |s| > 0 && s[0] != 0
    ensures BeValue(s) >= Pow256(|s| - 1)
  {
    assert s == [s[0]] + s[1..];
    BeValueCons(s[0], s[1..]);
    MulAtLeast(s[0], Pow256(|s| - 1));
  }

  lemma MulAtLeast(x: nat, p: nat)
    requires x >= 1
    ensures x * p >= p
  {
    assert x * p == p + (x - 1) * p;
  }

  /** The value is zero exactly when every byte is zero. */
  lemma {:induction false} BeValueZeroIff(s: seq<byte>)
    ensures BeValue(s) == 0 <==> forall i :: 0 <= i < |s| ==> s[i] == 0
  {
    if s != [] {
      var init := s[..|s| - 1];
      BeValueZeroIff(init);
      assert forall i :: 0 <= i < |init| ==> init[i] == s[i];
    }
  }

  /** For strings of one length, the byte-wise order is the order of their values. */
  lemma {:induction false} LexLessIffValueLess(a: seq<byte>, b: seq<byte>)
    requires |a| == |b|
    ensures LexLess(a, b) <==> BeValue(a) < BeValue(b)
  {
    if |a| > 0 {
      var p := Pow256(|a| - 1);
      assert a == [a[0]] + a[1..];
      assert b == [b[0]] + b[1..];
      BeValueCons(a[0], a[1..]);
      BeValueCons(b[0], b[1..]);
      BeValueBound(a[1..]);
      BeValueBound(b[1..]);
      LexLessIffValueLess(a[1..], b[1..]);
      if a[0] < b[0] {
        MulLess(a[0], b[0], p);
      } else if a[0] > b[0] {
        MulLess(b[0], a[0], p);
      }
    }
  }

  lemma MulLess(x: nat, y: nat, p: nat)
    requires x < y
    ensures x * p + p <= y * p
  {
    var d := y - x;
    assert y * p == x * p + d * p;
    assert d * p == p + (d - 1) * p;
  }

  /** MinimalBytes inverts BeValue on strings without a leading zero byte. */
  lemma {:induction false} MinimalBytesOfValue(s: seq<byte>)
    requires s == [] || s[0] != 0
    ensures MinimalBytes(BeValue(s)) == s
  {
    if s != [] {
      var init := s[..|s| - 1];
      if init != [] {
        BeValueLowerBound(init);
      }
      MinimalBytesOfValue(init);
      assert s == init + [s[|s| - 1]];
    }
  }

  /**
   * Buffer.BlockCopy on byte arrays: copies `count` bytes of `src` from
   * `srcOffset` into `dst` from `dstOffset`, and changes no other byte of `dst`.
   */
  method BlockCopy(src: seq<byte>, srcOffset: nat, dst: array<byte>, dstOffset: nat, count: nat)
    requires srcOffset + count <= |src|
    requires dstOffset + count <= dst.Length
    modifies dst
    ensures forall k :: dstOffset <= k < dstOffset + count ==> dst[k] == src[srcOffset + (k - dstOffset)]
    ensures forall k :: 0 <= k < dst.Length && !(dstOffset <= k < dstOffset + count) ==> dst[k] == old(dst[k])
  {
    var n := 0;
    while n < count
      invariant 0 <= n <= count
      invariant forall k :: dstOffset <= k < dstOffset + n ==> dst[k] == src[srcOffset + (k - dstOffset)]
      invariant forall k :: 0 <= k < dst.Length && !(dstOffset <= k < dstOffset + n) ==> dst[k] == old(dst[k])
    {
      dst[dstOffset + n] := src[srcOffset + n];
      n := n + 1;
    }
  }
}
