/** Byte-addressed memory: 32-bit little-endian words at any, possibly unaligned, address. */
module Bytes {
  import opened Machine32

  type Byte = b: int | 0 <= b < 256

  function Read32(m: seq<Byte>, a: int): Word
    requires 0 <= a && a + 4 <= |m|
  {
    (m[a] as int) + 0x100 * (m[a + 1] as int) + 0x1_0000 * (m[a + 2] as int) + 0x100_0000 * (m[a + 3] as int)
  }

  /** Byte `k` of the little-endian representation of `w`. */
  function ByteOf(w: Word, k: int): Byte
    requires 0 <= k < 4
  {
    if k == 0 then w % 0x100
    else if k == 1 then w / 0x100 % 0x100
    else if k == 2 then w / 0x100 / 0x100 % 0x100
    else w / 0x100 / 0x100 / 0x100
  }

  function Patch(s: seq<Byte>, k: int, v: Byte): seq<Byte>
    requires 0 <= k < |s|
  {
    s[k := v]
  }

  /** The two memories agree on [lo, hi). */
  ghost predicate Agree(m: seq<Byte>, m': seq<Byte>, lo: int, hi: int) {
    |m'| == |m| && forall k :: lo <= k < hi && 0 <= k < |m| ==> m'[k] == m[k]
  }

  lemma ReadBack(m: seq<Byte>, a: int, w: Word)
    requires 0 <= a && a + 4 <= |m|
    requires forall k :: 0 <= k < 4 ==> m[a + k] == ByteOf(w, k)
    ensures Read32(m, a) == w
  {
    assert m[a + 0] == ByteOf(w, 0) && m[a + 1] == ByteOf(w, 1) && m[a + 2] == ByteOf(w, 2) && m[a + 3] == ByteOf(w, 3);
    var q := w / 0x100;
    var q' := q / 0x100;
    assert w == 0x100 * q + ByteOf(w, 0) && q == 0x100 * q' + ByteOf(w, 1) && q' == 0x100 * ByteOf(w, 3) + ByteOf(w, 2);
  }

  lemma SliceOfSlice(s: seq<Byte>, lo: nat, hi: nat, a: nat, b: nat)
    requires lo <= hi <= |s| && a <= b <= hi - lo
    ensures s[lo..hi][a..b] == s[lo + a..lo + b]
  {
    var l, r := s[lo..hi][a..b], s[lo + a..lo + b];
    forall i | 0 <= i < b - a ensures l[i] == r[i] {
      assert l[i] == s[lo..hi][a + i] == s[lo + (a + i)];
    }
    assert l == r;
  }

  /** The C string at the start of `s`, or all of `s` if it holds no NUL. */
  function CStr(s: seq<Byte>): (r: seq<Byte>)
    ensures |r| <= |s| && 0 !in r
  {
    if s == [] || s[0] == 0 then [] else [s[0]] + CStr(s[1..])
  }

  lemma {:induction false} CStrIsWhole(s: seq<Byte>)
    ensures CStr(s) == s <==> 0 !in s
  {
    if s != [] && s[0] != 0 {
      CStrIsWhole(s[1..]);
      assert s == [s[0]] + s[1..];
    }
  }

  /** What follows a NUL does not matter. */
  lemma {:induction false} CStrStops(s: seq<Byte>, rest: seq<Byte>)
    ensures CStr(s + [0] + rest) == CStr(s)
  {
    if s != [] {
      assert (s + [0] + rest)[1..] == s[1..] + [0] + rest;
      CStrStops(s[1..], rest);
    }
  }
}
