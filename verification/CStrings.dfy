/** NUL-terminated byte strings in arrays: src/utils/StringHelpers.h. */
module CStrings {
  import opened Machine32
  import opened Bytes

  /** The string `s` and its NUL stand at offset `at`. */
  predicate StrAt(a: seq<Byte>, at: int, s: seq<Byte>) {
    0 <= at && at + |s| < |a| && a[at..at + |s|] == s && a[at + |s|] == 0 && 0 !in s
  }

  /** The buffer starts with the string `s` and its NUL. */
  predicate Str(a: seq<Byte>, s: seq<Byte>) {
    StrAt(a, 0, s)
  }

  method StrLen(a: array<Byte>, ghost s: seq<Byte>) returns (n: int)
    requires Str(a[..], s)
    ensures n == |s|
  {
    assert forall k :: 0 <= k < |s| ==> s[k] in s && a[..][0..0 + |s|][k] == a[k];
    n := 0;
    while a[n] != 0
      invariant 0 <= n <= |s|
      decreases |s| - n
    {
      n := n + 1;
    }
  }

  /** Copy a string to offset `at`. */
  method StrCatAt(dest: array<Byte>, at: int, src: array<Byte>, ghost s: seq<Byte>)
    requires dest != src && Str(src[..], s) && 0 <= at && at + |s| < dest.Length
    modifies dest
    ensures dest[..] == old(dest[..at]) + s + [0] + old(dest[at + |s| + 1..])
    ensures StrAt(dest[..], at, s)
  {
    assert forall k :: 0 <= k < |s| ==> s[k] in s && src[..][0..0 + |s|][k] == src[k];
    var i := 0;
    while src[i] != 0
      invariant 0 <= i <= |s|
      invariant forall k :: 0 <= k < at || at + i <= k < dest.Length ==> dest[k] == old(dest[k])
      invariant forall k :: at <= k < at + i ==> dest[k] == s[k - at]
      decreases |s| - i
    {
      dest[at + i] := src[i];
      i := i + 1;
    }
    dest[at + i] := 0;
    assert dest[at..at + |s|] == s;
  }

  method StrCpy(dest: array<Byte>, src: array<Byte>, ghost s: seq<Byte>)
    requires dest != src && Str(src[..], s) && |s| < dest.Length
    modifies dest
    ensures Str(dest[..], s)
    ensures dest[|s| + 1..] == old(dest[|s| + 1..])
  {
    StrCatAt(dest, 0, src, s);
  }

  /** Append: find the end of `dest`, then copy. */
  method StrCat(dest: array<Byte>, ghost d: seq<Byte>, src: array<Byte>, ghost s: seq<Byte>)
    requires dest != src && Str(dest[..], d) && Str(src[..], s) && |d| + |s| < dest.Length
    modifies dest
    ensures Str(dest[..], d + s)
  {
    var n := StrLen(dest, d);
    assert dest[..n] == d;
    StrCatAt(dest, n, src, s);
    assert dest[..][0..0 + |d + s|] == d + s;
  }

  method StrEqual(a: array<Byte>, ghost s: seq<Byte>, b: seq<Byte>) returns (equal: bool)
    requires Str(a[..], s) && 0 !in b
    ensures equal <==> s == b
  {
    assert forall k :: 0 <= k < |s| ==> s[k] in s && a[..][0..0 + |s|][k] == a[k];
    assert forall k :: 0 <= k < |b| ==> b[k] in b;
    var t := b + [0];
    var i := 0;
    while a[i] != 0 && a[i] == t[i]
      invariant 0 <= i <= |s| && i <= |b| && s[..i] == b[..i]
      decreases |s| - i
    {
      assert s[..i + 1] == s[..i] + [a[i]] && b[..i + 1] == b[..i] + [t[i]];
      i := i + 1;
    }
    equal := a[i] == t[i];
    if equal {
      assert i == |s| == |b| && s[..i] == s && b[..i] == b;
    } else {
      assert i < |s| || i < |b|;
    }
  }
}
