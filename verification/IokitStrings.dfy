/**
 The bounded string copy of the IOKit messages (kextd_strcopy and notify_strcopy): at most
 n - 1 characters, always terminated.
 */
module IokitStrings {
  import opened Machine

  /** A C string argument: a null pointer, or the memory from the pointer on. */
  datatype Source = NullPointer | Memory(bytes: seq<Byte>)

  /** The characters in front of the first terminator. */
  function CString(s: seq<Byte>): (r: seq<Byte>)
    ensures |r| <= |s| && r == s[..|r|] && 0 !in r
    ensures |r| < |s| ==> s[|r|] == 0
  {
    if s == [] || s[0] == 0 then [] else [s[0]] + CString(s[1..])
  }

  /** What is to be copied: nothing, or what stands in front of the first terminator. */
  function Text(src: Source): seq<Byte> {
    if src.NullPointer? then [] else CString(src.bytes)
  }

  lemma TextMeaning(src: Source)
    ensures src.NullPointer? ==> Text(src) == []
    ensures src.Memory? ==>
      var r := Text(src);
      r <= src.bytes && 0 !in r && (|r| < |src.bytes| ==> src.bytes[|r|] == 0)
  {
  }

  /** Readable as far as the copy looks: up to a terminator, or for n - 1 characters. */
  predicate Readable(src: Source, n: nat) {
    src.Memory? ==> 0 in src.bytes || |src.bytes| + 1 >= n
  }

  function Shorter(a: nat, b: nat): nat {
    if a < b then a else b
  }

  lemma InText(s: seq<Byte>, i: nat)
    requires i < |s| && i <= |CString(s)|
    ensures s[i] != 0 <==> i < |CString(s)|
    ensures i < |CString(s)| ==> CString(s)[i] == s[i]
  {
  }

  /** Copy into the first `n` bytes of `dst`. */
  method StrCopy(dst: array<Byte>, src: Source, n: nat)
    requires n <= dst.Length && Readable(src, n)
    modifies dst
    ensures n == 0 ==> dst[..] == old(dst[..])
    ensures n > 0 ==>
      var k := Shorter(|Text(src)|, n - 1);
      dst[..] == Text(src)[..k] + [0] + old(dst[..])[k + 1..]
  {
    if n == 0 {
      return;
    }
    ghost var before := dst[..];
    var i := CopyFront(dst, src, n);
    dst[i] := 0;
    Joined(dst[..], before, Text(src), i);
  }

  /** The loop: the text, or its first n - 1 characters. */
  method CopyFront(dst: array<Byte>, src: Source, n: nat) returns (i: nat)
    requires 0 < n <= dst.Length && Readable(src, n)
    modifies dst
    ensures i == Shorter(|Text(src)|, n - 1)
    ensures forall k :: 0 <= k < i ==> dst[k] == Text(src)[k]
    ensures forall k :: i <= k < dst.Length ==> dst[k] == old(dst[k])
  {
    i := 0;
    while i + 1 < n && src.Memory? && src.bytes[i] != 0
      invariant i < n && i <= |Text(src)|
      invariant forall k :: 0 <= k < i ==> dst[k] == Text(src)[k]
      invariant forall k :: i <= k < dst.Length ==> dst[k] == old(dst[k])
    {
      InText(src.bytes, i);
      dst[i] := src.bytes[i];
      i := i + 1;
    }
    if src.Memory? && i < |src.bytes| {
      InText(src.bytes, i);
    }
  }

  lemma Joined(now: seq<Byte>, before: seq<Byte>, text: seq<Byte>, k: nat)
    requires |now| == |before| && k < |now| && k <= |text| && now[k] == 0
    requires forall j :: 0 <= j < k ==> now[j] == text[j]
    requires forall j :: k < j < |now| ==> now[j] == before[j]
    ensures now == text[..k] + [0] + before[k + 1..]
  {
  }

  /** Read back, the field is the text cut to n - 1 characters; it is the whole text if and
      only if the text is shorter than the field. */
  lemma ReadBack(text: seq<Byte>, n: nat, rest: seq<Byte>)
    requires n > 0 && 0 !in text
    ensures var k := Shorter(|text|, n - 1);
      && CString(text[..k] + [0] + rest) == text[..k]
      && (CString(text[..k] + [0] + rest) == text <==> |text| < n)
  {
    var k := Shorter(|text|, n - 1);
    CStringOf(text[..k], rest);
  }

  lemma {:induction false} CStringOf(a: seq<Byte>, rest: seq<Byte>)
    requires 0 !in a
    ensures CString(a + [0] + rest) == a
  {
    if a == [] {
    } else {
      assert (a + [0] + rest)[1..] == a[1..] + [0] + rest;
      CStringOf(a[1..], rest);
    }
  }
}
