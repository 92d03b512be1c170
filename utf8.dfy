/**
  Well-formed UTF-8, as defined by the UTF8-octets grammar of section 4 of
  RFC 3629 (equivalently Table 3-7 of the Unicode Standard, section 3.9).

  This module stands in for the standard library's `from_utf8` and its
  `valid_up_to`: a byte sequence is well-formed when it splits into
  characters of the grammar, and `ValidUpTo` is the length of its longest
  well-formed prefix.
 */
module Utf8 {
  import Seqs

  type byte = bv8

  /** UTF8-tail = %x80-BF */
  predicate IsTail(b: byte) {
    0x80 <= b <= 0xBF
  }

  /** UTF8-1 = %x00-7F */
  predicate IsChar1(c: seq<byte>) {
    |c| == 1 && c[0] <= 0x7F
  }

  /** UTF8-2 = %xC2-DF UTF8-tail */
  predicate IsChar2(c: seq<byte>) {
    |c| == 2 && 0xC2 <= c[0] <= 0xDF && IsTail(c[1])
  }

  /** UTF8-3 = %xE0 %xA0-BF UTF8-tail / %xE1-EC 2( UTF8-tail ) /
              %xED %x80-9F UTF8-tail / %xEE-EF 2( UTF8-tail ) */
  predicate IsChar3(c: seq<byte>) {
    && |c| == 3
    && IsTail(c[2])
    && ((c[0] == 0xE0 && 0xA0 <= c[1] <= 0xBF)
        || (0xE1 <= c[0] <= 0xEC && IsTail(c[1]))
        || (c[0] == 0xED && 0x80 <= c[1] <= 0x9F)
        || (0xEE <= c[0] <= 0xEF && IsTail(c[1])))
  }

  /** UTF8-4 = %xF0 %x90-BF 2( UTF8-tail ) / %xF1-F3 3( UTF8-tail ) /
              %xF4 %x80-8F 2( UTF8-tail ) */
  predicate IsChar4(c: seq<byte>) {
    && |c| == 4
    && IsTail(c[2]) && IsTail(c[3])
    && ((c[0] == 0xF0 && 0x90 <= c[1] <= 0xBF)
        || (0xF1 <= c[0] <= 0xF3 && IsTail(c[1]))
        || (c[0] == 0xF4 && 0x80 <= c[1] <= 0x8F))
  }

  /** UTF8-char = UTF8-1 / UTF8-2 / UTF8-3 / UTF8-4 */
  predicate IsChar(c: seq<byte>) {
    IsChar1(c) || IsChar2(c) || IsChar3(c) || IsChar4(c)
  }

  /**
    The length of the character that starts `s`, or 0 when `s` does not start
    with a character. It decides on the lead byte first, as a decoder does;
    CharLenIsChar and CharLenUnique tie it to the grammar.
   */
  function CharLen(s: seq<byte>): (n: nat)
    ensures n <= 4 && n <= |s|
  {
    if |s| == 0 then 0
    else if s[0] <= 0x7F then 1
    else if s[0] < 0xC2 then 0
    else if s[0] <= 0xDF then
      if |s| >= 2 && IsTail(s[1]) then 2 else 0
    else if s[0] <= 0xEF then
      if |s| >= 3 && IsChar3(s[..3]) then 3 else 0
    else if s[0] <= 0xF4 then
      if |s| >= 4 && IsChar4(s[..4]) then 4 else 0
    else 0
  }

  /** UTF8-octets = *( UTF8-char ) */
  predicate WellFormed(s: seq<byte>)
    decreases |s|
  {
    s == [] || (CharLen(s) > 0 && WellFormed(s[CharLen(s)..]))
  }

  /** The length of the longest well-formed prefix of `s` (see ValidUpToIsLongest). */
  function ValidUpTo(s: seq<byte>): (n: nat)
    ensures n <= |s|
    decreases |s|
  {
    var c := CharLen(s);
    if c == 0 then 0 else c + ValidUpTo(s[c..])
  }

  /** The outcome of validating a byte sequence: `Err` carries `valid_up_to`. */
  datatype Validation = Ok | Err(validUpTo: nat)

  /** What the standard library's `from_utf8` reports about `s`. */
  function FromUtf8(s: seq<byte>): (r: Validation)
    ensures r.Ok? <==> WellFormed(s)
    ensures r.Err? ==> r.validUpTo < |s| && WellFormed(s[..r.validUpTo])
    ensures r.Err? ==> forall k | r.validUpTo < k <= |s| :: !WellFormed(s[..k])
    ensures r.Err? ==> s[r.validUpTo] >= 0x80
  {
    var n := ValidUpTo(s);
    WellFormedIffValidUpTo(s);
    if n == |s| then Ok
    else
      ValidUpToIsLongest(s);
      ValidUpToStopsAtNonAscii(s);
      Err(n)
  }

  /** CharLen measures a character of the grammar. */
  lemma CharLenIsChar(s: seq<byte>)
    requires CharLen(s) > 0
    ensures IsChar(s[..CharLen(s)])
  {
  }

  /**
    The grammar is prefix-free: a prefix of `s` that is a character is the
    one CharLen finds, and when CharLen finds none, no prefix is a character.
   */
  lemma CharLenUnique(s: seq<byte>, m: nat)
    requires 0 < m <= |s| && IsChar(s[..m])
    ensures CharLen(s) == m
  {
  }

  /** A character stays the first character when more bytes follow it. */
  lemma CharLenAppend(a: seq<byte>, b: seq<byte>)
    requires CharLen(a) > 0
    ensures CharLen(a + b) == CharLen(a)
  {
    var n := CharLen(a);
    Seqs.TakeAppend(a, b, n);
    CharLenUnique(a + b, n);
  }

  /** Cutting `s` after its first character keeps that character first. */
  lemma CharLenPrefix(s: seq<byte>, k: nat)
    requires k <= |s| && CharLen(s[..k]) > 0
    ensures CharLen(s) == CharLen(s[..k])
  {
    var n := CharLen(s[..k]);
    Seqs.TakeTake(s, k, n);
    CharLenUnique(s, n);
  }

  lemma {:induction false} WellFormedIffValidUpTo(s: seq<byte>)
    ensures WellFormed(s) <==> ValidUpTo(s) == |s|
    decreases |s|
  {
    var c := CharLen(s);
    if c > 0 {
      WellFormedIffValidUpTo(s[c..]);
    }
  }

  /** When `s` does not start with a character, no nonempty prefix of it is well-formed. */
  lemma NoCharNoPrefix(s: seq<byte>)
    requires CharLen(s) == 0
    ensures forall k | 0 < k <= |s| :: !WellFormed(s[..k])
  {
    forall k | 0 < k <= |s|
      ensures !WellFormed(s[..k])
    {
      if CharLen(s[..k]) > 0 {
        CharLenPrefix(s, k);
      }
    }
  }

  /** The prefix that `ValidUpTo` measures is well-formed, and no longer prefix is. */
  lemma {:induction false} ValidUpToIsLongest(s: seq<byte>)
    ensures WellFormed(s[..ValidUpTo(s)])
    ensures forall k | ValidUpTo(s) < k <= |s| :: !WellFormed(s[..k])
    decreases |s|
  {
    var c := CharLen(s);
    if c == 0 {
      assert s[..0] == [];
      NoCharNoPrefix(s);
    } else {
      var r := s[c..];
      ValidUpToIsLongest(r);
      var n := ValidUpTo(s);
      Seqs.TakeTake(s, n, c);
      CharLenPrefix(s, n);
      Seqs.TakeDrop(s, n, c);
      forall k | n < k <= |s|
        ensures !WellFormed(s[..k])
      {
        Seqs.TakeTake(s, k, c);
        CharLenPrefix(s, k);
        Seqs.TakeDrop(s, k, c);
      }
    }
  }

  /** Validation stops only in front of a byte that is not ASCII. */
  lemma {:induction false} ValidUpToStopsAtNonAscii(s: seq<byte>)
    requires ValidUpTo(s) < |s|
    ensures s[ValidUpTo(s)] >= 0x80
    decreases |s|
  {
    var c := CharLen(s);
    if c > 0 {
      ValidUpToStopsAtNonAscii(s[c..]);
    }
  }

  /** Well-formed UTF-8 is closed under concatenation. */
  lemma {:induction false} WellFormedAppend(a: seq<byte>, b: seq<byte>)
    requires WellFormed(a) && WellFormed(b)
    ensures WellFormed(a + b)
    decreases |a|
  {
    if a == [] {
      assert a + b == b;
    } else {
      var c := CharLen(a);
      CharLenAppend(a, b);
      WellFormedAppend(a[c..], b);
      Seqs.DropAppend(a, b, c);
    }
  }

  /** A single character is well-formed. */
  lemma CharWellFormed(c: seq<byte>)
    requires IsChar(c)
    ensures WellFormed(c)
  {
    assert c[..|c|] == c;
    assert c[CharLen(c)..] == [];
  }

  /** A well-formed sequence is its first character followed by a well-formed rest. */
  lemma WellFormedCons(c: seq<byte>, r: seq<byte>)
    requires IsChar(c) && WellFormed(r)
    ensures WellFormed(c + r)
  {
    CharWellFormed(c);
    WellFormedAppend(c, r);
  }
}
