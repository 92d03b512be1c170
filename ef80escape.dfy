/**
  Lossless conversion between arbitrary bytes and well-formed UTF-8.

  Bytes that are not part of well-formed UTF-8 (always >= 0x80) are carried by
  the private-use band U+EF80..U+EFFF, one code point per byte value. A code
  point of that band, or the escape marker U+EF00, that already occurs in the
  input is prefixed with U+EF00 so that the backward direction can tell it
  from an encoded byte.

  Text is represented by its UTF-8 bytes throughout. This module holds the
  pure specification of both directions and the proofs about it; the module
  Transcode holds the loops that compute them.
 */
module Ef80Escape {
  import opened Utf8
  import Seqs

  /** The first byte of the 3-byte form of U+E000..U+EFFF. */
  const MarkerLead: byte := 0xEE

  /** U+EF00, the escape marker, as UTF-8. */
  const EscapeMarker: seq<byte> := [0xEE, 0xBC, 0x80]

  /** A code point of the Basic Multilingual Plane, U+0000..U+FFFF. */
  type CodePoint = bv16

  /** The UTF-8 form of a code point in U+0800..U+FFFF: 1110xxxx 10xxxxxx 10xxxxxx. */
  function ThreeByteForm(cp: CodePoint): seq<byte>
    requires 0x800 <= cp
  {
    [(0xE0 | (cp >> 12)) as byte, (0x80 | ((cp >> 6) & 0x3F)) as byte, (0x80 | (cp & 0x3F)) as byte]
  }

  /** The code point that a 3-byte UTF-8 unit encodes. */
  function CodePoint3(b0: byte, b1: byte, b2: byte): CodePoint {
    ((b0 & 0x0F) as CodePoint << 12) | ((b1 & 0x3F) as CodePoint << 6) | (b2 & 0x3F) as CodePoint
  }

  /** The code points the scheme reserves: U+EF00 and the band U+EF80..U+EFFF. */
  predicate IsReserved(cp: CodePoint) {
    cp == 0xEF00 || 0xEF80 <= cp <= 0xEFFF
  }

  /**
    Given the two bytes after a 0xEE lead byte, tells whether the unit is
    U+EF00 or lies in U+EF80..U+EFFF.
   */
  function NeedEscape(b1: byte, b2: byte): (r: bool)
    ensures r <==> (b1 == 0xBC && b2 == 0x80) || ((b1 == 0xBE || b1 == 0xBF) && IsTail(b2))
    ensures r ==> b1 != MarkerLead && b2 != MarkerLead
  {
    (b1 == 0xBC && b2 == 0x80) || ((b1 | 1) == 0xBF && b2 >= 0x80 && b2 <= 0xBF)
  }

  /** `s` starts with a 3-byte unit that is a reserved code point. */
  predicate StartsReserved(s: seq<byte>) {
    |s| >= 3 && s[0] == MarkerLead && NeedEscape(s[1], s[2])
  }

  /** The band code point U+EF80 + (b - 0x80) that carries a byte b >= 0x80, as UTF-8. */
  function EncodeByte(b: byte): (r: seq<byte>)
    requires b >= 0x80
    ensures r == ThreeByteForm(0xEF80 + (b as CodePoint - 0x80))
    ensures IsChar(r) && StartsReserved(r) && r[1] != 0xBC
  {
    [0xEE, 0xBE + ((b ^ 0x80) >> 6), (b | 0x40) ^ 0x40]
  }

  /** The byte that an unescaped band unit 0xEE b1 b2 stands for. */
  function DecodeByte(b1: byte, b2: byte): (r: byte)
    ensures (b1 == 0xBE || b1 == 0xBF) && IsTail(b2) ==>
              r >= 0x80 && r as CodePoint == 0x80 + (CodePoint3(MarkerLead, b1, b2) - 0xEF80)
  {
    ((b1 & 3) << 6) | (b2 & 63)
  }

  /** What the forward direction emits for the first byte of `s`. */
  function EscapeUnit(s: seq<byte>): seq<byte>
    requires |s| > 0
  {
    (if StartsReserved(s) then EscapeMarker else []) + [s[0]]
  }

  /**
    Escaping of a well-formed run, byte by byte: U+EF00 is inserted in front
    of every 0xEE that starts a reserved unit, all bytes are copied.
   */
  function Escape(s: seq<byte>): seq<byte> {
    if s == [] then [] else EscapeUnit(s) + Escape(s[1..])
  }

  /**
    Escaping stated per character: a reserved character gets U+EF00 in front
    of it, every other character is copied as it is.
   */
  function EscapeChars(w: seq<byte>): seq<byte>
    requires WellFormed(w)
    decreases |w|
  {
    if w == [] then []
    else
      var n := CharLen(w);
      (if StartsReserved(w) then EscapeMarker else []) + w[..n] + EscapeChars(w[n..])
  }

  /**
    The forward direction: the longest well-formed prefix is escaped, the
    byte that stops validation is replaced by its band code point, and the
    rest is encoded the same way.
   */
  function Encode(data: seq<byte>): seq<byte>
    decreases |data|
  {
    if data == [] then []
    else
      match FromUtf8(data)
      case Ok => Escape(data)
      case Err(l) => Escape(data[..l]) + EncodeByte(data[l]) + Encode(data[l + 1..])
  }

  /**
    The backward direction from a state in which the previous unit was the
    escape marker (`escaped`) or not.
   */
  function DecodeFrom(s: seq<byte>, escaped: bool): seq<byte>
    decreases |s|
  {
    if s == [] then []
    else if StartsReserved(s) then
      if s[1] == 0xBC && !escaped then DecodeFrom(s[3..], true)
      else if escaped then s[..3] + DecodeFrom(s[3..], false)
      else [DecodeByte(s[1], s[2])] + DecodeFrom(s[3..], false)
    else [s[0]] + DecodeFrom(s[1..], false)
  }

  function Decode(s: seq<byte>): seq<byte> {
    DecodeFrom(s, false)
  }

  // ---------------------------------------------------------------------
  // The reserved units and the band mapping

  /** Every reserved code point is recognised by NeedEscape after its 0xEE lead byte. */
  lemma ReservedNeedsEscape(cp: CodePoint)
    requires IsReserved(cp)
    ensures StartsReserved(ThreeByteForm(cp))
  {
  }

  /** NeedEscape recognises nothing but reserved code points. */
  lemma NeedEscapeOnlyReserved(b1: byte, b2: byte)
    requires NeedEscape(b1, b2)
    ensures IsReserved(CodePoint3(MarkerLead, b1, b2))
    ensures ThreeByteForm(CodePoint3(MarkerLead, b1, b2)) == [MarkerLead, b1, b2]
  {
  }

  /** Decoding an encoded byte gives the byte back. */
  lemma DecodeEncodeByte(b: byte)
    requires b >= 0x80
    ensures DecodeByte(EncodeByte(b)[1], EncodeByte(b)[2]) == b
  {
  }

  /** Every band unit is the encoding of the byte it decodes to. */
  lemma EncodeDecodeByte(b1: byte, b2: byte)
    requires (b1 == 0xBE || b1 == 0xBF) && IsTail(b2)
    ensures DecodeByte(b1, b2) >= 0x80
    ensures EncodeByte(DecodeByte(b1, b2)) == [MarkerLead, b1, b2]
  {
  }

  // ---------------------------------------------------------------------
  // Escaping

  /** Without a 0xEE byte there is nothing to escape. */
  lemma {:induction false} EscapeNoLead(s: seq<byte>)
    requires MarkerLead !in s
    ensures Escape(s) == s
  {
    if s != [] {
      EscapeNoLead(s[1..]);
    }
  }

  /** Without a reserved unit there is nothing to escape. */
  lemma {:induction false} EscapeNoReserved(s: seq<byte>)
    requires forall i | 0 <= i < |s| :: !StartsReserved(s[i..])
    ensures Escape(s) == s
  {
    if s != [] {
      assert s[0..] == s;
      forall i | 0 <= i < |s[1..]|
        ensures !StartsReserved(s[1..][i..])
      {
        assert s[1..][i..] == s[i + 1..];
      }
      EscapeNoReserved(s[1..]);
    }
  }

  /** No 0xEE among the last two bytes of `a`: no unit of `a` reaches past its end. */
  predicate NoLeadAtEnd(a: seq<byte>) {
    forall i | 0 <= i < |a| && |a| <= i + 2 :: a[i] != MarkerLead
  }

  /** Escaping distributes over a concatenation whose left part ends cleanly. */
  lemma {:induction false} EscapeAppend(a: seq<byte>, b: seq<byte>)
    requires NoLeadAtEnd(a)
    ensures Escape(a + b) == Escape(a) + Escape(b)
    decreases |a|
  {
    if a == [] {
      assert a + b == b;
    } else {
      assert (a + b)[1..] == a[1..] + b;
      assert StartsReserved(a + b) == StartsReserved(a);
      EscapeAppend(a[1..], b);
    }
  }

  /** A character that does not start with 0xEE has no 0xEE at all. */
  lemma CharNoLead(w: seq<byte>)
    requires CharLen(w) > 0 && w[0] != MarkerLead
    ensures MarkerLead !in w[..CharLen(w)]
  {
  }

  /** A 0xEE unit whose other bytes are not 0xEE gets the marker exactly when it is reserved. */
  lemma EscapeLeadUnit(b1: byte, b2: byte)
    requires b1 != MarkerLead && b2 != MarkerLead
    ensures Escape([MarkerLead, b1, b2]) == (if NeedEscape(b1, b2) then EscapeMarker else []) + [MarkerLead, b1, b2]
  {
    var c := [MarkerLead, b1, b2];
    assert c[1..] == [b1, b2];
    EscapeNoLead([b1, b2]);
  }

  /** Escaping one character: the marker in front of a reserved one, nothing else changes. */
  lemma EscapeChar(w: seq<byte>)
    requires CharLen(w) > 0
    ensures NoLeadAtEnd(w[..CharLen(w)])
    ensures Escape(w[..CharLen(w)]) == (if StartsReserved(w) then EscapeMarker else []) + w[..CharLen(w)]
  {
    var c := w[..CharLen(w)];
    if w[0] == MarkerLead {
      assert c == [MarkerLead, w[1], w[2]];
      EscapeLeadUnit(w[1], w[2]);
    } else {
      CharNoLead(w);
      EscapeNoLead(c);
    }
  }

  /** The byte-wise escaping of a well-formed run is the character-wise one. */
  lemma {:induction false} EscapeIsCharwise(w: seq<byte>)
    requires WellFormed(w)
    ensures Escape(w) == EscapeChars(w)
    decreases |w|
  {
    if w != [] {
      var n := CharLen(w);
      EscapeChar(w);
      assert w == w[..n] + w[n..];
      EscapeAppend(w[..n], w[n..]);
      EscapeIsCharwise(w[n..]);
    }
  }

  /** Escaping a well-formed run keeps it well-formed. */
  lemma {:induction false} EscapeWellFormed(w: seq<byte>)
    requires WellFormed(w)
    ensures WellFormed(Escape(w))
    decreases |w|
  {
    EscapeIsCharwise(w);
    EscapeCharsWellFormed(w);
  }

  lemma {:induction false} EscapeCharsWellFormed(w: seq<byte>)
    requires WellFormed(w)
    ensures WellFormed(EscapeChars(w))
    decreases |w|
  {
    if w != [] {
      var n := CharLen(w);
      var tail := EscapeChars(w[n..]);
      var body := w[..n] + tail;
      EscapeCharsWellFormed(w[n..]);
      WellFormedCons(w[..n], tail);
      if StartsReserved(w) {
        assert IsChar(EscapeMarker);
        WellFormedCons(EscapeMarker, body);
        Seqs.Assoc(EscapeMarker, w[..n], tail);
      } else {
        assert EscapeChars(w) == body;
      }
    }
  }

  // ---------------------------------------------------------------------
  // The forward direction is total and yields well-formed UTF-8

  lemma {:induction false} EncodeWellFormed(data: seq<byte>)
    ensures WellFormed(Encode(data))
    decreases |data|
  {
    if data != [] {
      match FromUtf8(data)
      case Ok =>
        EscapeWellFormed(data);
      case Err(l) =>
        EncodeInvalidRun(data, l);
        EncodeWellFormed(data[l + 1..]);
        WellFormedAppend(Escape(data[..l]) + EncodeByte(data[l]), Encode(data[l + 1..]));
    }
  }

  /** A well-formed input is escaped as a whole, which keeps it well-formed. */
  lemma EncodeValidRun(s: seq<byte>)
    requires s != [] && FromUtf8(s).Ok?
    ensures Encode(s) == Escape(s) && WellFormed(Escape(s))
  {
    EscapeWellFormed(s);
  }

  /**
    An input that stops being well-formed at `l` is cut into its valid prefix,
    the byte at `l` and the rest; the first two parts together are well-formed.
   */
  lemma EncodeInvalidRun(s: seq<byte>, l: nat)
    requires s != [] && FromUtf8(s) == Err(l)
    ensures l < |s| && s[l] >= 0x80
    ensures Encode(s) == Escape(s[..l]) + EncodeByte(s[l]) + Encode(s[l + 1..])
    ensures WellFormed(Escape(s[..l]) + EncodeByte(s[l]))
  {
    EscapeWellFormed(s[..l]);
    CharWellFormed(EncodeByte(s[l]));
    WellFormedAppend(Escape(s[..l]), EncodeByte(s[l]));
  }

  /** Well-formed input containing no reserved character is returned unchanged. */
  lemma EncodeIdentity(w: seq<byte>)
    requires WellFormed(w)
    requires forall i | 0 <= i < |w| :: !StartsReserved(w[i..])
    ensures Encode(w) == w
  {
    if w != [] {
      EscapeNoReserved(w);
    }
  }

  /** Well-formed input without any 0xEE byte is returned unchanged (the zero-copy case). */
  lemma EncodeZeroCopy(w: seq<byte>)
    requires WellFormed(w) && MarkerLead !in w
    ensures Encode(w) == w
  {
    if w != [] {
      EscapeNoLead(w);
    }
  }

  // ---------------------------------------------------------------------
  // The backward direction

  /** Without a 0xEE byte every byte is copied, whatever the state. */
  lemma {:induction false} DecodeNoLead(s: seq<byte>, escaped: bool)
    requires MarkerLead !in s
    ensures DecodeFrom(s, escaped) == s
    decreases |s|
  {
    if s != [] {
      DecodeNoLead(s[1..], false);
    }
  }

  /** A nonempty stretch without 0xEE is copied and leaves the state unescaped. */
  lemma {:induction false} DecodeNoLeadPrefix(c: seq<byte>, t: seq<byte>, escaped: bool)
    requires MarkerLead !in c && c != []
    ensures DecodeFrom(c + t, escaped) == c + Decode(t)
    decreases |c|
  {
    assert (c + t)[1..] == c[1..] + t;
    if |c| > 1 {
      DecodeNoLeadPrefix(c[1..], t, false);
    }
  }

  /** An unescaped band unit decodes to the byte it carries. */
  lemma DecodeBand(b: byte, t: seq<byte>)
    requires b >= 0x80
    ensures Decode(EncodeByte(b) + t) == [b] + Decode(t)
  {
    var s := EncodeByte(b) + t;
    assert s[3..] == t;
  }

  /** The marker followed by a reserved unit gives that unit's three bytes. */
  lemma DecodeMarkerThenReserved(b1: byte, b2: byte, t: seq<byte>)
    requires NeedEscape(b1, b2)
    ensures Decode(EscapeMarker + [MarkerLead, b1, b2] + t) == [MarkerLead, b1, b2] + Decode(t)
  {
    var s := EscapeMarker + [MarkerLead, b1, b2] + t;
    var u := [MarkerLead, b1, b2] + t;
    assert s[3..] == u && u[..3] == [MarkerLead, b1, b2] && u[3..] == t;
    assert StartsReserved(s) && StartsReserved(u);
    assert DecodeFrom(s, false) == DecodeFrom(u, true);
  }

  /** A marker that is not followed by a reserved unit contributes nothing. */
  lemma DecodeDanglingMarker(t: seq<byte>)
    requires !StartsReserved(t)
    ensures Decode(EscapeMarker + t) == Decode(t)
  {
    var s := EscapeMarker + t;
    assert s[3..] == t;
    if t != [] {
      assert DecodeFrom(t, true) == DecodeFrom(t, false);
    }
  }

  /** A 0xEE unit that is not reserved is copied and leaves the state unescaped. */
  lemma DecodeUnreservedLead(b1: byte, b2: byte, r: seq<byte>)
    requires !NeedEscape(b1, b2) && b1 != MarkerLead && b2 != MarkerLead
    ensures Decode([MarkerLead, b1, b2] + r) == [MarkerLead, b1, b2] + Decode(r)
  {
    var s := [MarkerLead, b1, b2] + r;
    assert !StartsReserved(s) && s[1..] == [b1, b2] + r;
    DecodeNoLeadPrefix([b1, b2], r, false);
  }

  /** Decoding one escaped character gives the character back and ends unescaped. */
  lemma DecodeEscapedChar(w: seq<byte>, r: seq<byte>)
    requires CharLen(w) > 0
    ensures var c := w[..CharLen(w)];
            Decode((if StartsReserved(w) then EscapeMarker else []) + c + r) == c + Decode(r)
  {
    var c := w[..CharLen(w)];
    if w[0] == MarkerLead {
      assert c == [MarkerLead, w[1], w[2]];
      if StartsReserved(w) {
        DecodeMarkerThenReserved(w[1], w[2], r);
      } else {
        DecodeUnreservedLead(w[1], w[2], r);
        assert [] + c + r == c + r;
      }
    } else {
      CharNoLead(w);
      DecodeNoLeadPrefix(c, r, false);
      assert [] + c + r == c + r;
    }
  }

  /** Decoding an escaped well-formed run gives the run back and ends unescaped. */
  lemma {:induction false} DecodeEscaped(w: seq<byte>, t: seq<byte>)
    requires WellFormed(w)
    ensures Decode(Escape(w) + t) == w + Decode(t)
    decreases |w|
  {
    EscapeIsCharwise(w);
    if w == [] {
      assert Escape(w) + t == t;
    } else {
      var n := CharLen(w);
      var c := w[..n];
      var pre := if StartsReserved(w) then EscapeMarker else [];
      var r := EscapeChars(w[n..]) + t;
      EscapeIsCharwise(w[n..]);
      DecodeEscaped(w[n..], t);
      DecodeEscapedChar(w, r);
      Seqs.Assoc(pre + c, EscapeChars(w[n..]), t);
      Seqs.Assoc(c, w[n..], Decode(t));
      assert w == c + w[n..];
    }
  }

  // ---------------------------------------------------------------------
  // The round trip

  /** Decoding one step of the forward loop: an escaped well-formed run, then a band unit. */
  lemma DecodeInvalidRun(pre: seq<byte>, b: byte, t: seq<byte>)
    requires WellFormed(pre) && b >= 0x80
    ensures Decode(Escape(pre) + EncodeByte(b) + t) == pre + [b] + Decode(t)
  {
    DecodeBand(b, t);
    DecodeEscaped(pre, EncodeByte(b) + t);
    Seqs.Assoc(Escape(pre), EncodeByte(b), t);
    Seqs.Assoc(pre, [b], Decode(t));
  }

  /** Decoding what Encode produced gives the original bytes back, for every input. */
  lemma {:induction false} RoundTrip(data: seq<byte>)
    ensures Decode(Encode(data)) == data
    decreases |data|
  {
    if data != [] {
      match FromUtf8(data)
      case Ok =>
        DecodeEscaped(data, []);
        assert Escape(data) + [] == Escape(data);
      case Err(l) =>
        EncodeInvalidRun(data, l);
        var pre, b, rest := data[..l], data[l], data[l + 1..];
        RoundTrip(rest);
        DecodeInvalidRun(pre, b, Encode(rest));
        Seqs.SplitAt(data, l);
    }
  }

  /** Distinct inputs have distinct encodings. */
  lemma EncodeInjective(a: seq<byte>, b: seq<byte>)
    requires Encode(a) == Encode(b)
    ensures a == b
  {
    RoundTrip(a);
    RoundTrip(b);
  }
}
