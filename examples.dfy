/**
  The documented examples of both conversions, on concrete text. Text is
  written as its UTF-8 bytes.
 */
module Examples {
  import opened Utf8
  import opened Ef80Escape
  import opened Transcode

  /** The text whose characters, in UTF-8, are the elements of `cs`. */
  function Text(cs: seq<seq<byte>>): seq<byte> {
    if cs == [] then [] else cs[0] + Text(cs[1..])
  }

  /** Text made of characters without 0xEE is well-formed and has no 0xEE. */
  lemma {:induction false} PlainText(cs: seq<seq<byte>>)
    requires forall i | 0 <= i < |cs| :: IsChar(cs[i]) && MarkerLead !in cs[i]
    ensures WellFormed(Text(cs)) && MarkerLead !in Text(cs)
  {
    if cs != [] {
      PlainText(cs[1..]);
      WellFormedCons(cs[0], Text(cs[1..]));
    }
  }

  const Abc: seq<byte> := [0x61, 0x62, 0x63]
  const AbcChars: seq<seq<byte>> := [[0x61], [0x62], [0x63]]

  /** "汉字" */
  const HanziChars: seq<seq<byte>> := [[0xE6, 0xB1, 0x89], [0xE5, 0xAD, 0x97]]
  const Hanzi: seq<byte> := Text(HanziChars)

  /** "🤦🏼‍♂️": five code points, two of them outside the Basic Multilingual Plane. */
  const FacepalmChars: seq<seq<byte>> :=
    [[0xF0, 0x9F, 0xA4, 0xA6], [0xF0, 0x9F, 0x8F, 0xBC], [0xE2, 0x80, 0x8D], [0xE2, 0x99, 0x82], [0xEF, 0xB8, 0x8F]]
  const Facepalm: seq<byte> := Text(FacepalmChars)

  /** "123 汉字 🤦🏼‍♂️" */
  const MixedChars: seq<seq<byte>> := [[0x31], [0x32], [0x33], [0x20]] + HanziChars + [[0x20]] + FacepalmChars
  const Mixed: seq<byte> := Text(MixedChars)

  /** U+EF80 and U+EFFF as UTF-8. */
  const BandFirst: seq<byte> := [0xEE, 0xBE, 0x80]
  const BandLast: seq<byte> := [0xEE, 0xBF, 0xBF]

  lemma AbcText()
    ensures Text(AbcChars) == Abc
  {
    assert AbcChars[1..][1..][1..] == [];
    assert Text([[0x63]]) == [0x63] + [] == [0x63];
  }

  lemma PlainAbc()
    ensures WellFormed(Abc) && MarkerLead !in Abc
  {
    AbcText();
    PlainText(AbcChars);
  }

  lemma PlainHanzi()
    ensures WellFormed(Hanzi) && MarkerLead !in Hanzi
  {
    PlainText(HanziChars);
  }

  lemma PlainFacepalm()
    ensures WellFormed(Facepalm) && MarkerLead !in Facepalm
  {
    PlainText(FacepalmChars);
  }

  lemma PlainMixed()
    ensures WellFormed(Mixed) && MarkerLead !in Mixed
  {
    var cs := MixedChars;
    assert forall i | 0 <= i < |cs| :: cs[i] in [[0x31], [0x32], [0x33], [0x20]] || cs[i] in HanziChars || cs[i] in FacepalmChars;
    PlainText(cs);
  }

  lemma PlainExamples()
    ensures WellFormed(Abc) && MarkerLead !in Abc
    ensures WellFormed(Hanzi) && MarkerLead !in Hanzi
    ensures WellFormed(Facepalm) && MarkerLead !in Facepalm
  {
    PlainAbc();
    PlainHanzi();
    PlainFacepalm();
  }

  /** ASCII and other UTF-8 without 0xEE is returned as it is. */
  lemma EncodePlainText()
    ensures Encode(Abc) == Abc && Encode(Hanzi) == Hanzi && Encode(Facepalm) == Facepalm
  {
    PlainExamples();
    EncodeZeroCopy(Abc);
    EncodeZeroCopy(Hanzi);
    EncodeZeroCopy(Facepalm);
  }

  /** Decoding returns text without 0xEE as it is. */
  lemma DecodePlainText()
    ensures Decode(Abc) == Abc && Decode(Hanzi) == Hanzi && Decode(Facepalm) == Facepalm
  {
    PlainExamples();
    DecodeNoLead(Abc, false);
    DecodeNoLead(Hanzi, false);
    DecodeNoLead(Facepalm, false);
  }

  /** The byte 0xFF, which is never part of UTF-8, becomes U+EFFF. */
  lemma EncodeInvalidByte()
    ensures Encode([0xFF]) == BandLast == ThreeByteForm(0xEFFF)
  {
    assert FromUtf8([0xFF]) == Err(0);
    assert [0xFF][1..] == [];
  }

  /** U+EFFF and U+EF00 in the input are prefixed with U+EF00. */
  lemma EncodeEscapesReserved()
    ensures Encode(BandLast) == EscapeMarker + BandLast
    ensures Encode(EscapeMarker) == EscapeMarker + EscapeMarker
  {
    assert BandLast[3..] == [] && EscapeMarker[3..] == [];
    assert FromUtf8(BandLast) == Ok && FromUtf8(EscapeMarker) == Ok;
    EscapeNoLead(BandLast[1..]);
    EscapeNoLead(EscapeMarker[1..]);
  }

  /** U+EF80..U+EFFF without a prefix decode to the bytes 0x80..0xFF. */
  lemma DecodeBandExample()
    ensures Decode(BandFirst + BandLast) == [0x80, 0xFF]
  {
    DecodeBand(0x80, BandLast);
    DecodeBand(0xFF, []);
    assert BandLast + [] == BandLast;
  }

  /** U+EF00 keeps the following U+EFFF or U+EF00 as it is. */
  lemma DecodeEscapeExamples()
    ensures Decode(EscapeMarker + BandLast) == BandLast
    ensures Decode(EscapeMarker + EscapeMarker) == EscapeMarker
  {
    assert Decode([]) == [];
    DecodeMarkerThenReserved(0xBF, 0xBF, []);
    assert EscapeMarker + BandLast == EscapeMarker + BandLast + [];
    DecodeMarkerThenReserved(0xBC, 0x80, []);
    assert EscapeMarker + EscapeMarker == EscapeMarker + EscapeMarker + [];
  }

  /** U+EF00 followed by anything else is ignored. */
  lemma DecodeDanglingExamples()
    ensures Decode(EscapeMarker + Abc) == Abc
    ensures Decode(EscapeMarker + Abc + BandLast) == Abc + [0xFF]
  {
    PlainAbc();
    DecodeDanglingMarker(Abc);
    DecodeNoLead(Abc, false);
    DecodeDanglingMarker(Abc + BandLast);
    DecodeNoLeadPrefix(Abc, BandLast, false);
    DecodeBand(0xFF, []);
    assert BandLast + [] == BandLast;
    assert EscapeMarker + Abc + BandLast == EscapeMarker + (Abc + BandLast);
  }

  /** Text without 0xEE passes through both conversions without a copy. */
  method ZeroCopy() returns (bytes: Cow<seq<byte>>, text: Cow<seq<byte>>)
    ensures bytes == Borrowed(Mixed) && text == Borrowed(Mixed)
  {
    PlainMixed();
    bytes := StrToBytes(Mixed);
    text := BytesToStr(bytes.value);
  }
}
