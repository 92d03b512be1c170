/**
  The two public conversions, written as the loops that compute them.

  Each method is proved against the specification in Ef80Escape: the forward
  loop computes Encode and only ever appends well-formed UTF-8 to its buffer,
  the backward loop computes Decode. A result is tagged Borrowed when it is
  the input itself and Owned when it was built in a fresh buffer; the tag
  carries no other meaning, and both tags carry the value.
 */
module Transcode {
  import opened Utf8
  import opened Ef80Escape
  import Seqs

  datatype Cow<T> = Borrowed(value: T) | Owned(value: T)

  /** Appends the escaped form of the well-formed run `utf8Bytes` to the buffer `out`. */
  method ExtendEscapedUtf8(utf8Bytes: seq<byte>, out: seq<byte>) returns (result: seq<byte>)
    ensures result == out + Escape(utf8Bytes)
  {
    result := out;
    for i := 0 to |utf8Bytes|
      invariant result + Escape(utf8Bytes[i..]) == out + Escape(utf8Bytes)
    {
      var b := utf8Bytes[i];
      if b == 0xEE {
        if i + 1 < |utf8Bytes| && i + 2 < |utf8Bytes| {
          var b1, b2 := utf8Bytes[i + 1], utf8Bytes[i + 2];
          if NeedEscape(b1, b2) {
            result := result + [0xEE, 0xBC, 0x80];
          }
        }
      }
      Seqs.DropDrop(utf8Bytes, i, 1);
      result := result + [b];
    }
  }

  /**
    Converts arbitrary bytes to well-formed UTF-8. The result is the input
    itself exactly when the input is nonempty, well-formed and has no 0xEE.
   */
  method BytesToStr(data: seq<byte>) returns (r: Cow<seq<byte>>)
    ensures r.value == Encode(data)
    ensures WellFormed(r.value)
    ensures r.Borrowed? <==> data != [] && WellFormed(data) && MarkerLead !in data
    ensures r.Borrowed? ==> r.value == data
  {
    ghost var target, borrowable := Encode(data), data != [] && WellFormed(data) && MarkerLead !in data;
    var rest := data;
    var result: seq<byte> := [];
    while rest != []
      invariant target == result + Encode(rest)
      invariant WellFormed(result)
      invariant result == [] ==> rest == data
      invariant result != [] ==> !borrowable
      decreases |rest|
    {
      match FromUtf8(rest)
      case Ok =>
        EncodeValidRun(rest);
        if result == [] && MarkerLead !in rest {
          EscapeNoLead(rest);
          return Borrowed(rest);
        }
        WellFormedAppend(result, Escape(rest));
        result := ExtendEscapedUtf8(rest, result);
        break;
      case Err(l) =>
        EncodeInvalidRun(rest, l);
        ghost var before, run, tail := result, Escape(rest[..l]), Encode(rest[l + 1..]);
        var b := rest[l];
        Seqs.Assoc4(before, run, EncodeByte(b), tail);
        Seqs.Assoc(before, run, EncodeByte(b));
        WellFormedAppend(before, run + EncodeByte(b));
        result := ExtendEscapedUtf8(rest[..l], result);
        result := result + EncodeByte(b);
        rest := rest[l + 1..];
    }
    return Owned(result);
  }

  /**
    Converts well-formed UTF-8 back to bytes. The result is the input itself
    exactly when the input has no 0xEE.
   */
  method StrToBytes(data: seq<byte>) returns (r: Cow<seq<byte>>)
    requires WellFormed(data)
    ensures r.value == Decode(data)
    ensures r.Borrowed? <==> MarkerLead !in data
    ensures r.Borrowed? ==> r.value == data
  {
    if MarkerLead !in data {
      DecodeNoLead(data, false);
      return Borrowed(data);
    }
    ghost var target := Decode(data);
    var result: seq<byte> := [];
    var escaped := false;
    var i := 0;
    while i < |data|
      invariant 0 <= i <= |data|
      invariant target == result + DecodeFrom(data[i..], escaped)
    {
      var b := data[i];
      if b == 0xEE {
        if i + 1 < |data| && i + 2 < |data| {
          var b1, b2 := data[i + 1], data[i + 2];
          if NeedEscape(b1, b2) {
            assert StartsReserved(data[i..]) && data[i..][3..] == data[i + 3..];
            if b1 == 0xBC && !escaped {
              escaped := true;
            } else if escaped {
              assert data[i..][..3] == [b, b1, b2];
              Seqs.Assoc(result, [b, b1, b2], DecodeFrom(data[i + 3..], false));
              result := result + [b, b1, b2];
              escaped := false;
            } else {
              var v := ((b1 & 3) << 6) | (b2 & 63);
              Seqs.Assoc(result, [v], DecodeFrom(data[i + 3..], false));
              result := result + [v];
            }
            i := i + 3;
            continue;
          }
        }
      }
      assert !StartsReserved(data[i..]) && data[i..][1..] == data[i + 1..];
      Seqs.Assoc(result, [b], DecodeFrom(data[i + 1..], false));
      escaped := false;
      result := result + [b];
      i := i + 1;
    }
    return Owned(result);
  }

  /** Converting to text and back gives the original bytes, for every input. */
  method CheckRoundTrip(data: seq<byte>) returns (d: Cow<seq<byte>>)
    ensures d.value == data
  {
    var s := BytesToStr(data);
    d := StrToBytes(s.value);
    RoundTrip(data);
  }
}
