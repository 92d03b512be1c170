# ef80escape in Dafny

This project models the crate `ef80escape`. The crate converts losslessly between arbitrary bytes and well-formed UTF-8:

- `bytes_to_str` carries every byte that is not part of well-formed UTF-8 (always >= 0x80) as one code point of the private-use band U+EF80..U+EFFF.
- If the input already holds U+EF00 or a band character, `bytes_to_str` puts the marker U+EF00 in front of it.
- `str_to_bytes` reverses both steps.

Text is represented by its UTF-8 bytes, as the crate does internally. A byte is `bv8`, so the crate's bit expressions appear unchanged.

The project has five modules:

- `Utf8` defines well-formed UTF-8 after the UTF8-octets grammar of section 4 of RFC 3629. It also defines the longest well-formed prefix, which stands in for `std::str::from_utf8` and `valid_up_to`.
- `Ef80Escape` holds the pure specification of both directions:
  - `Encode` is the forward direction; `Escape` escapes inside a well-formed run.
  - `Decode`/`DecodeFrom` is the backward direction, a scan with one `escaped` state.
  - `NeedEscape` is the shared predicate.
  - The module also holds the proofs: the round trip `Decode(Encode(d)) == d` for every byte sequence, and well-formedness of every encoding.
- `Transcode` holds the three loops of the crate:
  - `ExtendEscapedUtf8`, `BytesToStr` and `StrToBytes` are written as the crate writes them.
  - Each is proved to compute the specification function.
  - `Cow` is modelled as a tag on the result.
- `Examples` proves the examples from the crate's documentation and its `zero_copy` test on concrete text.
- `Seqs` holds two regrouping lemmas for sequence concatenation.

The comments at src/lib.rs:113 and src/lib.rs:245 name "U+EE00". The bytes compared there (`EE BC 80`) are U+EF00, which is also the code point the documentation uses. The model follows the code.

## Model

| member | source | states |
|---|---|---|
| Utf8.FromUtf8 | src/lib.rs:125-135 | Ok exactly when the input is well-formed UTF-8. Otherwise `validUpTo` is below the length, that prefix is well-formed, no longer prefix is, and the byte at `validUpTo` is >= 0x80 |
| Utf8.ValidUpToIsLongest | src/lib.rs:134-135 | the prefix measured by `valid_up_to` is well-formed and is the longest such prefix |
| Utf8.ValidUpToStopsAtNonAscii | src/lib.rs:134-137 | validation can only stop in front of a byte >= 0x80 |
| Utf8.WellFormedIffValidUpTo | src/lib.rs:125-126 | a sequence is well-formed exactly when its longest valid prefix is all of it |
| Utf8.CharLenIsChar | src/lib.rs:125 | the lead-byte decision finds a character of the RFC 3629 grammar |
| Utf8.CharLenUnique | src/lib.rs:125 | the grammar is prefix-free: a prefix that is a character is the one the lead byte selects |
| Utf8.WellFormedAppend | src/lib.rs:131-138 | concatenating well-formed UTF-8 gives well-formed UTF-8, which is what lets the buffer grow safely |
| Ef80Escape.NeedEscape | src/lib.rs:245-249 | true exactly for `BC 80` (U+EF00) or `BE`/`BF` followed by a tail byte (U+EF80..U+EFFF); neither byte is then 0xEE |
| Ef80Escape.ReservedNeedsEscape | src/lib.rs:44-49 | the UTF-8 form of U+EF00 and of every code point in U+EF80..U+EFFF is recognised after its 0xEE lead byte |
| Ef80Escape.NeedEscapeOnlyReserved | src/lib.rs:245-249 | whatever the predicate recognises is the UTF-8 form of a reserved code point |
| Ef80Escape.EncodeByte | src/lib.rs:137-138 | the emitted three bytes are the UTF-8 form of U+EF80 + (b - 0x80), a character of the grammar, a reserved unit and not the marker |
| Ef80Escape.DecodeByte | src/lib.rs:228-231 | on a band unit, the result is >= 0x80 and equals 0x80 + (code point - 0xEF80) |
| Ef80Escape.DecodeEncodeByte | src/lib.rs:138 | decoding the band unit of a byte gives the byte back |
| Ef80Escape.EncodeDecodeByte | src/lib.rs:228-231 | every band unit is the encoding of the byte it decodes to |
| Ef80Escape.EscapeNoLead | src/lib.rs:109-122 | without a 0xEE byte the escaped run equals the run |
| Ef80Escape.EscapeNoReserved | src/lib.rs:109-122 | without a reserved unit the escaped run equals the run |
| Ef80Escape.EscapeAppend | src/lib.rs:109-122 | escaping distributes over concatenation when no 0xEE is among the last two bytes of the left part |
| Ef80Escape.EscapeLeadUnit | src/lib.rs:111-120 | a 0xEE unit gets U+EF00 in front of it exactly when `need_escape` holds, and its bytes are copied |
| Ef80Escape.EscapeChar | src/lib.rs:111-120 | escaping one character puts U+EF00 before it exactly when it is reserved and copies it |
| Ef80Escape.EscapeIsCharwise | src/lib.rs:109-122 | the byte-wise escaping loop equals escaping character by character: the marker before each reserved character, every byte copied in order |
| Ef80Escape.EscapeWellFormed | src/lib.rs:109-122 | escaping a well-formed run keeps it well-formed |
| Ef80Escape.EscapeCharsWellFormed | src/lib.rs:109-122 | the character-wise escaping of a well-formed run is well-formed |
| Ef80Escape.EncodeWellFormed | src/lib.rs:144-148 | every encoding is well-formed UTF-8, the invariant that licenses `from_utf8_unchecked` |
| Ef80Escape.EncodeValidRun | src/lib.rs:126-132 | a well-formed remainder is escaped as a whole and stays well-formed |
| Ef80Escape.EncodeInvalidRun | src/lib.rs:134-139 | in a failing step the byte at `l` is >= 0x80, it becomes its band character, `l + 1` bytes are consumed, and the part emitted is well-formed |
| Ef80Escape.EncodeIdentity | src/lib.rs:109-129 | well-formed input without a reserved character encodes to itself |
| Ef80Escape.EncodeZeroCopy | src/lib.rs:127-129 | well-formed input without 0xEE encodes to itself |
| Ef80Escape.DecodeNoLead | src/lib.rs:210-212 | without 0xEE decoding is the identity, in either state |
| Ef80Escape.DecodeNoLeadPrefix | src/lib.rs:239-240 | a nonempty stretch without 0xEE is copied and resets `escaped` |
| Ef80Escape.DecodeUnreservedLead | src/lib.rs:216-240 | a 0xEE unit that is not reserved is copied byte by byte and resets `escaped` |
| Ef80Escape.DecodeBand | src/lib.rs:228-231 | an unescaped band unit decodes to the byte it carries |
| Ef80Escape.DecodeMarkerThenReserved | src/lib.rs:220-227 | U+EF00 followed by a reserved unit, including a second U+EF00, yields that unit's three bytes |
| Ef80Escape.DecodeDanglingMarker | src/lib.rs:216-241 | U+EF00 followed by anything else, or by nothing, contributes nothing and resets `escaped` |
| Ef80Escape.DecodeEscapedChar | src/lib.rs:216-241 | decoding one escaped character gives the character back |
| Ef80Escape.DecodeEscaped | src/lib.rs:216-241 | decoding an escaped well-formed run gives the run back and leaves the state unescaped |
| Ef80Escape.DecodeInvalidRun | src/lib.rs:134-139 | one failing step of the forward loop, an escaped run and then a band unit, decodes to the run followed by the byte |
| Ef80Escape.RoundTrip | src/lib.rs:255-258 | `Decode(Encode(d)) == d` for every byte sequence, the empty one included |
| Ef80Escape.EncodeInjective | src/lib.rs:255-258 | distinct inputs have distinct encodings |
| Transcode.ExtendEscapedUtf8 | src/lib.rs:109-122 | the buffer becomes the old buffer followed by the escaped run |
| Transcode.BytesToStr | src/lib.rs:104-151 | the result is `Encode(data)` and well-formed. It is Borrowed exactly when the input is nonempty, well-formed and free of 0xEE, and then it is the input |
| Transcode.StrToBytes | src/lib.rs:208-243 | the result is `Decode(data)`. It is Borrowed exactly when the input has no 0xEE, and then it is the input |
| Transcode.CheckRoundTrip | src/lib.rs:255-258 | converting any bytes to text and back through both loops gives the bytes |
| Examples.EncodePlainText | src/lib.rs:61-63 | "abc", "汉字" and "🤦🏼‍♂️" are returned as they are |
| Examples.EncodeInvalidByte | src/lib.rs:70 | the byte 0xFF becomes U+EFFF |
| Examples.EncodeEscapesReserved | src/lib.rs:78-79 | U+EFFF becomes U+EF00 U+EFFF and U+EF00 becomes U+EF00 U+EF00 |
| Examples.DecodePlainText | src/lib.rs:161-163 | "abc", "汉字" and "🤦🏼‍♂️" decode to themselves |
| Examples.DecodeBandExample | src/lib.rs:171 | U+EF80 U+EFFF decodes to the bytes 0x80 0xFF |
| Examples.DecodeEscapeExamples | src/lib.rs:178-179 | U+EF00 U+EFFF decodes to U+EFFF and U+EF00 U+EF00 to U+EF00 |
| Examples.DecodeDanglingExamples | src/lib.rs:187-188 | U+EF00 "abc" decodes to "abc" and U+EF00 "abc" U+EFFF to "abc" 0xFF |
| Examples.ZeroCopy | src/lib.rs:314-321 | "123 汉字 🤦🏼‍♂️" passes through both conversions Borrowed and unchanged |

## Left out

- `std::str::from_utf8` is a library call. It is replaced by the RFC 3629 grammar (`Utf8.WellFormed`) and the longest well-formed prefix (`Utf8.ValidUpTo`); the library's internals are not modelled.
- `Cow` borrowing and allocation are not observable. The model keeps only the Borrowed/Owned tag, and both variants carry the value.
- The `cfg!(debug_assertions)` check and the `unsafe` conversion (src/lib.rs:144-149) are replaced by the proof that the buffer is always well-formed. No runtime check is modelled.
- The `Vec::with_capacity` hint (src/lib.rs:213) is a performance detail only.
- The `&mut Vec<u8>` parameter of `extend_escaped_utf8` is modelled as a value passed in and returned. The buffer is never aliased in the crate.
- The manually advanced iterator of `str_to_bytes` is modelled as an index. The two extra `iter.next()` calls become an advance by three.
- The `&str` argument of `str_to_bytes` is guaranteed by Rust's types to be well-formed UTF-8. `Transcode.StrToBytes` states that guarantee as its precondition. The specification `Decode` is total and needs no such precondition.
- The exhaustive drivers `round_trip2` and `round_trip3`, and the literals of `round_trip1` (src/lib.rs:260-312), are loops over finite inputs. `Ef80Escape.RoundTrip` covers every input they try.
- The fuzz target only wires libFuzzer around the same round-trip assertion, so fuzz/fuzz_targets/a.rs is not part of this model.
