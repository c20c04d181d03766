# The iconv adapter converter of the POSIX backend, in Dafny

This project models the core of the POSIX backend's code conversion in
Boost.Locale, `src/posix/codecvt.cpp`:

- `mb2_iconv_converter`, a converter between a legacy encoding of at most two
  bytes per character and Unicode codepoints, built on the system
  transcoding service (`iconv`). Its constructor probes every possible lead
  byte and records in a 256-entry table whether the byte is a character by
  itself (and which codepoint), starts a two-byte sequence ("incomplete"),
  or is illegal. `to_unicode` answers from the table alone except for a lead
  byte marked incomplete, where it hands the two bytes to the service.
  `from_unicode` writes codepoint 0 as a single zero byte without the
  service, and otherwise encodes the codepoint with the service and copies
  the one or two resulting bytes only if they fit. `clone` shares the table
  and the encoding name, with fresh unopened handles; handles are opened
  lazily, an open that fails is tried again on the next call, and once
  open a handle stays open.
- `create_iconv_converter`, which turns a failing constructor into a null
  converter, and `create_codecvt`, the three-tier choice: the UTF-8 codec
  for names that normalize to "utf8", else the simple codec, and only when
  that rejects the name as an invalid charset, the adapter converter.

The transcoding service is a parameter, `Iconv.Service`: whether each
direction can be opened, and what one `iconv` call does given the handle's
shift state, the input and the room in the output buffer. The state is an
opaque natural number, so the model keeps the source's exact handle use:
the constructor's probes run on one handle that is reset only before the
second probe of a byte, and the decoding handle of a converter is never
reset. Buffers are `seq<byte>` with `begin` an index and `end` the length.
The converter's 32-bit answers with their two sentinel values are read as
the tagged `Types.Outcome` (`Value`, `Illegal`, `Incomplete`); the table
keeps the raw 32-bit entries, as the source does. The sentinel values
`0xFFFFFFFF` (illegal) and `0xFFFFFFFE` (incomplete) come from
`boost/locale/utf.hpp`, which is not part of this model.

Properties that need the service to behave coherently say so in their
hypotheses: `Iconv.Stateless` (no shift state), `Mb2Properties.OutputBelowLimit`
(every codepoint the service produces is below 0x110000, so never a
sentinel value), and
`Mb2Properties.DecodesBack` (what encoding one codepoint and decoding its
bytes must give for the round trip).

Three behaviours of the code are easy to misread; the model keeps each one
as written:

- When no tier can serve a name, `create_codecvt` does not raise an
  "unsupported encoding" error itself: it hands the null converter from
  `create_iconv_converter` to `create_codecvt_from_pointer`, whose body is
  not part of this model (`Codecvt.PointerCodecvt(None)`).
- An exception other than `invalid_charset_error` from the simple tier is
  not caught; it leaves `create_codecvt` (`Codecvt.Propagated`).
- The first probe of each byte in the constructor is not preceded by a
  reset of the handle; only the second probe is.

## Model

| member | source | states |
|---|---|---|
| Types.FromRaw | src/posix/codecvt.cpp:122-127 | a raw answer is a value exactly when it is neither sentinel, and is illegal exactly for the illegal sentinel |
| Iconv.OpenHandle | src/posix/codecvt.cpp:184-189 | opening an open handle changes nothing; a closed one opens in the initial state when the service can open it and stays closed otherwise |
| Mb2Converter.IsThreadSafe | src/posix/codecvt.cpp:106-109 | no converter instance reports itself thread safe: each owns handles whose shift state its calls change, and a thread works on its own clone |
| Mb2Converter.Classify | src/posix/codecvt.cpp:46-77 | a lead byte's entry is a non-sentinel value only when the `{c, 0}` probe gave one codepoint plus a zero, and then it is that codepoint with that probe's handle state; otherwise it is a sentinel, incomplete exactly when the reset probe of `c` alone asked for more input, with the reset probe's state |
| Mb2Converter.ProbeFrom | src/posix/codecvt.cpp:45-78 | probing bytes `c` to 255 yields exactly one entry per byte |
| Mb2Converter.ProbeFromEntry | src/posix/codecvt.cpp:45-78 | for any probe, in a run of probes starting at byte `k` on the state the earlier probes left, the entry for byte `c` is the probe of `c` on the state left by probing bytes 0 to `c - 1` |
| Mb2Converter.BuildTable | src/posix/codecvt.cpp:38-88 | the constructor's loop, probing bytes 0 to 255 in order on one handle, builds exactly the table whose entry `c` is the probe of byte `c` on the state left by the probes of bytes 0 to `c - 1` |
| Mb2Converter.NewConverter | src/posix/codecvt.cpp:33-88 | construction fails, with the "Unsupported encoding" message, exactly when the decoding direction cannot be opened; otherwise the converter holds the built table, the name and two closed handles |
| Mb2Converter.Clone | src/posix/codecvt.cpp:90-114 | a clone shares table and encoding name, starts with both handles closed, and stays a reachable converter |
| Mb2Converter.ToUnicode | src/posix/codecvt.cpp:116-148 | `begin` moves by 0, 1 or 2 and never past `end`; it answers incomplete without moving exactly for an empty range or a lead byte marked incomplete that is the last byte; an illegal lead byte gives illegal without moving; it moves by 1 exactly for a non-sentinel table entry and then answers that entry; only the decoding handle can change, only on the two-byte path, and an open handle stays open |
| Mb2Converter.FromUnicode | src/posix/codecvt.cpp:150-182 | a written length is 1 or 2, never more than `max_len` and never past `end`; bytes outside the written ones never change and the destination is unchanged on illegal or incomplete; only the encoding handle can change, and an open one stays open; codepoint 0 writes one zero byte without touching any handle, and is incomplete on an empty range |
| Mb2Properties.TableClassification | src/posix/codecvt.cpp:45-76 | entry `c` is the service's codepoint when the `{c, 0}` probe, on the handle as the probes of the bytes below `c` left it, is consumed into one codepoint plus a zero; otherwise incomplete exactly when the reset probe of `c` alone asks for more input, illegal exactly when it does not |
| Mb2Properties.StatelessTableClassification | src/posix/codecvt.cpp:45-76 | for a service without shift state the same holds with every probe on a fresh handle, so entry `c` depends on byte `c` alone |
| Mb2Properties.SingleByteDecode | src/posix/codecvt.cpp:118-130 | for a converter the constructor could have built and a service without shift state, on a one-byte buffer, when the service turns the byte into one codepoint, the decoder answers that value read as a raw answer and moves by 1 exactly when it is not a sentinel; for a byte that is not a character by itself it answers incomplete exactly when the service asks for more input and illegal otherwise, without moving |
| Mb2Properties.TwoByteStep | src/posix/codecvt.cpp:129-147 | on the two-byte path the service sees the two bytes plus a zero on the decoding handle; the decoder moves by 2 exactly when all three bytes became one codepoint plus a zero, else answers illegal without moving; an unopenable handle gives illegal |
| Mb2Properties.TwoByteDecode | src/posix/codecvt.cpp:132-147 | for a converter the constructor could have built, a service without shift state and a lead byte marked incomplete in the table, whatever the handle's history, a two-byte sequence the service turns into one codepoint decodes to that value read as a raw answer and moves by 2, even for a sentinel value; any other answer is illegal without moving |
| Mb2Properties.FailureDoesNotAdvance | src/posix/codecvt.cpp:118-147 | illegal and incomplete never move `begin` when every codepoint the service produces is below 0x110000 |
| Mb2Properties.DecodeWindow | src/posix/codecvt.cpp:118-136 | decoding depends only on the bytes at `begin` and `begin + 1` that lie before `end` |
| Mb2Properties.MaxLenIsTight | src/posix/codecvt.cpp:201-204 | `max_len`, 2, bounds both how far decoding moves `begin` and how many bytes encoding writes, and on the converter the constructor builds for a small two-byte code page a two-byte character is read by consuming 2 bytes and written as 2 bytes, so the bound is reached in both directions |
| Mb2Properties.EncodeDependsOnRoomOnly | src/posix/codecvt.cpp:171-181 | once a call wrote `n` bytes, any destination with room for `n` gets the same bytes and one with less room gets incomplete and no write, with the same handle state |
| Mb2Properties.EncodeVerdict | src/posix/codecvt.cpp:162-181 | a non-zero codepoint is illegal exactly when the handle cannot be opened or the service does not consume both input codepoints into at least two bytes; else the length is the output less the terminator, incomplete exactly when it exceeds the room, and otherwise the service's bytes are written at `begin` |
| Mb2Properties.NulNeedsNoService | src/posix/codecvt.cpp:152-160 | encoding codepoint 0 gives the same answer whatever the service is |
| Mb2Properties.TableHitNeedsNoService | src/posix/codecvt.cpp:118-131 | unless the lead byte is marked incomplete with a second byte present, decoding gives the same answer whatever the service is |
| Mb2Properties.CloneDecodesAlike | src/posix/codecvt.cpp:90-96 | for a service without shift state that can open the original's handles, a clone decodes every buffer as the original does |
| Mb2Properties.CloneEncodesAlike | src/posix/codecvt.cpp:90-96 | for a service without shift state that can open the original's handles, a clone encodes every codepoint into the same bytes as the original |
| Mb2Properties.EncodedBytes | src/posix/codecvt.cpp:171-181 | for a service without shift state, a successful encoding of a non-zero codepoint writes the bytes the service gives on a fresh handle, less the terminator |
| Mb2Properties.DecodeSingleAt | src/posix/codecvt.cpp:121-127 | a lead byte whose entry is a codepoint decodes to it, moving by 1 |
| Mb2Properties.DecodePairAt | src/posix/codecvt.cpp:129-147 | when the service can open the decoding direction and keeps no shift state, a lead byte marked incomplete and a second byte decode to the service's codepoint for the pair, when that codepoint is not a sentinel value, moving by 2 |
| Mb2Properties.RoundTripNonZero | src/posix/codecvt.cpp:162-181 | for a service without shift state that can open the converter's handles and satisfies `DecodesBack` for the codepoint, a non-zero codepoint written by the encoder is read back by the decoder, given the table entry of its first byte |
| Mb2Properties.RoundTrip | src/posix/codecvt.cpp:116-182 | whenever the encoder writes a codepoint below 0x110000, the decoder at the same place reads exactly it back and consumes exactly the bytes written, for a converter the constructor could have built and a service without shift state that satisfies `DecodesBack` for that codepoint |
| Codecvt.CreateIconvConverter | src/posix/codecvt.cpp:213-223 | the result is a converter exactly when the decoding direction can be opened, and then it is reachable, for that name, with closed handles; construction failures become the null result |
| Codecvt.CreateCodecvt | src/posix/codecvt.cpp:232-244 | UTF-8 exactly for names normalizing to "utf8"; otherwise the simple codec when it is built, the propagated exception when it fails otherwise, and the adapter exactly on `invalid_charset_error`, present exactly when the service can decode the name |
| Codecvt.ServiceOnlyAsLastResort | src/posix/codecvt.cpp:234-243 | unless the simple tier reports an invalid charset, the choice does not depend on the service and is never the adapter |

## Left out

- The `iconv_open`, `iconv` and `iconv_close` calls themselves, `errno` and the
  buffer-pointer mechanics of `call_iconv`: foreign library calls, replaced by
  the `Iconv.Service` oracle. `util/iconv.hpp` is not part of this model;
  `call_iconv` is taken to be a plain `iconv` call.
- A call on a handle that failed to open is modelled as the POSIX `EBADF`
  answer (nothing converted), which both operations read as illegal.
- `utf32_encoding`, the byte-order test choosing "UTF-32LE" or "UTF-32BE":
  platform byte order, with no behaviour to state; the oracle works on
  codepoints directly.
- The destructor and the exception path's `iconv_close`: resource release
  around a foreign handle. The constructor's own probing handle is not kept.
- Concurrency: threads sharing one instance are not modelled; the model
  shows only that a clone has its own handles.
- `iconv_open`'s success depends only on the encoding name and the
  direction: a direction that opened once opens again. The lazy opens in
  `to_unicode` and `from_unicode` failing after the constructor's open
  succeeded (descriptor or memory exhaustion) is not modelled; the
  properties that assume an openable handle (`Mb2Converter.Reachable`,
  `Mb2Converter.HandlesOpenable`) rely on this.
- `std::bad_alloc` from growing the table or allocating the converter: memory
  exhaustion is not modelled.
- The build without iconv, where `create_iconv_converter` always returns the
  null converter: build configuration.
- `create_utf8_codecvt`, `create_simple_codecvt`, `create_codecvt_from_pointer`
  and `normalize_encoding`: their bodies are not part of this model; they are
  the opaque tiers in `Codecvt.Tiers`, and the base locale and facet kind they
  pass through are left out.
- Mb2Properties.RoundTrip: holds only for a service without shift state that
  satisfies `DecodesBack`; the source relies on the system's `iconv` for this.
