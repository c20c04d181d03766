/** Properties of the adapter converter that relate several of its
    operations: what the first-byte table means, how decoding agrees with the
    table, how far decoding looks ahead, how encoding depends on the room in
    the destination, that clones behave like the original, and the round trip
    from a codepoint to bytes and back.

    Several of them hold only for a service that is coherent with itself
    (encoding then decoding gives the codepoint back) and keeps no shift
    state; those hypotheses are stated explicitly.
 */
module Mb2Properties {
  import opened Types
  import opened Iconv
  import opened Mb2Converter

  // ---------------------------------------------------------------------
  // The first-byte table

  /** Entry `c` of the table: the codepoint when the `{c, 0}` probe on the
      constructor's handle is consumed into one codepoint plus a zero;
      otherwise "incomplete" exactly when `c` alone, on a reset handle, makes
      the service ask for more input, and "illegal" in every other case. */
  lemma TableClassification(svc: Service, e: string, c: byte)
    ensures var t := FirstByteTable(svc, e);
            var first := Decode(svc, e, StateBefore(svc, e, c), [c, 0], 2);
            var second := Decode(svc, e, InitialState, [c], 2);
            && (CompleteSingle(first, 2) ==> t[c] == first.out[0])
            && (!CompleteSingle(first, 2) ==>
                  && (t[c] == IncompleteRaw <==> second.status == NeedMore)
                  && (t[c] == IllegalRaw <==> second.status != NeedMore))
  {
  }

  /** For a service without shift state the order of the probes does not
      matter: entry `c` depends on byte `c` alone. */
  lemma StatelessTableClassification(svc: Service, e: string, c: byte)
    requires Stateless(svc, e)
    ensures var t := FirstByteTable(svc, e);
            var first := Decode(svc, e, InitialState, [c, 0], 2);
            var second := Decode(svc, e, InitialState, [c], 2);
            && (CompleteSingle(first, 2) ==> t[c] == first.out[0])
            && (!CompleteSingle(first, 2) ==>
                  && (t[c] == IncompleteRaw <==> second.status == NeedMore)
                  && (t[c] == IllegalRaw <==> second.status != NeedMore))
  {
    TableClassification(svc, e, c);
    var s := StateBefore(svc, e, c);
    assert DecodeIgnoresState(svc, e, s, [c, 0], 2);
  }

  // ---------------------------------------------------------------------
  // Decoding against the table

  /** Decoding a one-byte buffer `[b]` agrees with the service's verdict on
      `b`: when the service converts `{b, 0}` into one codepoint plus a zero,
      the answer is that codepoint read as a raw value, with an advance of
      one exactly when it is not a sentinel; when `b` is not a character by
      itself, "incomplete" exactly when the service asks for more input after
      `b`, "illegal" otherwise, and no advance. */
  lemma SingleByteDecode(svc: Service, cv: Converter, b: byte)
    requires Reachable(svc, cv) && Stateless(svc, cv.encoding)
    ensures var r := ToUnicode(svc, cv, [b], 0);
            var first := Decode(svc, cv.encoding, InitialState, [b, 0], 2);
            var second := Decode(svc, cv.encoding, InitialState, [b], 2);
            && (CompleteSingle(first, 2) ==>
                  && r.result == FromRaw(first.out[0])
                  && (r.next == 1 <==> !IsSentinel(first.out[0])))
            && (!CompleteSingle(first, 2) ==>
                  && r.next == 0
                  && (r.result == Incomplete <==> second.status == NeedMore)
                  && (r.result == Illegal <==> second.status != NeedMore))
            && r.cv == cv
  {
    StatelessTableClassification(svc, cv.encoding, b);
  }

  /** On the two-byte path (a lead byte marked incomplete with a second byte
      present) the service sees exactly the two bytes plus a terminating zero
      on the decoding handle; the call advances by two and answers the
      service's codepoint exactly when the service consumed all three bytes
      into one codepoint plus a zero, and otherwise answers "illegal" without
      advancing. A handle that cannot be opened also gives "illegal". */
  lemma TwoByteStep(svc: Service, cv: Converter, buf: seq<byte>, begin: nat)
    requires begin + 2 <= |buf| && cv.table[buf[begin]] == IncompleteRaw
    ensures var r := ToUnicode(svc, cv, buf, begin);
            var h := OpenHandle(cv.toUtf, svc.canDecode(cv.encoding));
            && (h.Closed? ==> r.result == Illegal && r.next == begin && r.cv == cv)
            && (h.Open? ==>
                  var conv := Decode(svc, cv.encoding, h.state, buf[begin..begin + 2] + [0], 2);
                  && r.cv.toUtf == Open(conv.state)
                  && (r.next == begin + 2 <==> CompleteSingle(conv, 3))
                  && (CompleteSingle(conv, 3) ==> r.result == FromRaw(conv.out[0]))
                  && (!CompleteSingle(conv, 3) ==> r.result == Illegal && r.next == begin))
  {
    assert buf[begin..begin + 2] == [buf[begin], buf[begin + 1]];
    assert buf[begin..begin + 2] + [0] == [buf[begin], buf[begin + 1], 0];
  }

  /** A two-byte sequence decodes, for a service without shift state and
      whatever the decoding handle's history, to the service's answer for the
      pair read as a raw value, advancing by two even when that answer is a
      sentinel; any other answer of the service is "illegal" without an
      advance. */
  lemma TwoByteDecode(svc: Service, cv: Converter, b1: byte, b2: byte)
    requires Reachable(svc, cv) && Stateless(svc, cv.encoding)
    requires cv.table[b1] == IncompleteRaw
    ensures var r := ToUnicode(svc, cv, [b1, b2], 0);
            var conv := Decode(svc, cv.encoding, InitialState, [b1, b2, 0], 2);
            && (CompleteSingle(conv, 3) ==> r.result == FromRaw(conv.out[0]) && r.next == 2)
            && (!CompleteSingle(conv, 3) ==> r.result == Illegal && r.next == 0)
  {
    var h := OpenHandle(cv.toUtf, svc.canDecode(cv.encoding));
    assert h.Open?;
    assert DecodeIgnoresState(svc, cv.encoding, h.state, [b1, b2, 0], 2);
  }

  /** Every codepoint the service produces is below 0x110000, so it is never
      one of the two sentinel values. */
  ghost predicate OutputBelowLimit(svc: Service, e: string) {
    forall s: nat, input: seq<byte>, room: nat, i: nat ::
      i < |Decode(svc, e, s, input, room).out| ==> Decode(svc, e, s, input, room).out[i] < CodepointLimit
  }

  /** "Illegal" and "incomplete" leave `begin` where it was, as the converter
      interface demands, provided the service itself never produces a
      sentinel value (one produced on the two-byte path would be passed on
      after an advance of two). */
  lemma FailureDoesNotAdvance(svc: Service, cv: Converter, buf: seq<byte>, begin: nat)
    requires OutputBelowLimit(svc, cv.encoding) && begin <= |buf|
    ensures var r := ToUnicode(svc, cv, buf, begin);
            !r.result.Value? ==> r.next == begin
  {
  }

  /** Decoding reads at most the two bytes at `begin` and `begin + 1`, and
      never a byte at or past `end`: it answers the same on the window of
      those bytes alone. */
  lemma DecodeWindow(svc: Service, cv: Converter, buf: seq<byte>, begin: nat)
    requires begin <= |buf|
    ensures var w := buf[begin..Min(|buf|, begin + 2)];
            var a := ToUnicode(svc, cv, buf, begin);
            var b := ToUnicode(svc, cv, w, 0);
            a.result == b.result && a.next == begin + b.next && a.cv == b.cv
  {
  }

  // ---------------------------------------------------------------------
  // The length bound

  /** The first codepoint of the two-byte characters of `CodePage`, and how
      many second bytes (0x40 to 0xFF) each lead byte has. */
  const PairBase := 0x4E00
  const PairsPerLead := 0xC0

  /** Decoding in a small two-byte code page: a byte below 0x80 is a
      character by itself, 0x80 is illegal, and a byte from 0x81 on starts a
      two-byte character whose second byte is at least 0x40. Only what the
      adapter asks is answered: a byte with its terminator, a lead byte
      alone, a pair with its terminator. */
  function CodePageDecode(input: seq<byte>): Conversion<uint32> {
    if |input| == 2 && input[0] < 0x80 && input[1] == 0 then
      Conversion(2, [input[0], 0], Done, 0)
    else if |input| == 1 && input[0] > 0x80 then
      Conversion(0, [], NeedMore, 0)
    else if |input| == 3 && input[0] > 0x80 && input[1] >= 0x40 && input[2] == 0 then
      Conversion(3, [PairBase + (input[0] - 0x81) * PairsPerLead + (input[1] - 0x40), 0], Done, 0)
    else
      Conversion(0, [], InvalidInput, 0)
  }

  /** Encoding in the same code page: a codepoint and its terminator become
      the codepoint's bytes and a zero byte. */
  function CodePageEncode(input: seq<uint32>): Conversion<byte> {
    if |input| == 2 && input[1] == 0 && input[0] < 0x80 then
      Conversion(2, [input[0], 0], Done, 0)
    else if |input| == 2 && input[1] == 0 && PairBase <= input[0] < PairBase + 0x7F * PairsPerLead then
      var k := input[0] - PairBase;
      Conversion(2, [0x81 + k / PairsPerLead, 0x40 + k % PairsPerLead, 0], Done, 0)
    else
      Conversion(0, [], InvalidInput, 0)
  }

  /** The code page as a service without shift state that opens in both
      directions for every name. */
  function CodePage(): Service {
    Service(_ => true, _ => true,
            (e, s, input, room) => CodePageDecode(input),
            (e, s, input, room) => CodePageEncode(input))
  }

  /** The constructor marks lead byte 0x81 of the code page incomplete. */
  lemma CodePageLeadIncomplete()
    ensures FirstByteTable(CodePage(), "cp")[0x81] == IncompleteRaw
  {
    TableClassification(CodePage(), "cp", 0x81);
    assert CodePageDecode([0x81, 0]).status == InvalidInput;
    assert CodePageDecode([0x81]).status == NeedMore;
  }

  /** On a converter whose table marks 0x81 incomplete, the code page's first
      two-byte character is read by consuming two bytes and written as two. */
  lemma CodePagePairUsesTwoBytes(cv: Converter)
    requires cv.encoding == "cp" && cv.table[0x81] == IncompleteRaw
    requires cv.toUtf == Closed && cv.fromUtf == Closed
    ensures ToUnicode(CodePage(), cv, [0x81, 0x40], 0).next == 2
    ensures FromUnicode(CodePage(), cv, PairBase, [0, 0], 0).result == Value(2)
  {
    assert CodePageDecode([0x81, 0x40, 0]) == Conversion(3, [PairBase, 0], Done, 0);
    assert CodePageEncode([PairBase, 0]) == Conversion(2, [0x81, 0x40, 0], Done, 0);
  }

  /** `max_len` bounds both directions: decoding advances by at most
      `MaxLen()` bytes and encoding writes at most `MaxLen()` bytes. The
      bound is reached in both directions on a converter the constructor
      builds for a two-byte code page: its first character of two bytes is
      written as two bytes and read back by consuming two. */
  lemma MaxLenIsTight(svc: Service, cv: Converter, buf: seq<byte>, begin: nat,
                      cp: uint32, dst: seq<byte>, dstBegin: nat)
    requires begin <= |buf| && dstBegin <= |dst|
    ensures ToUnicode(svc, cv, buf, begin).next - begin <= MaxLen()
    ensures var w := FromUnicode(svc, cv, cp, dst, dstBegin);
            w.result.Value? ==> w.result.v <= MaxLen()
    ensures var built := NewConverter(CodePage(), "cp");
            && built.Success?
            && ToUnicode(CodePage(), built.value, [0x81, 0x40], 0).next == MaxLen()
            && FromUnicode(CodePage(), built.value, PairBase, [0, 0], 0).result == Value(MaxLen())
  {
    CodePageLeadIncomplete();
    CodePagePairUsesTwoBytes(NewConverter(CodePage(), "cp").value);
  }

  // ---------------------------------------------------------------------
  // Encoding against the room in the destination

  /** The bytes `from_unicode` produces do not depend on the destination:
      once a call wrote `n` bytes, the same call on any destination with at
      least `n` bytes of room writes the same `n` bytes, and on one with less
      room answers "incomplete" and writes nothing. Either way the handle
      ends in the same state. */
  lemma EncodeDependsOnRoomOnly(svc: Service, cv: Converter, cp: uint32,
                                dst: seq<byte>, begin: nat, dst2: seq<byte>, begin2: nat)
    requires begin <= |dst| && begin2 <= |dst2|
    requires FromUnicode(svc, cv, cp, dst, begin).result.Value?
    ensures var a := FromUnicode(svc, cv, cp, dst, begin);
            var n := a.result.v;
            var b := FromUnicode(svc, cv, cp, dst2, begin2);
            && b.cv == a.cv
            && (|dst2| - begin2 >= n ==>
                  b.result == a.result && b.dst[begin2..begin2 + n] == a.dst[begin..begin + n])
            && (|dst2| - begin2 < n ==> b.result == Incomplete && b.dst == dst2)
  {
  }

  /** What `from_unicode` answers for a non-zero codepoint: "illegal" when
      the encoding handle cannot be opened or the service does not consume
      both input codepoints into at least the encoded codepoint and its
      terminator; otherwise the encoded length is the service's output less
      the terminator, "incomplete" when it exceeds the room left, and else
      exactly the service's bytes land at `begin`. */
  lemma EncodeVerdict(svc: Service, cv: Converter, cp: uint32, dst: seq<byte>, begin: nat)
    requires begin <= |dst| && cp != 0
    ensures var r := FromUnicode(svc, cv, cp, dst, begin);
            var h := OpenHandle(cv.fromUtf, svc.canEncode(cv.encoding));
            && (h.Closed? ==> r.result == Illegal && r.cv == cv)
            && (h.Open? ==>
                  var conv := Encode(svc, cv.encoding, h.state, [cp, 0], 3);
                  var len := |conv.out| - 1;
                  && r.cv.fromUtf == Open(conv.state)
                  && (r.result == Illegal <==> conv.consumed != 2 || |conv.out| < 2)
                  && (conv.consumed == 2 && |conv.out| >= 2 ==>
                        && (r.result == Incomplete <==> |dst| - begin < len)
                        && (|dst| - begin >= len ==>
                              r.result == Value(len) && r.dst[begin..begin + len] == conv.out[..len])))
  {
  }

  /** The zero codepoint is written without the service: the answer is the
      same whatever the service is. */
  lemma NulNeedsNoService(svc1: Service, svc2: Service, cv: Converter, dst: seq<byte>, begin: nat)
    requires begin <= |dst|
    ensures FromUnicode(svc1, cv, 0, dst, begin) == FromUnicode(svc2, cv, 0, dst, begin)
  {
  }

  /** Decoding consults the service only for a lead byte marked incomplete
      with a second byte present; every other answer comes from the table
      alone and is the same whatever the service is. */
  lemma TableHitNeedsNoService(svc1: Service, svc2: Service, cv: Converter, buf: seq<byte>, begin: nat)
    requires begin <= |buf|
    requires !(begin + 2 <= |buf| && cv.table[buf[begin]] == IncompleteRaw)
    ensures ToUnicode(svc1, cv, buf, begin) == ToUnicode(svc2, cv, buf, begin)
  {
  }

  // ---------------------------------------------------------------------
  // Clones

  /** Clones share the table and never see the original's handles: for a
      service without shift state a clone decodes every buffer exactly as
      the instance it was cloned from. */
  lemma CloneDecodesAlike(svc: Service, cv: Converter, buf: seq<byte>, begin: nat)
    requires HandlesOpenable(svc, cv) && Stateless(svc, cv.encoding) && begin <= |buf|
    ensures var a := ToUnicode(svc, cv, buf, begin);
            var b := ToUnicode(svc, Clone(cv), buf, begin);
            a.result == b.result && a.next == b.next
  {
    if begin + 2 <= |buf| && cv.table[buf[begin]] == IncompleteRaw {
      var input := [buf[begin], buf[begin + 1], 0];
      var h := OpenHandle(cv.toUtf, svc.canDecode(cv.encoding));
      assert DecodeIgnoresState(svc, cv.encoding, h.state, input, 2);
    }
  }

  /** ... and encodes every codepoint into the same bytes, given that the
      service can open the encoding direction whenever the original did. */
  lemma CloneEncodesAlike(svc: Service, cv: Converter, cp: uint32, dst: seq<byte>, begin: nat)
    requires HandlesOpenable(svc, cv) && Stateless(svc, cv.encoding) && begin <= |dst|
    ensures var a := FromUnicode(svc, cv, cp, dst, begin);
            var b := FromUnicode(svc, Clone(cv), cp, dst, begin);
            a.result == b.result && a.dst == b.dst
  {
    if cp != 0 && svc.canEncode(cv.encoding) {
      var h := OpenHandle(cv.fromUtf, true);
      assert EncodeIgnoresState(svc, cv.encoding, h.state, [cp, 0], 3);
      var a := Encode(svc, cv.encoding, h.state, [cp, 0], 3);
      var b := Encode(svc, cv.encoding, InitialState, [cp, 0], 3);
      assert a.consumed == b.consumed && a.out == b.out;
    }
  }

  // ---------------------------------------------------------------------
  // Round trip

  /** The service turned the whole input into exactly the codepoint `cp`
      followed by a zero. */
  predicate Yields(c: Conversion<uint32>, inputLength: nat, cp: uint32) {
    CompleteSingle(c, inputLength) && c.out[0] == cp
  }

  /** What the service must do for `cp` to survive a round trip through the
      adapter: the zero byte decodes to codepoint 0; a codepoint encoded as
      one byte `b` decodes back from `{b, 0}`; a codepoint encoded as two
      bytes `b1 b2` has a lead byte that is not a character by itself and on
      its own makes the service ask for more input, and the pair decodes
      back. */
  predicate DecodesBack(svc: Service, e: string, cp: uint32) {
    if cp == 0 then
      Yields(Decode(svc, e, InitialState, [0, 0], 2), 2, 0)
    else
      var enc := Encode(svc, e, InitialState, [cp, 0], 3);
      enc.consumed == 2 && |enc.out| >= 2 ==>
        if |enc.out| == 2 then
          Yields(Decode(svc, e, InitialState, [enc.out[0], 0], 2), 2, cp)
        else
          && !CompleteSingle(Decode(svc, e, InitialState, [enc.out[0], 0], 2), 2)
          && Decode(svc, e, InitialState, [enc.out[0]], 2).status == NeedMore
          && Yields(Decode(svc, e, InitialState, [enc.out[0], enc.out[1], 0], 2), 3, cp)
  }

  /** What a successful `from_unicode` of a non-zero codepoint writes, for a
      service without shift state: the bytes the service encodes it into,
      less the terminator byte. */
  lemma EncodedBytes(svc: Service, cv: Converter, cp: uint32, dst: seq<byte>, begin: nat)
    requires Stateless(svc, cv.encoding) && begin <= |dst| && cp != 0
    requires FromUnicode(svc, cv, cp, dst, begin).result.Value?
    ensures var w := FromUnicode(svc, cv, cp, dst, begin);
            var enc := Encode(svc, cv.encoding, InitialState, [cp, 0], 3);
            && enc.consumed == 2 && |enc.out| >= 2
            && w.result.v == |enc.out| - 1
            && w.dst[begin] == enc.out[0]
            && (|enc.out| == 3 ==> w.dst[begin + 1] == enc.out[1])
  {
    var h := OpenHandle(cv.fromUtf, svc.canEncode(cv.encoding));
    assert EncodeIgnoresState(svc, cv.encoding, h.state, [cp, 0], 3);
  }

  /** A lead byte whose table entry is a codepoint decodes to it wherever it
      stands. */
  lemma DecodeSingleAt(svc: Service, cv: Converter, buf: seq<byte>, begin: nat, cp: uint32)
    requires begin < |buf| && cv.table[buf[begin]] == cp && !IsSentinel(cp)
    ensures var d := ToUnicode(svc, cv, buf, begin);
            d.result == Value(cp) && d.next == begin + 1
  {
  }

  /** A lead byte marked incomplete, followed by a byte, decodes to the
      codepoint the service gives for the pair, whatever the handle's state. */
  lemma DecodePairAt(svc: Service, cv: Converter, buf: seq<byte>, begin: nat, cp: uint32)
    requires svc.canDecode(cv.encoding) && Stateless(svc, cv.encoding)
    requires begin + 2 <= |buf| && cv.table[buf[begin]] == IncompleteRaw && !IsSentinel(cp)
    requires Yields(Decode(svc, cv.encoding, InitialState, [buf[begin], buf[begin + 1], 0], 2), 3, cp)
    ensures var d := ToUnicode(svc, cv, buf, begin);
            d.result == Value(cp) && d.next == begin + 2
  {
    TwoByteStep(svc, cv, buf, begin);
    var h := OpenHandle(cv.toUtf, svc.canDecode(cv.encoding));
    var input := [buf[begin], buf[begin + 1], 0];
    assert buf[begin..begin + 2] == [buf[begin], buf[begin + 1]];
    assert buf[begin..begin + 2] + [0] == input;
    assert DecodeIgnoresState(svc, cv.encoding, h.state, input, 2);
  }

  /** The round trip for a non-zero codepoint, once the table entry of the
      first byte written is known to be what the service's answers make it. */
  lemma RoundTripNonZero(svc: Service, cv: Converter, cp: uint32, dst: seq<byte>, begin: nat)
    requires HandlesOpenable(svc, cv) && Stateless(svc, cv.encoding)
    requires cp != 0 && cp < CodepointLimit && DecodesBack(svc, cv.encoding, cp)
    requires begin <= |dst|
    requires var enc := Encode(svc, cv.encoding, InitialState, [cp, 0], 3);
             enc.consumed == 2 && |enc.out| >= 2 ==>
               cv.table[enc.out[0]] == (if |enc.out| == 2 then cp else IncompleteRaw)
    ensures var w := FromUnicode(svc, cv, cp, dst, begin);
            w.result.Value? ==>
              var d := ToUnicode(svc, w.cv, w.dst, begin);
              d.result == Value(cp) && d.next == begin + w.result.v
  {
    var w := FromUnicode(svc, cv, cp, dst, begin);
    if w.result.Value? {
      EncodedBytes(svc, cv, cp, dst, begin);
      var enc := Encode(svc, cv.encoding, InitialState, [cp, 0], 3);
      if |enc.out| == 2 {
        DecodeSingleAt(svc, w.cv, w.dst, begin, cp);
      } else {
        DecodePairAt(svc, w.cv, w.dst, begin, cp);
      }
    }
  }

  /** Round trip: whenever `from_unicode` writes a codepoint `cp` below 0x110000
      into a buffer, `to_unicode` at the same place reads back exactly `cp`
      and consumes exactly the bytes that were written. */
  lemma RoundTrip(svc: Service, cv: Converter, cp: uint32, dst: seq<byte>, begin: nat)
    requires Reachable(svc, cv) && Stateless(svc, cv.encoding)
    requires cp < CodepointLimit && DecodesBack(svc, cv.encoding, cp)
    requires begin <= |dst|
    ensures var w := FromUnicode(svc, cv, cp, dst, begin);
            w.result.Value? ==>
              var d := ToUnicode(svc, w.cv, w.dst, begin);
              d.result == Value(cp) && d.next == begin + w.result.v
  {
    var e := cv.encoding;
    if cp == 0 {
      StatelessTableClassification(svc, e, 0);
      var w := FromUnicode(svc, cv, cp, dst, begin);
      if w.result.Value? {
        DecodeSingleAt(svc, w.cv, w.dst, begin, cp);
      }
    } else {
      var enc := Encode(svc, e, InitialState, [cp, 0], 3);
      if enc.consumed == 2 && |enc.out| >= 2 {
        StatelessTableClassification(svc, e, enc.out[0]);
      }
      RoundTripNonZero(svc, cv, cp, dst, begin);
    }
  }
}
