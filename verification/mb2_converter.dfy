/** The adapter converter `mb2_iconv_converter`: a converter between a legacy
    encoding of at most two bytes per character and Unicode codepoints, built
    on the transcoding service. A 256-entry first-byte table answers the
    single-byte case without calling the service; only a lead byte that
    starts a two-byte sequence sends the pair of bytes to the service.
 */
module Mb2Converter {
  import opened Types
  import opened Iconv

  /** The first-byte table: entry `c` is the raw answer for lead byte `c`. */
  type Table = t: seq<uint32> | |t| == 256 witness seq(256, _ => IllegalRaw)

  /** One converter instance. The table and the encoding name are shared by
      every clone; the two handles belong to this instance alone. */
  datatype Converter = Converter(table: Table, encoding: string, toUtf: Handle, fromUtf: Handle)

  /** The longest byte sequence this converter reads or writes (`max_len`). */
  function MaxLen(): nat { 2 }

  /** `is_thread_safe`: an instance owns handles whose shift state every call
      may change, so no instance may be shared between threads; each thread
      works on its own `Clone`. */
  function IsThreadSafe(cv: Converter): (safe: bool)
    ensures !safe
  {
    false
  }

  // ---------------------------------------------------------------------
  // Building the first-byte table

  /** The service turned the whole input into exactly one codepoint followed
      by the codepoint 0 of the terminating zero byte: both output slots are
      filled and the second holds 0. */
  predicate CompleteSingle(c: Conversion<uint32>, inputLength: nat) {
    c.consumed == inputLength && |c.out| == 2 && c.out[1] == 0
  }

  /** The table entry for one lead byte, and the handle state left behind. */
  datatype Probe = Probe(entry: uint32, state: nat)

  /** The verdict on one lead byte from the two probes the constructor runs
      on it: `first` converted `{c, 0}`, and `second` converted `c` alone on a
      reset handle. When the first probe yields one codepoint plus the
      terminator, that codepoint is the entry and the second probe is never
      consulted. Otherwise "needs more input" from the second probe marks `c`
      as the start of a longer sequence, and any other answer marks it
      illegal. */
  function Classify(first: Conversion<uint32>, second: Conversion<uint32>): (p: Probe)
    ensures !IsSentinel(p.entry) ==> CompleteSingle(first, 2) && p.entry == first.out[0]
    ensures CompleteSingle(first, 2) ==> p.entry == first.out[0] && p.state == first.state
    ensures !CompleteSingle(first, 2) ==>
              && IsSentinel(p.entry)
              && (p.entry == IncompleteRaw <==> second.status == NeedMore)
              && p.state == second.state
  {
    if CompleteSingle(first, 2) then
      Probe(first.out[0], first.state)
    else
      Probe(if second.status == NeedMore then IncompleteRaw else IllegalRaw, second.state)
  }

  /** Classifies lead byte `c` on a handle in state `s`. The second probe runs
      on a freshly reset handle, whatever state the first one left. */
  function ProbeByte(svc: Service, e: string, c: byte, s: nat): Probe
  {
    Classify(Decode(svc, e, s, [c, 0], 2), Decode(svc, e, InitialState, [c], 2))
  }

  /** The probe the constructor runs on each lead byte, for one service and
      encoding: a function of the byte and the handle's state. */
  function ProbeOf(svc: Service, e: string): (byte, nat) -> Probe {
    (c: byte, s: nat) => ProbeByte(svc, e, c, s)
  }

  /** Entries `c .. 255`, probing in increasing byte order on one handle that
      starts in state `s` and is never reset between bytes. */
  function ProbeFrom(probe: (byte, nat) -> Probe, c: nat, s: nat): (t: seq<uint32>)
    requires c <= 256
    ensures |t| == 256 - c
    decreases 256 - c
  {
    if c == 256 then []
    else
      var p := probe(c, s);
      [p.entry] + ProbeFrom(probe, c + 1, p.state)
  }

  /** The state of a handle that started in the initial state after `probe`
      ran on bytes `0 .. c - 1` in order. */
  function StateAfterRun(probe: (byte, nat) -> Probe, c: nat): nat
    requires c <= 256
  {
    if c == 0 then InitialState
    else probe(c - 1, StateAfterRun(probe, c - 1)).state
  }

  /** The state of the constructor's handle just before it probes byte `c`. */
  function StateBefore(svc: Service, e: string, c: nat): nat
    requires c <= 256
  {
    StateAfterRun(ProbeOf(svc, e), c)
  }

  /** The table the constructor builds, entry by entry: entry `c` is the
      probe of byte `c` on the handle as the probes of bytes `0 .. c - 1`
      left it. */
  function FirstByteTable(svc: Service, e: string): Table {
    seq(256, c requires 0 <= c < 256 => ProbeByte(svc, e, c, StateBefore(svc, e, c)).entry)
  }

  /** In a run of probes that starts at byte `k` in the state the probes of
      bytes `0 .. k - 1` left, the entry for byte `c` is the probe of `c` in
      the state the probes of bytes `0 .. c - 1` left. */
  lemma {:induction false} ProbeFromEntry(probe: (byte, nat) -> Probe, k: nat, c: byte)
    requires k <= c
    ensures ProbeFrom(probe, k, StateAfterRun(probe, k))[c - k]
            == probe(c, StateAfterRun(probe, c)).entry
    decreases c - k
  {
    if k < c {
      var p := probe(k, StateAfterRun(probe, k));
      assert StateAfterRun(probe, k + 1) == p.state;
      assert ProbeFrom(probe, k, StateAfterRun(probe, k)) == [p.entry] + ProbeFrom(probe, k + 1, p.state);
      ProbeFromEntry(probe, k + 1, c);
    }
  }

  /** The constructor's loop: probing bytes 0 to 255 in order on one freshly
      opened handle builds exactly the first-byte table. */
  function BuildTable(svc: Service, e: string): (t: Table)
    ensures t == FirstByteTable(svc, e)
  {
    var t := ProbeFrom(ProbeOf(svc, e), 0, InitialState);
    assert forall c: byte :: t[c] == FirstByteTable(svc, e)[c] by {
      forall c: byte ensures t[c] == FirstByteTable(svc, e)[c] {
        BuildTableEntry(svc, e, c);
      }
    }
    t
  }

  /** Entry `c` of the loop's table is entry `c` of the first-byte table. */
  lemma BuildTableEntry(svc: Service, e: string, c: byte)
    ensures ProbeFrom(ProbeOf(svc, e), 0, InitialState)[c] == FirstByteTable(svc, e)[c]
  {
    var probe := ProbeOf(svc, e);
    ProbeFromEntry(probe, 0, c);
    assert probe(c, StateAfterRun(probe, c)) == ProbeByte(svc, e, c, StateBefore(svc, e, c));
  }

  /** The constructor: fails, as the source's `runtime_error`, when the
      service cannot open the decoding direction; otherwise builds the table
      and starts with both handles unopened. */
  function NewConverter(svc: Service, e: string): (r: Result<Converter, string>)
    ensures r.Failure? <==> !svc.canDecode(e)
    ensures r.Failure? ==> r.error == "Unsupported encoding" + e
    ensures r.Success? ==> r.value == Converter(FirstByteTable(svc, e), e, Closed, Closed)
    ensures r.Success? ==> Reachable(svc, r.value)
  {
    if !svc.canDecode(e) then Failure("Unsupported encoding" + e)
    else Success(Converter(BuildTable(svc, e), e, Closed, Closed))
  }

  /** `clone`: shares the table and the encoding name; the copy starts with
      its own unopened handles. */
  function Clone(cv: Converter): (r: Converter)
    ensures r.table == cv.table && r.encoding == cv.encoding
    ensures r.toUtf == Closed && r.fromUtf == Closed
    ensures forall svc :: Reachable(svc, cv) ==> Reachable(svc, r)
  {
    Converter(cv.table, cv.encoding, Closed, Closed)
  }

  /** What holds of every converter the constructor and the operations
      below can produce: the table is the one built for its encoding, which
      the service can decode, and an open encoding handle was opened by the
      service. */
  predicate Reachable(svc: Service, cv: Converter) {
    && cv.table == FirstByteTable(svc, cv.encoding)
    && HandlesOpenable(svc, cv)
  }

  /** The service can open the decoding direction of the converter's
      encoding, and the encoding direction too if its handle is open. */
  predicate HandlesOpenable(svc: Service, cv: Converter) {
    && svc.canDecode(cv.encoding)
    && (cv.fromUtf.Open? ==> svc.canEncode(cv.encoding))
  }

  // ---------------------------------------------------------------------
  // Decoding

  /** The result of `to_unicode`: the answer, the new value of `begin`, and
      the converter with its decoding handle as the call left it. */
  datatype Decoding = Decoding(result: Outcome, next: nat, cv: Converter)

  /** `to_unicode(begin, end)` on the bytes `buf` with `end == |buf|`. */
  function ToUnicode(svc: Service, cv: Converter, buf: seq<byte>, begin: nat): (r: Decoding)
    requires begin <= |buf|
    ensures begin <= r.next <= |buf| && r.next <= begin + MaxLen()
    ensures r.cv.table == cv.table && r.cv.encoding == cv.encoding && r.cv.fromUtf == cv.fromUtf
    ensures cv.toUtf.Open? ==> r.cv.toUtf.Open?
    ensures begin == |buf| ==> r.result == Incomplete && r.next == begin && r.cv == cv
    ensures r.result == Incomplete && r.next == begin <==>
              begin == |buf| || (begin + 1 == |buf| && cv.table[buf[begin]] == IncompleteRaw)
    ensures begin < |buf| && cv.table[buf[begin]] == IllegalRaw ==>
              r.result == Illegal && r.next == begin && r.cv == cv
    ensures r.next == begin + 1 <==> begin < |buf| && !IsSentinel(cv.table[buf[begin]])
    ensures r.next == begin + 1 ==> r.result == Value(cv.table[buf[begin]]) && r.cv == cv
    ensures r.cv != cv ==> begin + 2 <= |buf| && cv.table[buf[begin]] == IncompleteRaw
    ensures r.result.Value? ==> r.next > begin && !IsSentinel(r.result.v)
    ensures HandlesOpenable(svc, cv) ==> HandlesOpenable(svc, r.cv)
  {
    if begin == |buf| then
      Decoding(Incomplete, begin, cv)
    else
      var lead := buf[begin];
      var index := cv.table[lead];
      if index == IllegalRaw then
        Decoding(Illegal, begin, cv)
      else if index != IncompleteRaw then
        Decoding(Value(index), begin + 1, cv)
      else if begin + 1 == |buf| then
        Decoding(Incomplete, begin, cv)
      else
        var h := OpenHandle(cv.toUtf, svc.canDecode(cv.encoding));
        match h
        case Closed =>
          // iconv on an invalid descriptor converts nothing
          Decoding(Illegal, begin, cv)
        case Open(s) =>
          var conv := Decode(svc, cv.encoding, s, [lead, buf[begin + 1], 0], 2);
          var cv' := cv.(toUtf := Open(conv.state));
          if CompleteSingle(conv, 3) then Decoding(FromRaw(conv.out[0]), begin + 2, cv')
          else Decoding(Illegal, begin, cv')
  }

  // ---------------------------------------------------------------------
  // Encoding

  /** The result of `from_unicode`: the answer, the destination buffer after
      the call, and the converter with its encoding handle as the call left it. */
  datatype Encoding = Encoding(result: Outcome, dst: seq<byte>, cv: Converter)

  /** `from_unicode(cp, begin, end)` writing into `dst[begin..]`, `end == |dst|`.
      The zero codepoint is written as one zero byte without the service; any
      other codepoint is converted together with a terminating 0, so a
      successful answer is the encoded codepoint plus one terminator byte in
      a three-byte output buffer. */
  function FromUnicode(svc: Service, cv: Converter, cp: uint32, dst: seq<byte>, begin: nat): (r: Encoding)
    requires begin <= |dst|
    ensures |r.dst| == |dst|
    ensures r.result.Value? ==> 1 <= r.result.v <= MaxLen() && begin + r.result.v <= |dst|
    ensures r.result.Value? ==> r.dst[..begin] == dst[..begin]
                                && r.dst[begin + r.result.v..] == dst[begin + r.result.v..]
    ensures !r.result.Value? ==> r.dst == dst
    ensures r.cv.table == cv.table && r.cv.encoding == cv.encoding && r.cv.toUtf == cv.toUtf
    ensures cv.fromUtf.Open? ==> r.cv.fromUtf.Open?
    ensures cp == 0 ==> r.cv == cv
    ensures cp == 0 && begin < |dst| ==> r.result == Value(1) && r.dst[begin] == 0
    ensures cp == 0 && begin == |dst| ==> r.result == Incomplete
    ensures begin == |dst| ==> !r.result.Value?
    ensures HandlesOpenable(svc, cv) ==> HandlesOpenable(svc, r.cv)
  {
    if cp == 0 then
      if begin != |dst| then Encoding(Value(1), dst[begin := 0], cv)
      else Encoding(Incomplete, dst, cv)
    else
      var h := OpenHandle(cv.fromUtf, svc.canEncode(cv.encoding));
      match h
      case Closed =>
        // iconv on an invalid descriptor converts nothing
        Encoding(Illegal, dst, cv)
      case Open(s) =>
        var conv := Encode(svc, cv.encoding, s, [cp, 0], 3);
        var cv' := cv.(fromUtf := Open(conv.state));
        if conv.consumed != 2 || |conv.out| < 2 then
          Encoding(Illegal, dst, cv')
        else
          var len := |conv.out| - 1;
          if |dst| - begin < len then Encoding(Incomplete, dst, cv')
          else Encoding(Value(len), dst[..begin] + conv.out[..len] + dst[begin + len..], cv')
  }
}
