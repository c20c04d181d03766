/** The system transcoding service (POSIX `iconv`) as seen by the adapter
    converter: an oracle that the model takes as a parameter.

    A conversion handle carries a shift state. The model names that state by
    a natural number whose meaning is the service's own business; 0 is the
    initial state, the one a freshly opened handle is in and the one a reset
    (`iconv(d, 0, 0, 0, 0)`) returns to.
 */
module Iconv {
  import opened Types

  const InitialState: nat := 0

  /** How an `iconv` call ended: `Done` is a non-negative return value; the
      other three are a return of `(size_t)-1` with `errno` set to `EINVAL`
      (input ends inside a sequence), `EILSEQ` (invalid input) or `E2BIG`
      (no room left in the output buffer). */
  datatype Status = Done | NeedMore | InvalidInput | NoRoom

  /** What one `iconv` call did: how many input units it consumed, the output
      units it wrote, how it ended, and the handle's state afterwards. */
  datatype Conversion<T> = Conversion(consumed: nat, out: seq<T>, status: Status, state: nat)

  /** The service, for any encoding name:
      - `canDecode(e)`: `iconv_open(UTF-32, e)` succeeds;
      - `canEncode(e)`: `iconv_open(e, UTF-32)` succeeds;
      - `decode(e, s, in, room)`: converting bytes `in` of encoding `e` into at
        most `room` UTF-32 codepoints on a handle in state `s`;
      - `encode(e, s, in, room)`: converting codepoints `in` into at most
        `room` bytes of encoding `e` on a handle in state `s`.
      Whether a direction opens depends on the name alone: a direction that
      opened once opens again. */
  datatype Service = Service(
    canDecode: string -> bool,
    canEncode: string -> bool,
    decode: (string, nat, seq<byte>, nat) -> Conversion<uint32>,
    encode: (string, nat, seq<uint32>, nat) -> Conversion<byte>)

  /** Cuts an oracle's answer down to what `iconv` can physically do: it never
      consumes more input than it is given nor writes past the room it has. */
  function Bounded<T>(c: Conversion<T>, inputLength: nat, room: nat): (r: Conversion<T>)
    ensures r.consumed <= inputLength && |r.out| <= room
    ensures c.consumed <= inputLength && |c.out| <= room ==> r == c
  {
    Conversion(Min(c.consumed, inputLength), c.out[..Min(|c.out|, room)], c.status, c.state)
  }

  /** One `iconv` call from encoding `e` to UTF-32 on a handle in state `s`. */
  function Decode(svc: Service, e: string, s: nat, input: seq<byte>, room: nat): (r: Conversion<uint32>)
    ensures r.consumed <= |input| && |r.out| <= room
  {
    Bounded(svc.decode(e, s, input, room), |input|, room)
  }

  /** One `iconv` call from UTF-32 to encoding `e` on a handle in state `s`. */
  function Encode(svc: Service, e: string, s: nat, input: seq<uint32>, room: nat): (r: Conversion<byte>)
    ensures r.consumed <= |input| && |r.out| <= room
  {
    Bounded(svc.encode(e, s, input, room), |input|, room)
  }

  /** Two answers that differ at most in the state they leave behind. */
  predicate SameAnswer<T(==)>(a: Conversion<T>, b: Conversion<T>) {
    a.consumed == b.consumed && a.out == b.out && a.status == b.status
  }

  /** On encoding `e`, a decoding call gives from state `s` the answer it
      gives from the initial state. */
  predicate DecodeIgnoresState(svc: Service, e: string, s: nat, input: seq<byte>, room: nat) {
    SameAnswer(Decode(svc, e, s, input, room), Decode(svc, e, InitialState, input, room))
  }

  /** On encoding `e`, an encoding call gives from state `s` the answer it
      gives from the initial state. */
  predicate EncodeIgnoresState(svc: Service, e: string, s: nat, input: seq<uint32>, room: nat) {
    SameAnswer(Encode(svc, e, s, input, room), Encode(svc, e, InitialState, input, room))
  }

  /** The service converts encoding `e` without shift state: every answer is
      the one a freshly reset handle would give. Multi-byte encodings the
      adapter is meant for (two-byte legacy code pages) are of this kind. */
  ghost predicate Stateless(svc: Service, e: string) {
    && (forall s: nat, input: seq<byte>, room: nat :: DecodeIgnoresState(svc, e, s, input, room))
    && (forall s: nat, input: seq<uint32>, room: nat :: EncodeIgnoresState(svc, e, s, input, room))
  }

  /** A lazily opened conversion handle: `Closed` is the `(iconv_t)(-1)` value. */
  datatype Handle = Closed | Open(state: nat)

  /** `open(d, to, from)`: does nothing to a handle that is already open;
      otherwise tries `iconv_open`, which leaves the handle closed when the
      service cannot open that direction. */
  function OpenHandle(h: Handle, openable: bool): (r: Handle)
    ensures h.Open? ==> r == h
    ensures h.Closed? && openable ==> r == Open(InitialState)
    ensures !openable ==> r == h
  {
    if h.Open? then h
    else if openable then Open(InitialState)
    else Closed
  }
}
