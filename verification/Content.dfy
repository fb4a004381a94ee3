/** The body of an update, read frame by frame while its MAC is computed. */
module Content {
  import opened Prelude

  /** A keyed MAC that is fed byte by byte: `init` holds the key, `finish` gives the code. */
  datatype Mac<!S(!new)> = Mac(init: S, absorb: (S, Byte) -> S, finish: S -> seq<Byte>)

  function Absorb<S(!new)>(mac: Mac<S>, state: S, bytes: seq<Byte>): S {
    if bytes == [] then state else Absorb(mac, mac.absorb(state, bytes[0]), bytes[1..])
  }

  /** The code of a whole message. */
  function Code<S(!new)>(mac: Mac<S>, message: seq<Byte>): seq<Byte> {
    mac.finish(Absorb(mac, mac.init, message))
  }

  lemma {:induction false} AbsorbSplit<S(!new)>(mac: Mac<S>, state: S, a: seq<Byte>, b: seq<Byte>)
    ensures Absorb(mac, Absorb(mac, state, a), b) == Absorb(mac, state, a + b)
  {
    if a == [] {
      assert a + b == b;
    } else {
      assert (a + b)[1..] == a[1..] + b;
      AbsorbSplit(mac, mac.absorb(state, a[0]), a[1..], b);
    }
  }

  /** `h` gives the state after a message: the key's for none, one byte more absorbed for each. */
  ghost predicate Digests<S(!new)>(mac: Mac<S>, h: seq<Byte> -> S) {
    && h([]) == mac.init
    && forall m: seq<Byte>, b: Byte :: h(m + [b]) == mac.absorb(h(m), b)
  }

  lemma {:induction false} AbsorbIsFold<S(!new)>(mac: Mac<S>, h: seq<Byte> -> S, m: seq<Byte>, rest: seq<Byte>)
    requires Digests(mac, h)
    ensures Absorb(mac, h(m), rest) == h(m + rest)
    decreases |rest|
  {
    if rest == [] {
      assert m + rest == m;
    } else {
      assert m + rest == m + [rest[0]] + rest[1..];
      AbsorbIsFold(mac, h, m + [rest[0]], rest[1..]);
    }
  }

  /** The code of a message depends on every byte of it, in order, and on nothing else. */
  lemma {:induction false} CodeIsOfWholeMessage<S(!new)>(mac: Mac<S>, h: seq<Byte> -> S, message: seq<Byte>)
    requires Digests(mac, h)
    ensures Code(mac, message) == mac.finish(h(message))
  {
    AbsorbIsFold(mac, h, [], message);
    assert [] + message == message;
  }

  /** A MAC that records what it is fed. */
  function Recorder(): Mac<seq<Byte>> {
    Mac([], (s: seq<Byte>, b: Byte) => s + [b], (s: seq<Byte>) => s)
  }

  lemma {:induction false} RecorderRecords(message: seq<Byte>)
    ensures Code(Recorder(), message) == message
  {
    CodeIsOfWholeMessage(Recorder(), (m: seq<Byte>) => m, message);
  }

  /** A `bytes::Buf`: what remains of a frame, as the contiguous chunks it is held in. */
  datatype Buf = Buf(chunks: seq<seq<Byte>>) {
    predicate Valid() {
      forall i :: 0 <= i < |chunks| ==> chunks[i] != []
    }

    function Bytes(): seq<Byte> {
      Concat(chunks)
    }

    function Chunk(): (chunk: seq<Byte>)
      requires Valid()
      ensures chunk <= Bytes() && (chunk == [] <==> Bytes() == [])
    {
      if chunks == [] then [] else chunks[0]
    }

    function Remaining(): nat {
      |Bytes()|
    }

    function Advance(n: nat): (rest: Buf)
      requires Valid() && n <= |Chunk()|
      ensures rest.Valid() && rest.Bytes() == Bytes()[n..]
    {
      if n == 0 then this
      else if n < |chunks[0]| then
        var rest := Buf([chunks[0][n..]] + chunks[1..]);
        assert rest.chunks[1..] == chunks[1..];
        rest
      else Buf(chunks[1..])
    }
  }

  function Concat(parts: seq<seq<Byte>>): seq<Byte> {
    if parts == [] then [] else parts[0] + Concat(parts[1..])
  }

  /** All parts, end to end. */
  lemma {:induction false} ConcatSplit(a: seq<seq<Byte>>, part: seq<Byte>, b: seq<seq<Byte>>)
    ensures Concat(a + [part] + b) == Concat(a) + part + Concat(b)
  {
    if a == [] {
      assert a + [part] + b == [part] + b;
    } else {
      assert (a + [part] + b)[1..] == a[1..] + [part] + b;
      ConcatSplit(a[1..], part, b);
    }
  }

  datatype BodyEvent = Pending | Data(frame: Buf) | Failed(error: string)

  datatype PollResult =
    | NotReady
    | Frame(frame: Buf)
    | BodyError(error: string)
    | SignatureMismatch
    | End

  class Verifier<S(!new)> {
    const mac: Mac<S>
    const signature: seq<Byte>
    var state: S
    /** What was fed since the last check. */
    ghost var fed: seq<Byte>

    ghost predicate Valid()
      reads this
    {
      state == Absorb(mac, mac.init, fed)
    }

    constructor (mac: Mac<S>, signature: seq<Byte>)
      ensures this.mac == mac && this.signature == signature && Valid() && fed == []
    {
      this.mac, this.signature, this.state, this.fed := mac, signature, mac.init, [];
    }

    method Update(bytes: seq<Byte>)
      requires Valid()
      modifies this`state, this`fed
      ensures Valid() && fed == old(fed) + bytes
    {
      AbsorbSplit(mac, mac.init, fed, bytes);
      state, fed := Absorb(mac, state, bytes), fed + bytes;
    }

    method VerifyReset() returns (ok: bool)
      requires Valid()
      modifies this`state, this`fed
      ensures ok <==> Code(mac, old(fed)) == signature
      ensures Valid() && fed == []
    {
      var code := mac.finish(state);
      state, fed := mac.init, [];
      ok := code == signature;
    }
  }

  class Content<S(!new)> {
    /** What the underlying body will answer to each poll; then it has ended. */
    var body: seq<BodyEvent>
    const verifier: Verifier<S>

    ghost predicate Valid()
      reads this, verifier
    {
      FramesValid(body) && verifier.Valid()
    }

    ghost function View(): Reader
      reads this, verifier
    {
      Reader(verifier.fed, body)
    }

    constructor (body: seq<BodyEvent>, mac: Mac<S>, signature: seq<Byte>)
      requires FramesValid(body)
      ensures Valid() && View() == Reader([], body) && fresh(verifier)
      ensures verifier.mac == mac && verifier.signature == signature
    {
      this.body := body;
      this.verifier := new Verifier(mac, signature);
    }

    /** Feeds a frame to the verifier, chunk by chunk when it is not contiguous. */
    method Feed(frame: Buf)
      requires frame.Valid() && verifier.Valid()
      modifies verifier`state, verifier`fed
      ensures verifier.Valid() && verifier.fed == old(verifier.fed) + frame.Bytes()
    {
      var chunk := frame.Chunk();
      if |chunk| == frame.Remaining() {
        assert chunk == frame.Bytes();
        verifier.Update(chunk);
      } else {
        var buf := frame;
        while true
          invariant buf.Valid() && chunk == buf.Chunk() && chunk != []
          invariant verifier.Valid() && verifier.fed + buf.Bytes() == old(verifier.fed) + frame.Bytes()
          decreases buf.Remaining()
        {
          verifier.Update(chunk);
          buf := buf.Advance(|chunk|);
          if buf.Remaining() == 0 {
            break;
          }
          chunk := buf.Chunk();
        }
      }
    }

    /** Yields a frame as it came, whatever chunks it is in; at the end compares the MAC. */
    method PollData() returns (r: PollResult)
      requires Valid()
      modifies this`body, verifier`state, verifier`fed
      ensures Valid() && (View(), r) == Polled(verifier.mac, verifier.signature, old(View()))
    {
      if body == [] {
        var ok := verifier.VerifyReset();
        return if ok then End else SignatureMismatch;
      }
      var event := body[0];
      body := body[1..];
      match event {
        case Pending => return NotReady;
        case Failed(error) => return BodyError(error);
        case Data(frame) =>
          Feed(frame);
          return Frame(frame);
      }
    }
  }

  predicate FramesValid(body: seq<BodyEvent>) {
    forall i :: 0 <= i < |body| && body[i].Data? ==> body[i].frame.Valid()
  }

  /** A body under way as a value: the bytes fed so far, and what is still to come. */
  datatype Reader = Reader(fed: seq<Byte>, body: seq<BodyEvent>)

  /** One poll as a value: the whole frame is fed at once. */
  function Polled<S(!new)>(mac: Mac<S>, signature: seq<Byte>, r: Reader): (Reader, PollResult) {
    if r.body == [] then
      (Reader([], []), if Code(mac, r.fed) == signature then End else SignatureMismatch)
    else
      match r.body[0]
      case Pending => (r.(body := r.body[1..]), NotReady)
      case Failed(error) => (r.(body := r.body[1..]), BodyError(error))
      case Data(frame) => (Reader(r.fed + frame.Bytes(), r.body[1..]), Frame(frame))
  }

  /** All polls of a body, to the one after its last event. */
  function PollAll<S(!new)>(mac: Mac<S>, signature: seq<Byte>, r: Reader): (Reader, seq<PollResult>)
    decreases |r.body|
  {
    var (r', result) := Polled(mac, signature, r);
    if r.body == [] then (r', [result]) else
      var (last, results) := PollAll(mac, signature, r');
      (last, [result] + results)
  }

  function Payload(body: seq<BodyEvent>): seq<Byte> {
    if body == [] then [] else (if body[0].Data? then body[0].frame.Bytes() else []) + Payload(body[1..])
  }

  /** Whatever comes before and after it, a frame contributes its bytes in its place and nothing else does. */
  lemma {:induction false} PayloadSplit(a: seq<BodyEvent>, event: BodyEvent, b: seq<BodyEvent>)
    ensures Payload([]) == []
    ensures Payload(a + [event] + b) == Payload(a) + (match event case Data(frame) => frame.Bytes() case _ => []) + Payload(b)
  {
    if a == [] {
      assert a + [event] + b == [event] + b;
    } else {
      assert (a + [event] + b)[1..] == a[1..] + [event] + b;
      PayloadSplit(a[1..], event, b);
    }
  }

  /** Each event of the body is passed on as it came. */
  predicate PassedOn(event: BodyEvent, result: PollResult) {
    && (event.Pending? <==> result == NotReady)
    && (event.Data? <==> result.Frame?) && (event.Data? ==> result.frame == event.frame)
    && (event.Failed? <==> result.BodyError?) && (event.Failed? ==> result.error == event.error)
  }

  lemma {:induction false} PollAllFrom<S(!new)>(mac: Mac<S>, signature: seq<Byte>, r: Reader)
    ensures var (r', results) := PollAll(mac, signature, r);
      && |results| == |r.body| + 1
      && (forall i :: 0 <= i < |r.body| ==> PassedOn(r.body[i], results[i]))
      && results[|r.body|] == (if Code(mac, r.fed + Payload(r.body)) == signature then End else SignatureMismatch)
      && r' == Reader([], [])
    decreases |r.body|
  {
    if r.body == [] {
      assert r.fed + Payload(r.body) == r.fed;
    } else {
      var (next, result) := Polled(mac, signature, r);
      PollAllFrom(mac, signature, next);
      assert next.fed + Payload(next.body) == r.fed + Payload(r.body);
    }
  }

  /**
   However a body is cut into frames and chunks, every frame is yielded unchanged and in order, and
   the body then ends cleanly if and only if the MAC of all its bytes is the signature.
   */
  lemma {:induction false} StreamingVerification<S(!new)>(mac: Mac<S>, signature: seq<Byte>, body: seq<BodyEvent>)
    ensures var (r', results) := PollAll(mac, signature, Reader([], body));
      && |results| == |body| + 1
      && (forall i :: 0 <= i < |body| ==> PassedOn(body[i], results[i]))
      && (results[|body|] == End <==> Code(mac, Payload(body)) == signature)
      && (results[|body|] == SignatureMismatch <==> Code(mac, Payload(body)) != signature)
      && r' == Reader([], [])
  {
    PollAllFrom(mac, signature, Reader([], body));
    assert [] + Payload(body) == Payload(body);
  }

  /** With a MAC that records, a body ends cleanly exactly if its bytes are the signature: each was fed once, in order. */
  lemma {:induction false} EveryByteIsVerified(signature: seq<Byte>, body: seq<BodyEvent>)
    ensures var (_, results) := PollAll(Recorder(), signature, Reader([], body));
      |results| == |body| + 1 && (results[|body|] == End <==> Payload(body) == signature)
  {
    StreamingVerification(Recorder(), signature, body);
    RecorderRecords(Payload(body));
  }

  /** Two bodies with the same bytes are accepted or rejected alike. */
  lemma {:induction false} ChunkingDoesNotMatter<S(!new)>(mac: Mac<S>, signature: seq<Byte>, a: seq<BodyEvent>, b: seq<BodyEvent>)
    requires Payload(a) == Payload(b)
    ensures PollAll(mac, signature, Reader([], a)).1[|PollAll(mac, signature, Reader([], a)).1| - 1]
         == PollAll(mac, signature, Reader([], b)).1[|PollAll(mac, signature, Reader([], b)).1| - 1]
  {
    StreamingVerification(mac, signature, a);
    StreamingVerification(mac, signature, b);
  }
}
