/** Length-prefixed control frames over a byte stream that moves in arbitrary pieces. */
module Frame {
  import opened Bytes

  const MAX_FRAME_SIZE: nat := 0x10_0000

  predicate LegalPayload(p: Bytes)
  {
    0 < |p| <= MAX_FRAME_SIZE
  }

  /** Four bytes, most significant first. */
  function Header(n: nat): (h: Bytes)
    requires n < 0x1_0000_0000
    ensures |h| == 4
  {
    [n / 256 / 256 / 256, n / 256 / 256 % 256, n / 256 % 256, n % 256]
  }

  function SizeIn(h: Bytes): nat
    requires |h| == 4
  {
    256 * (256 * (256 * (h[0] as int) + h[1]) + h[2]) + h[3]
  }

  lemma HeaderRoundTrip(n: nat)
    requires n < 0x1_0000_0000
    ensures SizeIn(Header(n)) == n
  {
  }

  lemma SizeRoundTrip(h: Bytes)
    requires |h| == 4
    ensures SizeIn(h) < 0x1_0000_0000 && Header(SizeIn(h)) == h
  {
    var top := 256 * (h[0] as int) + h[1];
    var upper := 256 * top + h[2];
    assert SizeIn(h) / 256 == upper && SizeIn(h) % 256 == h[3];
    assert upper / 256 == top && upper % 256 == h[2];
    assert top / 256 == h[0] && top % 256 == h[1];
  }

  /** The most significant byte comes first. */
  lemma HeaderExactly(n: nat)
    requires n < 0x1_0000_0000
    ensures var h := Header(n);
      0x100_0000 * (h[0] as int) + 0x1_0000 * (h[1] as int) + 0x100 * (h[2] as int) + h[3] == n
  {
  }

  function FrameOf(p: Bytes): Bytes
    requires LegalPayload(p)
  {
    Header(|p|) + p
  }

  // ---------------------------------------------------------------------
  // What a stream holds
  // ---------------------------------------------------------------------

  datatype IoError = Eof | UnexpectedEof | Fault

  datatype FrameError = Stream(error: IoError) | InvalidSize(size: nat)

  /** The outcome of reading one frame, and the bytes left. */
  datatype Outcome = Outcome(result: Result<Bytes, FrameError>, rest: Bytes)

  function Ended(available: nat): FrameError
  {
    Stream(if available == 0 then Eof else UnexpectedEof)
  }

  function FirstFrame(s: Bytes): Outcome
  {
    if |s| < 4 then Outcome(Err(Ended(|s|)), [])
    else
      var size := SizeIn(s[..4]);
      if size == 0 || size > MAX_FRAME_SIZE then Outcome(Err(InvalidSize(size)), s[4..])
      else if |s| - 4 < size then Outcome(Err(Ended(|s| - 4)), [])
      else Outcome(Ok(s[4..4 + size]), s[4 + size..])
  }

  /** A payload is read exactly when the stream starts with its frame, and then just the frame is consumed. */
  lemma FirstFrameExactly(s: Bytes, p: Bytes, rest: Bytes)
    ensures FirstFrame(s) == Outcome(Ok(p), rest) <==> LegalPayload(p) && s == FrameOf(p) + rest
  {
    if LegalPayload(p) && s == FrameOf(p) + rest {
      assert s[..4] == Header(|p|);
      HeaderRoundTrip(|p|);
    }
    if FirstFrame(s) == Outcome(Ok(p), rest) {
      SizeRoundTrip(s[..4]);
      assert s == s[..4] + s[4..4 + |p|] + s[4 + |p|..];
    }
  }

  /** A header of 0, or of more than a mebibyte, is refused, and nothing behind it is read. */
  lemma BadSizesExactly(n: nat, rest: Bytes)
    requires n < 0x1_0000_0000
    ensures FirstFrame(Header(n) + rest) == Outcome(Err(InvalidSize(n)), rest) <==> n == 0 || n > 0x10_0000
  {
    var s := Header(n) + rest;
    assert s[..4] == Header(n) && s[4..] == rest;
    HeaderRoundTrip(n);
  }

  /** A strict prefix of a frame only ever says that the stream ended. */
  lemma PrefixYieldsNothing(p: Bytes, k: nat)
    requires LegalPayload(p) && k < |FrameOf(p)|
    ensures FirstFrame(FrameOf(p)[..k]) == Outcome(Err(Ended(if k < 4 then k else k - 4)), [])
  {
    if k >= 4 {
      assert FrameOf(p)[..k][..4] == Header(|p|);
      HeaderRoundTrip(|p|);
    }
  }

  /** Every payload a reader gets out of a stream, one frame after another. */
  function Payloads(s: Bytes): seq<Bytes>
    decreases |s|
  {
    var first := FirstFrame(s);
    if first.result.Err? then [] else [first.result.value] + Payloads(first.rest)
  }

  function Frames(ps: seq<Bytes>): Bytes
    requires forall p | p in ps :: LegalPayload(p)
  {
    if ps == [] then [] else FrameOf(ps[0]) + Frames(ps[1..])
  }

  lemma {:induction false} FramesAppend(ps: seq<Bytes>, q: Bytes)
    requires LegalPayload(q) && forall p | p in ps :: LegalPayload(p)
    ensures Frames(ps + [q]) == Frames(ps) + FrameOf(q)
  {
    if ps == [] {
      assert Frames([q]) == FrameOf(q) + Frames([]) == FrameOf(q);
      assert ps + [q] == [q];
    } else {
      assert (ps + [q])[1..] == ps[1..] + [q];
      FramesAppend(ps[1..], q);
    }
  }

  /** Whole frames followed by something that is not one yield exactly their payloads. */
  lemma {:induction false} PayloadsOfFrames(ps: seq<Bytes>, tail: Bytes)
    requires forall p | p in ps :: LegalPayload(p)
    requires FirstFrame(tail).result.Err?
    ensures Payloads(Frames(ps) + tail) == ps
  {
    if ps == [] {
      assert [] + tail == tail;
    } else {
      var rest := Frames(ps[1..]) + tail;
      assert Frames(ps) + tail == FrameOf(ps[0]) + rest;
      FirstFrameExactly(Frames(ps) + tail, ps[0], rest);
      PayloadsOfFrames(ps[1..], tail);
    }
  }

  /** What a reader has not taken when no further frame is whole. */
  function Left(s: Bytes): Bytes
    decreases |s|
  {
    var first := FirstFrame(s);
    if first.result.Err? then s else Left(first.rest)
  }

  /** A reader gets certain payloads, and nothing is left over, exactly when the stream is their frames. */
  lemma {:induction false} ReadsExactly(s: Bytes, ps: seq<Bytes>)
    ensures Payloads(s) == ps && Left(s) == [] <==> (forall p | p in ps :: LegalPayload(p)) && s == Frames(ps)
    decreases |s|
  {
    var first := FirstFrame(s);
    if first.result.Err? {
      if ps != [] && (forall p | p in ps :: LegalPayload(p)) && s == Frames(ps) {
        FirstFrameExactly(s, ps[0], Frames(ps[1..]));
        assert false;
      }
    } else {
      var p, rest := first.result.value, first.rest;
      FirstFrameExactly(s, p, rest);
      if ps != [] {
        ReadsExactly(rest, ps[1..]);
        if (forall q | q in ps :: LegalPayload(q)) && s == Frames(ps) {
          FirstFrameExactly(s, ps[0], Frames(ps[1..]));
        }
        if Payloads(s) == ps && Left(s) == [] {
          assert ps == [p] + ps[1..];
        }
      }
    }
  }

  // ---------------------------------------------------------------------
  // The two ends of a stream
  // ---------------------------------------------------------------------

  /** A reader that hands out what arrived in pieces of any size; idle counts its empty reads. */
  class Source {
    const faulty: bool
    var rest: Bytes
    var idle: nat

    constructor (faulty: bool, rest: Bytes, idle: nat)
      ensures this.faulty == faulty && this.rest == rest
    {
      this.faulty, this.rest, this.idle := faulty, rest, idle;
    }

    method Read(max: nat) returns (chunk: Bytes, error: Option<IoError>)
      requires max > 0
      modifies this
      ensures |chunk| <= max && old(rest) == chunk + rest
      ensures error.None? ==> |chunk| > 0 || idle < old(idle)
      ensures error.None? ==> idle <= old(idle)
      ensures error.Some? ==> (error.value.Eof? && rest == []) || (faulty && error.value.Fault?)
    {
      var interrupted, slack: bool := *, *;
      if faulty && interrupted {
        return [], Some(Fault);
      }
      if idle > 0 && slack {
        idle := idle - 1;
        return [], None;
      }
      if rest == [] {
        return [], Some(Eof);
      }
      var n: nat :| 0 < n <= |rest| && n <= max;
      chunk, rest := rest[..n], rest[n..];
      var early: bool := *;
      error := if rest == [] && early then Some(Eof) else None;
    }
  }

  /** io.ReadFull: exactly n bytes, or why not. */
  method ReadFull(source: Source, n: nat) returns (r: Result<Bytes, IoError>)
    requires n > 0
    modifies source
    ensures r.Ok? ==> |r.value| == n && old(source.rest) == r.value + source.rest
    ensures r.Err? && !source.faulty ==>
      && source.rest == [] && |old(source.rest)| < n
      && r.error == if old(source.rest) == [] then Eof else UnexpectedEof
    ensures r.Err? && source.faulty ==> exists m :: 0 <= m <= |old(source.rest)| && source.rest == old(source.rest)[m..]
  {
    var got: Bytes := [];
    while |got| < n
      invariant |got| <= n && old(source.rest) == got + source.rest
      decreases n - |got|, source.idle
    {
      var chunk, error := source.Read(n - |got|);
      got := got + chunk;
      if error.Some? && |got| < n {
        assert source.rest == old(source.rest)[|got|..];
        return Err(if error.value.Eof? && |got| > 0 then UnexpectedEof else error.value);
      }
    }
    r := Ok(got);
  }

  method ReadFrame(source: Source) returns (r: Result<Bytes, FrameError>)
    modifies source
    ensures r.Ok? ==> FirstFrame(old(source.rest)) == Outcome(r, source.rest)
    ensures !source.faulty ==> FirstFrame(old(source.rest)) == Outcome(r, source.rest)
  {
    ghost var s := source.rest;
    var header := ReadFull(source, 4);
    if header.Err? {
      return Err(Stream(header.error));
    }
    assert s[..4] == header.value && s[4..] == source.rest;
    var size := SizeIn(header.value);
    if size == 0 || size > MAX_FRAME_SIZE {
      return Err(InvalidSize(size));
    }
    var payload := ReadFull(source, size);
    if payload.Err? {
      return Err(Stream(payload.error));
    }
    assert s[4..] == payload.value + source.rest;
    assert s[4..4 + size] == s[4..][..size] == payload.value && s[4 + size..] == s[4..][size..] == source.rest;
    r := Ok(payload.value);
  }

  /** A writer that takes any part of what it is given. */
  class Sink {
    const faulty: bool
    var out: Bytes

    constructor (faulty: bool)
      ensures this.faulty == faulty && out == []
    {
      this.faulty, out := faulty, [];
    }

    method Write(data: Bytes) returns (n: nat, failed: bool)
      modifies this
      ensures n <= |data| && out == old(out) + data[..n]
      ensures !faulty ==> !failed && (data != [] ==> n > 0)
    {
      n :| n <= |data| && (data != [] ==> n > 0);
      failed := false;
      if faulty {
        n :| n <= |data|;
        failed := *;
      }
      out := out + data[..n];
    }
  }

  /** Keeps writing until everything went out, a write failed, or one made no progress. */
  method WriteAll(sink: Sink, data: Bytes) returns (ok: bool)
    modifies sink
    ensures ok ==> sink.out == old(sink.out) + data
    ensures !sink.faulty ==> ok
    ensures exists n :: 0 <= n <= |data| && sink.out == old(sink.out) + data[..n]
  {
    var left := data;
    ghost var written := 0;
    assert data[..0] == [];
    while |left| > 0
      invariant 0 <= written <= |data| && left == data[written..]
      invariant sink.out == old(sink.out) + data[..written]
      decreases |left|
    {
      var n, failed := sink.Write(left);
      assert data[..written] + left[..n] == data[..written + n];
      written := written + n;
      if failed || n == 0 {
        return false;
      }
      left := left[n..];
    }
    assert data[..written] == data;
    ok := true;
  }

  /** Whole frame, or a prefix of it when a write failed, or nothing for an illegal payload. */
  method WriteFrame(sink: Sink, payload: Bytes) returns (ok: bool)
    modifies sink
    ensures !LegalPayload(payload) ==> !ok && sink.out == old(sink.out)
    ensures LegalPayload(payload) ==>
      && (ok ==> sink.out == old(sink.out) + FrameOf(payload))
      && (!sink.faulty ==> ok)
      && (exists n :: 0 <= n <= |FrameOf(payload)| && sink.out == old(sink.out) + FrameOf(payload)[..n])
  {
    if |payload| == 0 || |payload| > MAX_FRAME_SIZE {
      return false;
    }
    ghost var before, frame := sink.out, FrameOf(payload);
    ok := WriteAll(sink, Header(|payload|));
    if !ok {
      ghost var n :| 0 <= n <= 4 && sink.out == before + Header(|payload|)[..n];
      assert frame[..n] == Header(|payload|)[..n];
      return;
    }
    ok := WriteAll(sink, payload);
    ghost var n :| 0 <= n <= |payload| && sink.out == before + Header(|payload|) + payload[..n];
    assert frame[..4 + n] == Header(|payload|) + payload[..n];
    assert before + Header(|payload|) + payload[..n] == before + frame[..4 + n];
    assert before + Header(|payload|) + payload == before + frame;
  }
}
