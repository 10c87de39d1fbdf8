/** Many senders on one control connection, kept apart by the send lock. */
module Senders {
  import opened Bytes
  import opened Frame

  /** The holder of the lock, what it is sending and how much of its frame went out. */
  datatype Lock = Free | Held(sender: nat, payload: Bytes, written: nat)

  /** A send that returned: what of its frame went out, and whether it reported success. */
  datatype Sent = Sent(payload: Bytes, written: nat, ok: bool)

  datatype State = State(out: Bytes, lock: Lock, sent: seq<Sent>)

  datatype Action =
    | Acquire(sender: nat, payload: Bytes)
    | Write(n: nat)     // the connection takes the next n bytes of the holder's frame
    | Fail              // the connection reports an error; the sender gives up
    | Release

  const INIT := State([], Free, [])

  predicate Enabled(s: State, a: Action)
  {
    match a
    case Acquire(_, p) => s.lock.Free? && LegalPayload(p)
    case Write(n) =>
      s.lock.Held? && LegalPayload(s.lock.payload) && 0 < n && s.lock.written + n <= |FrameOf(s.lock.payload)|
    case Fail => s.lock.Held?
    case Release => s.lock.Held? && LegalPayload(s.lock.payload) && s.lock.written == |FrameOf(s.lock.payload)|
  }

  function Step(s: State, a: Action): State
    requires Enabled(s, a)
  {
    match a
    case Acquire(sender, p) => s.(lock := Held(sender, p, 0))
    case Write(n) =>
      var Held(sender, p, w) := s.lock;
      s.(out := s.out + FrameOf(p)[w..w + n], lock := Held(sender, p, w + n))
    case Fail => s.(lock := Free, sent := s.sent + [Sent(s.lock.payload, s.lock.written, false)])
    case Release => s.(lock := Free, sent := s.sent + [Sent(s.lock.payload, s.lock.written, true)])
  }

  predicate Legal(s: State, actions: seq<Action>)
    decreases |actions|
  {
    actions == [] || (Enabled(s, actions[0]) && Legal(Step(s, actions[0]), actions[1..]))
  }

  function Exec(s: State, actions: seq<Action>): State
    requires Legal(s, actions)
    decreases |actions|
  {
    if actions == [] then s else Exec(Step(s, actions[0]), actions[1..])
  }

  predicate Whole(s: Sent)
  {
    s.written == |s.payload| + 4
  }

  /** A send that put some of its frame on the wire, but not all. */
  predicate Torn(s: Sent)
  {
    s.written != 0 && !Whole(s)
  }

  /** The payloads whose frames went out, also those whose sender was told otherwise. */
  function Delivered(sent: seq<Sent>): seq<Bytes>
  {
    if sent == [] then []
    else
      var last := sent[|sent| - 1];
      Delivered(sent[..|sent| - 1]) + if Whole(last) then [last.payload] else []
  }

  function WireOf(s: Sent): Bytes
  {
    if LegalPayload(s.payload) && s.written <= |FrameOf(s.payload)| then FrameOf(s.payload)[..s.written] else []
  }

  /** What the senders put on the wire, one after the other. */
  function Wire(sent: seq<Sent>): Bytes
  {
    if sent == [] then [] else Wire(sent[..|sent| - 1]) + WireOf(sent[|sent| - 1])
  }

  predicate Sane(s: Sent)
  {
    LegalPayload(s.payload) && s.written <= |FrameOf(s.payload)| && (s.ok ==> Whole(s))
  }

  ghost predicate Inv(s: State)
  {
    && (forall x | x in s.sent :: Sane(x))
    && match s.lock
       case Free => s.out == Wire(s.sent)
       case Held(_, p, w) =>
         LegalPayload(p) && w <= |FrameOf(p)| && s.out == Wire(s.sent) + FrameOf(p)[..w]
  }

  lemma WriteInv(out: Bytes, wire: Bytes, frame: Bytes, w: nat, n: nat)
    requires w + n <= |frame| && out == wire + frame[..w]
    ensures out + frame[w..w + n] == wire + frame[..w + n]
  {
    assert frame[..w] + frame[w..w + n] == frame[..w + n];
  }

  lemma {:induction false} SentMore(sent: seq<Sent>, x: Sent)
    ensures Wire(sent + [x]) == Wire(sent) + WireOf(x)
    ensures Delivered(sent + [x]) == Delivered(sent) + if Whole(x) then [x.payload] else []
  {
    assert (sent + [x])[..|sent|] == sent;
  }

  lemma StepInv(s: State, a: Action)
    requires Inv(s) && Enabled(s, a)
    ensures Inv(Step(s, a))
  {
    match a
    case Acquire(_, p) => NothingWritten(s.out, FrameOf(p));
    case Write(n) => WriteKeeps(s, n);
    case _ => ReturnInv(s, a.Release?);
  }

  lemma NothingWritten(out: Bytes, frame: Bytes)
    ensures out == out + frame[..0]
  {
  }

  lemma {:induction false} WriteKeeps(s: State, n: nat)
    requires Inv(s) && Enabled(s, Write(n))
    ensures Inv(Step(s, Write(n)))
  {
    WriteInv(s.out, Wire(s.sent), FrameOf(s.lock.payload), s.lock.written, n);
  }

  lemma {:induction false} ReturnInv(s: State, ok: bool)
    requires Inv(s) && s.lock.Held? && (ok ==> s.lock.written == |FrameOf(s.lock.payload)|)
    ensures Inv(s.(lock := Free, sent := s.sent + [Sent(s.lock.payload, s.lock.written, ok)]))
  {
    SentMore(s.sent, Sent(s.lock.payload, s.lock.written, ok));
  }

  lemma {:induction false} ExecInv(s: State, actions: seq<Action>)
    requires Inv(s) && Legal(s, actions)
    ensures Inv(Exec(s, actions))
    decreases |actions|
  {
    if actions != [] {
      StepInv(s, actions[0]);
      ExecInv(Step(s, actions[0]), actions[1..]);
    }
  }

  // ---------------------------------------------------------------------
  // What the reader gets
  // ---------------------------------------------------------------------

  /** No send so far tore its frame. */
  predicate Intact(sent: seq<Sent>)
  {
    forall x | x in sent :: !Torn(x)
  }

  lemma {:induction false} UntornWire(ps: seq<Bytes>, x: Sent)
    requires Sane(x) && !Torn(x) && forall p | p in ps :: LegalPayload(p)
    ensures Frames(ps) + WireOf(x) == Frames(ps + if Whole(x) then [x.payload] else [])
  {
    if Whole(x) {
      FramesAppend(ps, x.payload);
      assert FrameOf(x.payload)[..x.written] == FrameOf(x.payload);
    } else {
      assert WireOf(x) == [] && ps + [] == ps;
    }
  }

  lemma {:induction false} IntactIsFrames(sent: seq<Sent>)
    requires Intact(sent) && forall x | x in sent :: Sane(x)
    ensures forall p | p in Delivered(sent) :: LegalPayload(p)
    ensures Wire(sent) == Frames(Delivered(sent))
  {
    if sent != [] {
      var front, last := sent[..|sent| - 1], sent[|sent| - 1];
      assert last in sent;
      IntactIsFrames(front);
      UntornWire(Delivered(front), last);
    }
  }

  /**
   In every interleaving of senders, while no send tears its frame, a reader gets
   exactly the payloads whose frames went out, in lock order, and never a part of one.
   */
  lemma {:induction false} ReaderSeesWholePayloads(actions: seq<Action>)
    requires Legal(INIT, actions) && Intact(Exec(INIT, actions).sent)
    ensures var s := Exec(INIT, actions);
      Payloads(s.out) == Delivered(s.sent)
        + if s.lock.Held? && s.lock.written == |s.lock.payload| + 4 then [s.lock.payload] else []
  {
    ExecInv(INIT, actions);
    var s := Exec(INIT, actions);
    IntactIsFrames(s.sent);
    var ps := Delivered(s.sent);
    if s.lock.Free? {
      assert s.out + [] == s.out;
      PayloadsOfFrames(ps, []);
    } else {
      var frame := FrameOf(s.lock.payload);
      if s.lock.written == |frame| {
        FramesAppend(ps, s.lock.payload);
        assert frame[..|frame|] == frame && s.out + [] == s.out;
        PayloadsOfFrames(ps + [s.lock.payload], []);
      } else {
        PrefixYieldsNothing(s.lock.payload, s.lock.written);
        PayloadsOfFrames(ps, frame[..s.lock.written]);
      }
    }
  }

  // ---------------------------------------------------------------------
  // After a send that reported failure
  // ---------------------------------------------------------------------

  /** The reader gets what was delivered and then q, and nothing is left over. */
  predicate InStep(sent: seq<Sent>, out: Bytes, q: Bytes)
    requires LegalPayload(q)
  {
    Payloads(out + FrameOf(q)) == Delivered(sent) + [q] && Left(out + FrameOf(q)) == []
  }

  lemma {:induction false} TornWireIsLonger(sent: seq<Sent>)
    requires forall x | x in sent :: Sane(x)
    ensures forall p | p in Delivered(sent) :: LegalPayload(p)
    ensures |Wire(sent)| >= |Frames(Delivered(sent))|
    ensures |Wire(sent)| == |Frames(Delivered(sent))| <==> Intact(sent)
  {
    if sent != [] {
      var front, last := sent[..|sent| - 1], sent[|sent| - 1];
      assert front + [last] == sent;
      assert last in sent && forall x :: x in sent <==> x in front || x == last;
      TornWireIsLonger(front);
      SentMore(front, last);
      WireLength(Delivered(front), last);
      assert Intact(sent) <==> Intact(front) && !Torn(last);
    }
  }

  lemma {:induction false} WireLength(ps: seq<Bytes>, x: Sent)
    requires Sane(x) && forall p | p in ps :: LegalPayload(p)
    ensures |WireOf(x)| == x.written
    ensures |Frames(ps + if Whole(x) then [x.payload] else [])| == |Frames(ps)| + if Whole(x) then x.written else 0
  {
    if Whole(x) {
      FramesAppend(ps, x.payload);
    } else {
      assert ps + [] == ps;
    }
  }

  /**
   In every run, failed sends included, the reader is in step with whoever sends
   next, whatever it sends, exactly when no send tore its frame.
   */
  lemma {:induction false} InStepExactly(actions: seq<Action>, q: Bytes)
    requires Legal(INIT, actions) && Exec(INIT, actions).lock.Free? && LegalPayload(q)
    ensures var s := Exec(INIT, actions);
      InStep(s.sent, s.out, q) <==> Intact(s.sent)
  {
    ExecInv(INIT, actions);
    var s := Exec(INIT, actions);
    TornWireIsLonger(s.sent);
    FramesAppend(Delivered(s.sent), q);
    ReadsExactly(s.out + FrameOf(q), Delivered(s.sent) + [q]);
    if Intact(s.sent) {
      IntactIsFrames(s.sent);
    }
  }

  /** So after a send that reported failure: in step as before exactly when none of its frame went out, or all of it. */
  lemma {:induction false} InStepAfterFailureExactly(actions: seq<Action>, q: Bytes)
    requires Legal(INIT, actions) && Enabled(Exec(INIT, actions), Fail) && LegalPayload(q)
    ensures Legal(INIT, actions + [Fail])
    ensures var s, after := Exec(INIT, actions), Exec(INIT, actions + [Fail]);
      InStep(after.sent, after.out, q)
      <==> Intact(s.sent) && (s.lock.written == 0 || s.lock.written == |s.lock.payload| + 4)
  {
    ExecOneMore(INIT, actions, Fail);
    InStepExactly(actions + [Fail], q);
    var s := Exec(INIT, actions);
    var x := Sent(s.lock.payload, s.lock.written, false);
    assert x in s.sent + [x] && forall y :: y in s.sent + [x] <==> y in s.sent || y == x;
  }

  lemma {:induction false} ExecOneMore(s: State, actions: seq<Action>, a: Action)
    requires Legal(s, actions) && Enabled(Exec(s, actions), a)
    ensures Legal(s, actions + [a]) && Exec(s, actions + [a]) == Step(Exec(s, actions), a)
    decreases |actions|
  {
    if actions == [] {
      assert actions + [a] == [a] && [a][1..] == [];
    } else {
      assert (actions + [a])[0] == actions[0] && (actions + [a])[1..] == actions[1..] + [a];
      ExecOneMore(Step(s, actions[0]), actions[1..], a);
    }
  }

  /** The size a reader sees when the header itself was torn. */
  lemma TornHeader(p: Bytes, q: Bytes, k: nat)
    requires LegalPayload(p) && LegalPayload(q) && 0 < k < 4
    ensures var s := FrameOf(p)[..k] + FrameOf(q);
      SizeIn(s[..4]) == match k
        case 1 => |q| / 0x100
        case 2 => |p| / 0x1_0000 * 0x1_0000 + |q| / 0x1_0000
        case _ => |p| / 0x100 * 0x100
  {
    var h, g := Header(|p|), Header(|q|);
    assert (FrameOf(p)[..k] + FrameOf(q))[..4] == h[..k] + g[..4 - k];
    HeaderDigits(|p|);
    HeaderDigits(|q|);
  }

  lemma HeaderDigits(n: nat)
    requires n <= MAX_FRAME_SIZE
    ensures var h := Header(n);
      h[0] == 0 && h[1] == n / 0x1_0000 && 256 * (h[1] as int) + h[2] == n / 0x100
  {
  }

  /**
   A send torn inside its payload: the next frame is read as the missing rest, or,
   when it is too short for that, not at all.
   */
  lemma TornPayloadSwallows(p: Bytes, q: Bytes, k: nat)
    requires LegalPayload(p) && LegalPayload(q) && 4 <= k < |FrameOf(p)|
    ensures var missing := |FrameOf(p)| - k;
      FirstFrame(FrameOf(p)[..k] + FrameOf(q))
      == if missing <= |FrameOf(q)| then
           Outcome(Ok(p[..k - 4] + FrameOf(q)[..missing]), FrameOf(q)[missing..])
         else Outcome(Err(Stream(UnexpectedEof)), [])
  {
    var missing := |FrameOf(p)| - k;
    var s := FrameOf(p)[..k] + FrameOf(q);
    assert FrameOf(p)[..k] == Header(|p|) + p[..k - 4];
    if missing <= |FrameOf(q)| {
      var read := p[..k - 4] + FrameOf(q)[..missing];
      assert |read| == |p|;
      assert s == FrameOf(read) + FrameOf(q)[missing..];
      FirstFrameExactly(s, read, FrameOf(q)[missing..]);
    } else {
      assert s[..4] == Header(|p|);
      HeaderRoundTrip(|p|);
    }
  }
}
