/**
 The download of one folder's new messages as a concurrent protocol: the
 spawning loop, at most `limit` workers, and the batch they share under a lock.

 Each action is one atomic step of one goroutine. A list of actions is an
 interleaving, so a fact about every legal list is a fact about every schedule.
 */
module Announce {
  import opened Bytes

  /** parses[i] says whether summary i becomes a message; batch and limit are the source's 15 and 8. */
  datatype Config = Config(parses: seq<bool>, batch: nat, limit: nat)

  ghost predicate Sensible(c: Config)
  {
    c.batch > 0 && c.limit > 0
  }

  const MESSAGE_ANNOUNCE_BATCH: nat := 15
  const FETCH_BODY_CONCURRENCY: nat := 8

  datatype Phase =
    | Queued
    | Fetching
    | Fetched
    | Flushing                    // saw a full batch, has not taken it yet
    | Carrying(load: seq<nat>)    // took the batch, has not sent it yet
    | Finished

  datatype Main = Spawning | LastCarrying(load: seq<nat>) | Returned

  datatype State = State(
    phases: seq<Phase>,
    next: nat,                // the summary the spawning loop reaches next
    pending: seq<nat>,
    sent: seq<seq<nat>>,
    advanced: nat,            // calls of progress.advance so far
    main: Main)

  datatype Action =
    | Spawn
    | Advance(i: nat)         // the body arrived and progress.advance was called
    | Append(i: nat)          // parse, append under the lock, decide full
    | Take(i: nat)            // flush: take the batch under the lock
    | Send(i: nat)            // flush: send what was taken
    | LastTake                // group.Wait returned; the final flush takes
    | LastSend

  function AllOf(n: nat, p: Phase): seq<Phase>
  {
    seq(n, _ => p)
  }

  function Init(c: Config): State
  {
    State(AllOf(|c.parses|, Queued), 0, [], [], 0, Spawning)
  }

  predicate Live(p: Phase)
  {
    p != Queued && p != Finished
  }

  predicate ToFlush(p: Phase)
  {
    p == Flushing
  }

  predicate HasAdvanced(p: Phase)
  {
    p != Queued && p != Fetching
  }

  function Count(ps: seq<Phase>, which: Phase -> bool): nat
  {
    if ps == [] then 0 else (if which(ps[0]) then 1 else 0) + Count(ps[1..], which)
  }

  function Copies(xs: seq<nat>, x: nat): nat
  {
    multiset(xs)[x]
  }

  function Load(p: Phase, x: nat): nat
  {
    if p.Carrying? then Copies(p.load, x) else 0
  }

  /** How many copies of x were taken from the shared batch and not sent yet. */
  function InFlight(ps: seq<Phase>, x: nat): nat
  {
    if ps == [] then 0 else Load(ps[0], x) + InFlight(ps[1..], x)
  }

  predicate At(s: State, i: nat, p: Phase)
  {
    i < |s.phases| && s.phases[i] == p
  }

  predicate Enabled(c: Config, s: State, a: Action)
  {
    match a
    case Spawn => s.main == Spawning && s.next < |s.phases| && Count(s.phases, Live) < c.limit
    case Advance(i) => At(s, i, Fetching)
    case Append(i) => i < |c.parses| && At(s, i, Fetched)
    case Take(i) => At(s, i, Flushing)
    case Send(i) => i < |s.phases| && s.phases[i].Carrying?
    case LastTake => s.main == Spawning && s.next == |s.phases| && Count(s.phases, Live) == 0
    case LastSend => s.main.LastCarrying?
  }

  function Emit(sent: seq<seq<nat>>, load: seq<nat>): seq<seq<nat>>
  {
    if load == [] then sent else sent + [load]
  }

  function Step(c: Config, s: State, a: Action): State
    requires Enabled(c, s, a)
  {
    match a
    case Spawn =>
      s.(phases := s.phases[s.next := Fetching], next := s.next + 1)
    case Advance(i) =>
      s.(phases := s.phases[i := Fetched], advanced := s.advanced + 1)
    case Append(i) =>
      if !c.parses[i] then s.(phases := s.phases[i := Finished])
      else
        var full := |s.pending| + 1 >= c.batch;
        s.(phases := s.phases[i := if full then Flushing else Finished], pending := s.pending + [i])
    case Take(i) =>
      s.(phases := s.phases[i := Carrying(s.pending)], pending := [])
    case Send(i) =>
      s.(phases := s.phases[i := Finished], sent := Emit(s.sent, s.phases[i].load))
    case LastTake =>
      s.(main := LastCarrying(s.pending), pending := [])
    case LastSend =>
      s.(main := Returned, sent := Emit(s.sent, s.main.load))
  }

  predicate Legal(c: Config, s: State, actions: seq<Action>)
    decreases |actions|
  {
    actions == [] || (Enabled(c, s, actions[0]) && Legal(c, Step(c, s, actions[0]), actions[1..]))
  }

  function Exec(c: Config, s: State, actions: seq<Action>): State
    requires Legal(c, s, actions)
    decreases |actions|
  {
    if actions == [] then s else Exec(c, Step(c, s, actions[0]), actions[1..])
  }

  // ---------------------------------------------------------------------
  // The invariant
  // ---------------------------------------------------------------------

  /** How many copies of x there are: waiting, taken, or sent. */
  function Everywhere(s: State, x: nat): nat
  {
    Copies(s.pending, x) + InFlight(s.phases, x) + Copies(Concat(s.sent), x)
    + (if s.main.LastCarrying? then Copies(s.main.load, x) else 0)
  }

  ghost predicate Appended(c: Config, s: State, i: nat)
    requires |s.phases| == |c.parses|
  {
    i < |c.parses| && c.parses[i] && s.phases[i] != Queued && s.phases[i] != Fetching && s.phases[i] != Fetched
  }

  /** Every load is at most the shared batch with every worker waiting to flush. */
  ghost predicate Bounded(c: Config, s: State)
  {
    && |s.pending| <= c.batch - 1 + Count(s.phases, ToFlush)
    && (forall i | 0 <= i < |s.phases| && s.phases[i].Carrying? :: |s.phases[i].load| <= c.batch - 1 + c.limit)
    && (s.main.LastCarrying? ==> |s.main.load| <= c.batch - 1)
    && (forall b | b in s.sent :: 0 < |b| <= c.batch - 1 + c.limit)
  }

  ghost predicate Shape(c: Config, s: State)
  {
    && Sensible(c)
    && |s.phases| == |c.parses|
    && s.next <= |s.phases|
    && (forall i | 0 <= i < |s.phases| :: s.phases[i] == Queued <==> s.next <= i)
    && Count(s.phases, Live) <= c.limit
    && s.advanced == Count(s.phases, HasAdvanced)
    && (s.main != Spawning ==> s.next == |s.phases| && Count(s.phases, Live) == 0 && s.pending == [])
  }

  /** Every appended message is somewhere, once, and nothing else is. */
  ghost predicate Once(c: Config, s: State)
    requires |s.phases| == |c.parses|
  {
    forall x: nat :: Everywhere(s, x) == if Appended(c, s, x) then 1 else 0
  }

  ghost predicate Inv(c: Config, s: State)
  {
    Shape(c, s) && Bounded(c, s) && Once(c, s)
  }

  lemma {:induction false} CountAfter(ps: seq<Phase>, which: Phase -> bool, i: nat, p: Phase)
    requires i < |ps|
    ensures Count(ps[i := p], which)
         == Count(ps, which) - (if which(ps[i]) then 1 else 0) + (if which(p) then 1 else 0)
  {
    if i == 0 {
      assert ps[i := p][1..] == ps[1..];
    } else {
      assert ps[i := p][1..] == ps[1..][i - 1 := p];
      CountAfter(ps[1..], which, i - 1, p);
    }
  }

  lemma {:induction false} InFlightAfter(ps: seq<Phase>, i: nat, p: Phase, x: nat)
    requires i < |ps|
    ensures InFlight(ps[i := p], x) == InFlight(ps, x) - Load(ps[i], x) + Load(p, x)
  {
    if i == 0 {
      assert ps[i := p][1..] == ps[1..];
    } else {
      assert ps[i := p][1..] == ps[1..][i - 1 := p];
      InFlightAfter(ps[1..], i - 1, p, x);
    }
  }

  lemma {:induction false} FlushingIsLive(ps: seq<Phase>)
    ensures Count(ps, ToFlush) <= Count(ps, Live)
  {
    if ps != [] {
      FlushingIsLive(ps[1..]);
    }
  }

  lemma {:induction false} NothingLive(ps: seq<Phase>)
    requires Count(ps, Live) == 0
    ensures forall i | 0 <= i < |ps| :: !Live(ps[i])
    ensures forall x: nat :: InFlight(ps, x) == 0
  {
    if ps != [] {
      NothingLive(ps[1..]);
    }
  }

  lemma {:induction false} AllQueued(n: nat)
    ensures var ps := AllOf(n, Queued);
      && Count(ps, Live) == Count(ps, ToFlush) == Count(ps, HasAdvanced) == 0
      && (forall x: nat :: InFlight(ps, x) == 0)
  {
    if n > 0 {
      AllQueued(n - 1);
      assert AllOf(n, Queued)[1..] == AllOf(n - 1, Queued);
    }
  }

  lemma InitInv(c: Config)
    requires Sensible(c)
    ensures Inv(c, Init(c))
  {
    AllQueued(|c.parses|);
  }

  /** What moving worker i to phase p does to every count. */
  lemma Moves(ps: seq<Phase>, i: nat, p: Phase)
    requires i < |ps|
    ensures var ps' := ps[i := p];
      && Count(ps', Live) == Count(ps, Live) - (if Live(ps[i]) then 1 else 0) + (if Live(p) then 1 else 0)
      && Count(ps', ToFlush) == Count(ps, ToFlush) - (if ToFlush(ps[i]) then 1 else 0) + (if ToFlush(p) then 1 else 0)
      && Count(ps', HasAdvanced)
         == Count(ps, HasAdvanced) - (if HasAdvanced(ps[i]) then 1 else 0) + (if HasAdvanced(p) then 1 else 0)
      && Count(ps', ToFlush) <= Count(ps', Live)
  {
    CountAfter(ps, Live, i, p);
    CountAfter(ps, ToFlush, i, p);
    CountAfter(ps, HasAdvanced, i, p);
    FlushingIsLive(ps[i := p]);
  }

  lemma SpawnKeeps(c: Config, s: State)
    requires Shape(c, s) && Enabled(c, s, Spawn)
    ensures Shape(c, Step(c, s, Spawn))
    ensures Bounded(c, s) ==> Bounded(c, Step(c, s, Spawn))
  {
    Moves(s.phases, s.next, Fetching);
  }

  lemma AdvanceKeeps(c: Config, s: State, i: nat)
    requires Shape(c, s) && Enabled(c, s, Advance(i))
    ensures Shape(c, Step(c, s, Advance(i)))
    ensures Bounded(c, s) ==> Bounded(c, Step(c, s, Advance(i)))
  {
    Moves(s.phases, i, Fetched);
    NothingMovesAfterJoin(s, i);
  }

  lemma AppendKeeps(c: Config, s: State, i: nat)
    requires Shape(c, s) && Enabled(c, s, Append(i))
    ensures Shape(c, Step(c, s, Append(i)))
    ensures Bounded(c, s) ==> Bounded(c, Step(c, s, Append(i)))
  {
    Moves(s.phases, i, Step(c, s, Append(i)).phases[i]);
    NothingMovesAfterJoin(s, i);
  }

  lemma TakeKeeps(c: Config, s: State, i: nat)
    requires Shape(c, s) && Enabled(c, s, Take(i))
    ensures Shape(c, Step(c, s, Take(i)))
    ensures Bounded(c, s) ==> Bounded(c, Step(c, s, Take(i)))
  {
    Moves(s.phases, i, Carrying(s.pending));
    FlushingIsLive(s.phases);
    NothingMovesAfterJoin(s, i);
  }

  lemma SendKeeps(c: Config, s: State, i: nat)
    requires Shape(c, s) && Enabled(c, s, Send(i))
    ensures Shape(c, Step(c, s, Send(i)))
    ensures Bounded(c, s) ==> Bounded(c, Step(c, s, Send(i)))
  {
    Moves(s.phases, i, Finished);
    NothingMovesAfterJoin(s, i);
  }

  /** group.Wait: once it returned, no worker is left to take a step. */
  lemma NothingMovesAfterJoin(s: State, i: nat)
    requires i < |s.phases| && Live(s.phases[i])
    ensures Count(s.phases, Live) > 0
  {
    if Count(s.phases, Live) == 0 {
      NothingLive(s.phases);
    }
  }

  lemma StepKeeps(c: Config, s: State, a: Action)
    requires Shape(c, s) && Enabled(c, s, a)
    ensures Shape(c, Step(c, s, a))
    ensures Bounded(c, s) ==> Bounded(c, Step(c, s, a))
  {
    match a
    case Spawn => SpawnKeeps(c, s);
    case Advance(i) => AdvanceKeeps(c, s, i);
    case Append(i) => AppendKeeps(c, s, i);
    case Take(i) => TakeKeeps(c, s, i);
    case Send(i) => SendKeeps(c, s, i);
    case LastTake => FlushingIsLive(s.phases);
    case LastSend =>
  }

  lemma {:induction false} SentAfter(sent: seq<seq<nat>>, load: seq<nat>, x: nat)
    ensures Copies(Concat(Emit(sent, load)), x) == Copies(Concat(sent), x) + Copies(load, x)
  {
    if load != [] {
      ConcatOne(sent, load);
    }
  }

  lemma AppendEverywhere(c: Config, s: State, i: nat, x: nat)
    requires Shape(c, s) && Enabled(c, s, Append(i))
    ensures Everywhere(Step(c, s, Append(i)), x) == Everywhere(s, x) + if i == x && c.parses[x] then 1 else 0
  {
    InFlightAfter(s.phases, i, Step(c, s, Append(i)).phases[i], x);
  }

  lemma TakeEverywhere(c: Config, s: State, i: nat, x: nat)
    requires Shape(c, s) && Enabled(c, s, Take(i))
    ensures Everywhere(Step(c, s, Take(i)), x) == Everywhere(s, x)
  {
    InFlightAfter(s.phases, i, Carrying(s.pending), x);
  }

  lemma SendEverywhere(c: Config, s: State, i: nat, x: nat)
    requires Shape(c, s) && Enabled(c, s, Send(i))
    ensures Everywhere(Step(c, s, Send(i)), x) == Everywhere(s, x)
  {
    InFlightAfter(s.phases, i, Finished, x);
    SentAfter(s.sent, s.phases[i].load, x);
  }

  /** Only Append changes what is somewhere, and it adds its own summary. */
  lemma StepEverywhere(c: Config, s: State, a: Action, x: nat)
    requires Shape(c, s) && Enabled(c, s, a)
    ensures Everywhere(Step(c, s, a), x)
         == Everywhere(s, x) + if a == Append(x) && c.parses[x] then 1 else 0
  {
    match a
    case Spawn => InFlightAfter(s.phases, s.next, Fetching, x);
    case Advance(i) => InFlightAfter(s.phases, i, Fetched, x);
    case Append(i) => AppendEverywhere(c, s, i, x);
    case Take(i) => TakeEverywhere(c, s, i, x);
    case Send(i) => SendEverywhere(c, s, i, x);
    case LastTake =>
    case LastSend => SentAfter(s.sent, s.main.load, x);
  }

  lemma StepAppends(c: Config, s: State, a: Action, x: nat)
    requires Shape(c, s) && Enabled(c, s, a) && Shape(c, Step(c, s, a))
    ensures Appended(c, Step(c, s, a), x) <==> Appended(c, s, x) || (a == Append(x) && c.parses[x])
  {
  }

  lemma StepInv(c: Config, s: State, a: Action)
    requires Inv(c, s) && Enabled(c, s, a)
    ensures Inv(c, Step(c, s, a))
  {
    var s' := Step(c, s, a);
    StepKeeps(c, s, a);
    forall x: nat
      ensures Everywhere(s', x) == if Appended(c, s', x) then 1 else 0
    {
      StepEverywhere(c, s, a, x);
      StepAppends(c, s, a, x);
      assert Everywhere(s, x) == if Appended(c, s, x) then 1 else 0;
    }
  }

  lemma {:induction false} ExecInv(c: Config, s: State, actions: seq<Action>)
    requires Inv(c, s) && Legal(c, s, actions)
    ensures Inv(c, Exec(c, s, actions))
    decreases |actions|
  {
    if actions != [] {
      StepInv(c, s, actions[0]);
      ExecInv(c, Step(c, s, actions[0]), actions[1..]);
    }
  }

  // ---------------------------------------------------------------------
  // What every interleaving does
  // ---------------------------------------------------------------------

  /** Every batch sent so far, in every interleaving. */
  lemma {:induction false} BatchBound(c: Config, actions: seq<Action>, b: seq<nat>)
    requires Sensible(c) && Legal(c, Init(c), actions)
    requires b in Exec(c, Init(c), actions).sent
    ensures 0 < |b| <= c.batch - 1 + c.limit
  {
    InitInv(c);
    ExecInv(c, Init(c), actions);
  }

  lemma {:induction false} ExecWithin(c: Config, actions: seq<Action>)
    requires Sensible(c) && Legal(c, Init(c), actions)
    ensures forall b | b in Exec(c, Init(c), actions).sent :: 0 < |b| <= c.batch - 1 + c.limit
  {
    InitInv(c);
    ExecInv(c, Init(c), actions);
  }

  /** The sent batches hold each summary that parses exactly once, and nothing else. */
  ghost predicate ExactlyOnce(parses: seq<bool>, sent: seq<seq<nat>>)
  {
    forall x: nat :: Copies(Concat(sent), x) == if x < |parses| && parses[x] then 1 else 0
  }

  ghost predicate Complete(c: Config, actions: seq<Action>)
  {
    Legal(c, Init(c), actions) && Exec(c, Init(c), actions).main == Returned
  }

  lemma AllAdvanced(ps: seq<Phase>)
    requires forall i | 0 <= i < |ps| :: ps[i] == Finished
    ensures Count(ps, HasAdvanced) == |ps|
  {
  }

  /** Once the call returned, every message that parses was sent once. */
  lemma {:induction false} ReturnedMeansSent(c: Config, s: State)
    requires Inv(c, s) && s.main == Returned
    ensures ExactlyOnce(c.parses, s.sent) && s.advanced == |c.parses|
  {
    NothingLive(s.phases);
    AllAdvanced(s.phases);
    forall x: nat
      ensures Copies(Concat(s.sent), x) == if x < |c.parses| && c.parses[x] then 1 else 0
    {
      assert Copies(Concat(s.sent), x) == Everywhere(s, x);
    }
  }

  /** No message is lost or doubled in any interleaving, and progress counts every body once. */
  lemma {:induction false} EveryMessageOnce(c: Config, actions: seq<Action>)
    requires Sensible(c) && Complete(c, actions)
    ensures ExactlyOnce(c.parses, Exec(c, Init(c), actions).sent)
    ensures Exec(c, Init(c), actions).advanced == |c.parses|
  {
    InitInv(c);
    ExecInv(c, Init(c), actions);
    ReturnedMeansSent(c, Exec(c, Init(c), actions));
  }

  lemma {:induction false} LoadInFlight(ps: seq<Phase>, i: nat, x: nat)
    requires i < |ps|
    ensures Load(ps[i], x) <= InFlight(ps, x)
  {
    if i > 0 {
      LoadInFlight(ps[1..], i - 1, x);
    }
  }

  lemma {:induction false} InConcat(sent: seq<seq<nat>>, x: nat)
    ensures x in Concat(sent) <==> exists b :: b in sent && x in b
  {
    if sent != [] {
      InConcat(sent[1..], x);
    }
  }

  /** Whatever is waiting, taken or sent is the index of a summary. */
  ghost predicate Indexed(c: Config, s: State)
  {
    && (forall x | x in s.pending :: x < |c.parses|)
    && (forall i, x | 0 <= i < |s.phases| && s.phases[i].Carrying? && x in s.phases[i].load :: x < |c.parses|)
    && (s.main.LastCarrying? ==> forall x | x in s.main.load :: x < |c.parses|)
    && (forall b, x | b in s.sent && x in b :: x < |c.parses|)
  }

  lemma InvIndexed(c: Config, s: State)
    requires |s.phases| == |c.parses| && Once(c, s)
    ensures Indexed(c, s)
  {
    forall x: nat | x >= |c.parses|
      ensures Everywhere(s, x) == 0
    {
    }
    forall b, x | b in s.sent && x in b
      ensures x < |c.parses|
    {
      InConcat(s.sent, x);
      assert Everywhere(s, x) > 0;
    }
    forall x | x in s.pending
      ensures x < |c.parses|
    {
      assert Everywhere(s, x) > 0;
    }
    forall i, x: nat | 0 <= i < |s.phases| && s.phases[i].Carrying? && x in s.phases[i].load
      ensures x < |c.parses|
    {
      LoadInFlight(s.phases, i, x);
      assert Everywhere(s, x) > 0;
    }
    if s.main.LastCarrying? {
      forall x | x in s.main.load
        ensures x < |c.parses|
      {
        assert Everywhere(s, x) > 0;
      }
    }
  }

  /** The final flush carries less than a full batch. */
  lemma {:induction false} LastFlushIsPartial(c: Config, actions: seq<Action>)
    requires Sensible(c) && Legal(c, Init(c), actions)
    requires Exec(c, Init(c), actions).main.LastCarrying?
    ensures |Exec(c, Init(c), actions).main.load| <= c.batch - 1
  {
    InitInv(c);
    ExecInv(c, Init(c), actions);
  }

  lemma {:induction false} ExecAppend(c: Config, s: State, before: seq<Action>, after: seq<Action>)
    requires Legal(c, s, before) && Legal(c, Exec(c, s, before), after)
    ensures Legal(c, s, before + after)
    ensures Exec(c, s, before + after) == Exec(c, Exec(c, s, before), after)
    decreases |before|
  {
    if before == [] {
      assert before + after == after;
    } else {
      assert (before + after)[1..] == before[1..] + after;
      ExecAppend(c, Step(c, s, before[0]), before[1..], after);
    }
  }

  lemma {:induction false} ExecNext(c: Config, s: State, before: seq<Action>, a: Action)
    requires Legal(c, s, before) && Enabled(c, Exec(c, s, before), a)
    ensures Legal(c, s, before + [a])
    ensures Exec(c, s, before + [a]) == Step(c, Exec(c, s, before), a)
  {
    assert [a][1..] == [];
    ExecAppend(c, s, before, [a]);
  }
}
