/** No interleaving of a folder's download gets stuck, and none goes on for ever. */
module Finishing {
  import opened Bytes
  import opened Announce

  function Distance(p: Phase): nat
  {
    match p
    case Queued => 5
    case Fetching => 4
    case Fetched => 3
    case Flushing => 2
    case Carrying(_) => 1
    case Finished => 0
  }

  function TotalDistance(ps: seq<Phase>): nat
  {
    if ps == [] then 0 else Distance(ps[0]) + TotalDistance(ps[1..])
  }

  function Remaining(s: State): nat
  {
    TotalDistance(s.phases) + match s.main { case Spawning => 2 case LastCarrying(_) => 1 case Returned => 0 }
  }

  lemma {:induction false} DistanceAfter(ps: seq<Phase>, i: nat, p: Phase)
    requires i < |ps|
    ensures TotalDistance(ps[i := p]) == TotalDistance(ps) - Distance(ps[i]) + Distance(p)
  {
    if i == 0 {
      assert ps[i := p][1..] == ps[1..];
    } else {
      assert ps[i := p][1..] == ps[1..][i - 1 := p];
      DistanceAfter(ps[1..], i - 1, p);
    }
  }

  lemma WorkerProgresses(c: Config, s: State, a: Action)
    requires Shape(c, s) && Enabled(c, s, a) && (a.Append? || a.Take? || a.Send?)
    ensures Remaining(Step(c, s, a)) < Remaining(s)
  {
    match a
    case Append(i) => DistanceAfter(s.phases, i, Step(c, s, a).phases[i]);
    case Take(i) => DistanceAfter(s.phases, i, Carrying(s.pending));
    case Send(i) => DistanceAfter(s.phases, i, Finished);
  }

  lemma StepProgresses(c: Config, s: State, a: Action)
    requires Shape(c, s) && Enabled(c, s, a)
    ensures Remaining(Step(c, s, a)) < Remaining(s)
  {
    match a
    case Spawn => DistanceAfter(s.phases, s.next, Fetching);
    case Advance(i) => DistanceAfter(s.phases, i, Fetched);
    case LastTake =>
    case LastSend =>
    case _ => WorkerProgresses(c, s, a);
  }

  lemma {:induction false} SomeoneLive(ps: seq<Phase>) returns (i: nat)
    requires Count(ps, Live) > 0
    ensures i < |ps| && Live(ps[i])
  {
    if Live(ps[0]) {
      i := 0;
    } else {
      i := SomeoneLive(ps[1..]);
      i := i + 1;
    }
  }

  /** Until the call returns, some goroutine can move. */
  lemma NeverStuck(c: Config, s: State) returns (a: Action)
    requires Shape(c, s) && s.main != Returned
    ensures Enabled(c, s, a)
  {
    if s.main.LastCarrying? {
      a := LastSend;
    } else if Count(s.phases, Live) > 0 {
      var i := SomeoneLive(s.phases);
      a := match s.phases[i]
           case Fetching => Advance(i)
           case Fetched => Append(i)
           case Flushing => Take(i)
           case _ => Send(i);
    } else {
      a := if s.next < |s.phases| then Spawn else LastTake;
    }
  }

  /** Every interleaving runs on to completion, whatever was scheduled so far. */
  lemma {:induction false} Completes(c: Config, s: State) returns (rest: seq<Action>)
    requires Inv(c, s)
    ensures Legal(c, s, rest) && Exec(c, s, rest).main == Returned
    decreases Remaining(s)
  {
    if s.main == Returned {
      rest := [];
    } else {
      var a := NeverStuck(c, s);
      StepProgresses(c, s, a);
      StepInv(c, s, a);
      rest := Completes(c, Step(c, s, a));
      assert ([a] + rest)[1..] == rest;
      rest := [a] + rest;
    }
  }

  lemma {:induction false} LegalIsShort(c: Config, s: State, actions: seq<Action>)
    requires Inv(c, s) && Legal(c, s, actions)
    ensures |actions| <= Remaining(s)
    decreases |actions|
  {
    if actions != [] {
      StepProgresses(c, s, actions[0]);
      StepInv(c, s, actions[0]);
      LegalIsShort(c, Step(c, s, actions[0]), actions[1..]);
    }
  }

  lemma {:induction false} QueuedDistance(n: nat)
    ensures TotalDistance(AllOf(n, Queued)) == 5 * n
  {
    if n > 0 {
      QueuedDistance(n - 1);
      assert AllOf(n, Queued)[1..] == AllOf(n - 1, Queued);
    }
  }

  /** Every interleaving can be continued to a complete one, and none has more than 5n + 2 steps. */
  lemma {:induction false} NoDeadlock(c: Config, actions: seq<Action>)
    requires Sensible(c) && Legal(c, Init(c), actions)
    ensures |actions| <= 5 * |c.parses| + 2
    ensures exists rest :: Complete(c, actions + rest)
  {
    InitInv(c);
    ExecInv(c, Init(c), actions);
    LegalIsShort(c, Init(c), actions);
    QueuedDistance(|c.parses|);
    var rest := Completes(c, Exec(c, Init(c), actions));
    ExecAppend(c, Init(c), actions, rest);
    assert Complete(c, actions + rest);
  }
}
