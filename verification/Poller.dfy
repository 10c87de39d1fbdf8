/**
 The polling loop, the syncs it runs with their download workers, and the
 server's Close, as one step machine. Every legal list of actions is an
 interleaving of the goroutines involved.
 */
module Poller {
  import Announce
  import Finishing

  /** Where a running Sync is. A download is the worker protocol of one folder. */
  datatype Stage = Scanning | Downloading(c: Announce.Config, s: Announce.State) | Settling

  datatype Loop = Waiting | Syncing(requested: bool, stage: Stage) | Exited

  /** Where IMAPServer.Close is. */
  datatype Closer = Serving | Stopping | AwaitingDone | Stopped | ChannelClosed

  datatype State = State(
    loop: Loop,
    token: bool,        // the one slot of the reset channel
    tick: bool,         // the ticker's channel
    cancelled: bool,    // the loop's context
    closer: Closer,
    started: nat,       // cycles started, and cycles that returned
    finished: nat)

  datatype Action =
    | Resync                            // any caller, at any time
    | Tick
    | TakeToken                         // the select chose the reset channel
    | TakeTick                          // or the ticker
    | TakeStop                          // or the cancelled context
    | ScanSend                          // a folder or a changed message goes out
    | StartFolder(c: Announce.Config)
    | Download(a: Announce.Action)      // one step of the folder's goroutines
    | EndDownloads
    | SettleSend                        // a deletion goes out
    | SyncReturns(drained: bool)        // drained: resetting the ticker dropped a pending tick
    | CloseBegins | CloseCancels | StopReturns | CloseChannel
    | CloseAgain                        // a Close that finds started already false

  const INIT := State(Waiting, false, false, false, Serving, 0, 0)

  /** The goroutines of a download are done once announceNewMessages has returned. */
  predicate DownloadsJoined(stage: Stage)
  {
    stage.Downloading? ==> stage.s.main.Returned?
  }

  predicate Enabled(s: State, a: Action)
  {
    match a
    case Resync => true
    case Tick => true
    case TakeToken => s.loop.Waiting? && s.token
    case TakeTick => s.loop.Waiting? && s.tick
    case TakeStop => s.loop.Waiting? && s.cancelled
    case ScanSend => s.loop.Syncing? && s.loop.stage.Scanning?
    case StartFolder(c) =>
      s.loop.Syncing? && !s.loop.stage.Settling? && DownloadsJoined(s.loop.stage) && c.batch > 0 && c.limit > 0
    case Download(d) =>
      s.loop.Syncing? && s.loop.stage.Downloading? && Announce.Enabled(s.loop.stage.c, s.loop.stage.s, d)
    case EndDownloads => s.loop.Syncing? && !s.loop.stage.Settling? && DownloadsJoined(s.loop.stage)
    case SettleSend => s.loop.Syncing? && s.loop.stage.Settling?
    case SyncReturns(_) => s.loop.Syncing? && DownloadsJoined(s.loop.stage)
    case CloseBegins => s.closer.Serving?
    case CloseCancels => s.closer.Stopping?
    case StopReturns => s.closer.AwaitingDone? && s.loop.Exited?
    case CloseChannel => s.closer.Stopped?
    case CloseAgain => !s.closer.Serving?
  }

  function Step(s: State, a: Action): State
    requires Enabled(s, a)
  {
    match a
    case Resync => s.(token := true)
    case Tick => s.(tick := true)
    case TakeToken => s.(token := false, loop := Syncing(true, Scanning), started := s.started + 1)
    case TakeTick => s.(tick := false, loop := Syncing(false, Scanning), started := s.started + 1)
    case TakeStop => s.(loop := Exited)
    case ScanSend => s
    case StartFolder(c) => s.(loop := s.loop.(stage := Downloading(c, Announce.Init(c))))
    case Download(d) =>
      var Downloading(c, t) := s.loop.stage;
      s.(loop := s.loop.(stage := Downloading(c, Announce.Step(c, t, d))))
    case EndDownloads => s.(loop := s.loop.(stage := Settling))
    case SettleSend => s
    case SyncReturns(drained) =>
      s.(loop := Waiting, finished := s.finished + 1, tick := s.tick && !(s.loop.requested && drained))
    case CloseBegins => s.(closer := Stopping)
    case CloseCancels => s.(closer := AwaitingDone, cancelled := true)
    case StopReturns => s.(closer := Stopped)
    case CloseChannel => s.(closer := ChannelClosed)
    case CloseAgain => s
  }

  predicate Legal(s: State, actions: seq<Action>)
    decreases |actions|
  {
    actions == [] || (Enabled(s, actions[0]) && Legal(Step(s, actions[0]), actions[1..]))
  }

  function Exec(s: State, actions: seq<Action>): State
    requires Legal(s, actions)
    decreases |actions|
  {
    if actions == [] then s else Exec(Step(s, actions[0]), actions[1..])
  }

  /** Which steps put something on the updates channel. */
  predicate Sends(a: Action)
  {
    a.ScanSend? || a.SettleSend? || (a.Download? && (a.a.Send? || a.a.LastSend?))
  }

  ghost predicate Inv(s: State)
  {
    && (s.loop.Syncing? && s.loop.stage.Downloading? ==> Announce.Inv(s.loop.stage.c, s.loop.stage.s))
    && s.started == s.finished + (if s.loop.Syncing? then 1 else 0)
    && (s.closer.Stopped? || s.closer.ChannelClosed? ==> s.loop.Exited?)
    && (s.loop.Exited? ==> s.cancelled)
    && (s.closer.AwaitingDone? ==> s.cancelled)
    && (s.cancelled ==> !s.closer.Serving? && !s.closer.Stopping?)
  }

  lemma StepInv(s: State, a: Action)
    requires Inv(s) && Enabled(s, a)
    ensures Inv(Step(s, a))
  {
    match a
    case StartFolder(c) => Announce.InitInv(c);
    case Download(d) => Announce.StepInv(s.loop.stage.c, s.loop.stage.s, d);
    case _ =>
  }

  lemma {:induction false} ExecInv(s: State, actions: seq<Action>)
    requires Inv(s) && Legal(s, actions)
    ensures Inv(Exec(s, actions))
    decreases |actions|
  {
    if actions != [] {
      StepInv(s, actions[0]);
      ExecInv(Step(s, actions[0]), actions[1..]);
    }
  }

  // ---------------------------------------------------------------------
  // Safety over every run
  // ---------------------------------------------------------------------

  /** In no run does anyone send on the closed channel. */
  lemma {:induction false} NoSendOnClosedChannel(actions: seq<Action>, a: Action)
    requires Legal(INIT, actions) && Enabled(Exec(INIT, actions), a) && Sends(a)
    ensures !Exec(INIT, actions).closer.ChannelClosed?
  {
    ExecInv(INIT, actions);
  }

  /** Once a sync left its downloads, none of their goroutines has a step left, so none can send. */
  lemma {:induction false} WorkersAreJoined(actions: seq<Action>, d: Announce.Action)
    requires Legal(INIT, actions)
    requires var s := Exec(INIT, actions);
      s.loop.Syncing? && s.loop.stage.Downloading? && DownloadsJoined(s.loop.stage)
    ensures !Enabled(Exec(INIT, actions), Download(d))
  {
    ExecInv(INIT, actions);
    var s := Exec(INIT, actions).loop.stage.s;
    Announce.NothingLive(s.phases);
  }

  /** A step that leaves a folder's download behind: to the next folder, to the deletions, or out of the sync. */
  predicate LeavesDownload(a: Action)
  {
    a.StartFolder? || a.EndDownloads? || a.SyncReturns? || a.SettleSend?
  }

  /** No folder is cut short: a sync leaves a download only when each of its messages was sent exactly once. */
  lemma {:induction false} NoFolderIsCutShort(actions: seq<Action>, a: Action)
    requires Legal(INIT, actions) && Enabled(Exec(INIT, actions), a) && LeavesDownload(a)
    ensures var loop := Exec(INIT, actions).loop;
      && loop.Syncing?
      && (loop.stage.Downloading? ==> Announce.ExactlyOnce(loop.stage.c.parses, loop.stage.s.sent))
  {
    ExecInv(INIT, actions);
    var stage := Exec(INIT, actions).loop.stage;
    if stage.Downloading? {
      Announce.ReturnedMeansSent(stage.c, stage.s);
    }
  }

  /** The number of cycles in a list of actions: requested ones, or any. */
  function Requested(actions: seq<Action>): nat
  {
    if actions == [] then 0 else (if actions[0].TakeToken? then 1 else 0) + Requested(actions[1..])
  }

  lemma {:induction false} ExitedStays(s: State, actions: seq<Action>)
    requires s.loop.Exited? && Legal(s, actions)
    ensures Exec(s, actions).loop.Exited? && Exec(s, actions).started == s.started
    decreases |actions|
  {
    if actions != [] {
      ExitedStays(Step(s, actions[0]), actions[1..]);
    }
  }

  /** Stop returns only when no cycle runs, and after it none starts. */
  lemma {:induction false} StopIsFinal(actions: seq<Action>, later: seq<Action>)
    requires Legal(INIT, actions) && Enabled(Exec(INIT, actions), StopReturns)
    requires Legal(Exec(INIT, actions), later)
    ensures var s := Exec(INIT, actions);
      && s.started == s.finished
      && Exec(s, later).started == s.started && !Exec(s, later).loop.Syncing?
  {
    ExecInv(INIT, actions);
    ExitedStays(Exec(INIT, actions), later);
  }

  /** Cycles never overlap. */
  lemma {:induction false} OneCycleAtATime(actions: seq<Action>)
    requires Legal(INIT, actions)
    ensures var s := Exec(INIT, actions);
      s.finished <= s.started <= s.finished + 1 && (s.started > s.finished <==> s.loop.Syncing?)
  {
    ExecInv(INIT, actions);
  }

  // ---------------------------------------------------------------------
  // The token
  // ---------------------------------------------------------------------

  lemma {:induction false} TokenWaitsOrIsTaken(s: State, later: seq<Action>)
    requires s.token && Legal(s, later)
    ensures Exec(s, later).token || Requested(later) > 0
    decreases |later|
  {
    if later != [] && !later[0].TakeToken? {
      TokenWaitsOrIsTaken(Step(s, later[0]), later[1..]);
    }
  }

  /** Whatever follows a Resync, its token is still in the slot or a requested cycle started after it. */
  lemma {:induction false} ResyncIsNotLost(before: seq<Action>, later: seq<Action>)
    requires Legal(INIT, before) && Legal(Step(Exec(INIT, before), Resync), later)
    ensures Exec(Step(Exec(INIT, before), Resync), later).token || Requested(later) > 0
  {
    TokenWaitsOrIsTaken(Step(Exec(INIT, before), Resync), later);
  }

  predicate Quiet(actions: seq<Action>)
  {
    forall a | a in actions :: !a.Resync?
  }

  /** Requested cycles never outnumber the tokens: the one in the slot and one per call. */
  lemma {:induction false} NoTokenNoRequest(s: State, actions: seq<Action>)
    requires Legal(s, actions) && Quiet(actions)
    ensures Requested(actions) <= if s.token then 1 else 0
    decreases |actions|
  {
    if actions != [] {
      assert !actions[0].Resync?;
      assert forall a | a in actions[1..] :: a in actions;
      NoTokenNoRequest(Step(s, actions[0]), actions[1..]);
    }
  }

  lemma {:induction false} ExecAppend(s: State, first: seq<Action>, second: seq<Action>)
    requires Legal(s, first + second)
    ensures Legal(s, first) && Legal(Exec(s, first), second)
    ensures Exec(s, first + second) == Exec(Exec(s, first), second)
    ensures Requested(first + second) == Requested(first) + Requested(second)
    decreases |first|
  {
    if first == [] {
      assert first + second == second;
    } else {
      assert (first + second)[0] == first[0] && (first + second)[1..] == first[1..] + second;
      ExecAppend(Step(s, first[0]), first[1..], second);
    }
  }

  lemma {:induction false} BusyLoopTakesNothing(s: State, during: seq<Action>)
    requires s.loop.Syncing? && Legal(s, during) && forall a | a in during :: !a.SyncReturns?
    ensures Requested(during) == 0 && Exec(s, during).loop.Syncing?
    decreases |during|
  {
    if during != [] {
      assert !during[0].SyncReturns?;
      assert forall a | a in during[1..] :: a in during;
      BusyLoopTakesNothing(Step(s, during[0]), during[1..]);
    }
  }

  /** Any number of calls during one cycle cause at most one further requested cycle. */
  lemma {:induction false} CallsDuringACycleCoalesce(s: State, during: seq<Action>, later: seq<Action>)
    requires s.loop.Syncing? && Legal(s, during + later)
    requires forall a | a in during :: !a.SyncReturns?
    requires Quiet(later)
    ensures Requested(during + later) <= 1
  {
    ExecAppend(s, during, later);
    BusyLoopTakesNothing(s, during);
    NoTokenNoRequest(Exec(s, during), later);
  }

  /** Somewhere on the way a cycle the ticker asked for began, or a requested one returned and dropped the tick. */
  predicate TickUsed(s: State, later: seq<Action>)
    requires Legal(s, later)
    decreases |later|
  {
    later != [] && (
      || later[0].TakeTick?
      || (later[0].SyncReturns? && later[0].drained && s.loop.requested)
      || TickUsed(Step(s, later[0]), later[1..]))
  }

  /** A tick is pending until the loop takes it or the return of a requested cycle drops it. */
  lemma {:induction false} TickIsNotLost(before: seq<Action>, later: seq<Action>)
    requires Legal(INIT, before) && Legal(Step(Exec(INIT, before), Tick), later)
    ensures var s := Step(Exec(INIT, before), Tick); Exec(s, later).tick || TickUsed(s, later)
  {
    TickWaitsOrIsUsed(Step(Exec(INIT, before), Tick), later);
  }

  lemma {:induction false} TickWaitsOrIsUsed(s: State, later: seq<Action>)
    requires s.tick && Legal(s, later)
    ensures Exec(s, later).tick || TickUsed(s, later)
    decreases |later|
  {
    if later != [] && !later[0].TakeTick? && Step(s, later[0]).tick {
      TickWaitsOrIsUsed(Step(s, later[0]), later[1..]);
    }
  }

  // ---------------------------------------------------------------------
  // Closing finishes
  // ---------------------------------------------------------------------

  lemma {:induction false} ExecThen(s: State, first: seq<Action>, second: seq<Action>)
    requires Legal(s, first) && Legal(Exec(s, first), second)
    ensures Legal(s, first + second) && Exec(s, first + second) == Exec(Exec(s, first), second)
    decreases |first|
  {
    if first == [] {
      assert first + second == second;
    } else {
      assert (first + second)[0] == first[0] && (first + second)[1..] == first[1..] + second;
      ExecThen(Step(s, first[0]), first[1..], second);
    }
  }

  /** The steps of a folder's goroutines, as steps of the whole. */
  lemma {:induction false} DownloadRuns(s: State, rest: seq<Announce.Action>) returns (later: seq<Action>)
    requires s.loop.Syncing? && s.loop.stage.Downloading? && Announce.Legal(s.loop.stage.c, s.loop.stage.s, rest)
    ensures Legal(s, later)
    ensures var Downloading(c, t) := s.loop.stage;
      Exec(s, later) == s.(loop := s.loop.(stage := Downloading(c, Announce.Exec(c, t, rest))))
    decreases |rest|
  {
    if rest == [] {
      later := [];
    } else {
      var d := Download(rest[0]);
      var tail := DownloadRuns(Step(s, d), rest[1..]);
      assert ([d] + tail)[1..] == tail;
      later := [d] + tail;
    }
  }

  /** A sync in flight can always be brought to its return. */
  lemma SyncCanReturn(s: State) returns (later: seq<Action>)
    requires Inv(s) && s.loop.Syncing?
    ensures Legal(s, later) && Exec(s, later).loop.Waiting?
    ensures Exec(s, later).cancelled == s.cancelled && Exec(s, later).closer == s.closer
    ensures Exec(s, later).tick == s.tick && Exec(s, later).started == s.started
  {
    later := [];
    if s.loop.stage.Downloading? {
      var rest := Finishing.Completes(s.loop.stage.c, s.loop.stage.s);
      later := DownloadRuns(s, rest);
    }
    var last := [SyncReturns(false)];
    assert last[1..] == [];
    ExecThen(s, later, last);
    later := later + last;
  }

  /** While the loop has not exited, a token in the slot can still start a requested cycle. */
  lemma {:induction false} ResyncCanBeServed(actions: seq<Action>) returns (later: seq<Action>)
    requires Legal(INIT, actions) && Exec(INIT, actions).token && !Exec(INIT, actions).loop.Exited?
    ensures Legal(Exec(INIT, actions), later) && Requested(later) > 0
  {
    ExecInv(INIT, actions);
    var s := Exec(INIT, actions);
    later := [];
    if s.loop.Syncing? {
      later := SyncCanReturn(s);
    }
    TokenWaitsOrIsTaken(s, later);
    if Requested(later) == 0 {
      assert [TakeToken][1..] == [];
      ExecThen(s, later, [TakeToken]);
      later := later + [TakeToken];
      RequestedLast(later);
    }
  }

  /** While the loop has not exited, a pending tick can still start a cycle nobody asked for. */
  lemma {:induction false} TickCanBeServed(actions: seq<Action>) returns (later: seq<Action>)
    requires Legal(INIT, actions) && Exec(INIT, actions).tick && !Exec(INIT, actions).loop.Exited?
    ensures Legal(Exec(INIT, actions), later)
    ensures var s, t := Exec(INIT, actions), Exec(Exec(INIT, actions), later);
      t.loop.Syncing? && !t.loop.requested && t.started == s.started + 1
  {
    ExecInv(INIT, actions);
    var s := Exec(INIT, actions);
    later := [];
    if s.loop.Syncing? {
      later := SyncCanReturn(s);
    }
    assert [TakeTick][1..] == [];
    ExecThen(s, later, [TakeTick]);
    later := later + [TakeTick];
  }

  lemma {:induction false} RequestedLast(actions: seq<Action>)
    requires actions != [] && actions[|actions| - 1].TakeToken?
    ensures Requested(actions) > 0
  {
    if !actions[0].TakeToken? {
      RequestedLast(actions[1..]);
    }
  }

  /**
   No deadlock on the way down: from every state in which Close waits for the
   loop, some continuation lets Stop return and closes the channel.
   */
  lemma CloseCanFinish(actions: seq<Action>) returns (later: seq<Action>)
    requires Legal(INIT, actions) && Exec(INIT, actions).closer.AwaitingDone?
    ensures Legal(Exec(INIT, actions), later) && Exec(Exec(INIT, actions), later).closer.ChannelClosed?
  {
    ExecInv(INIT, actions);
    var s := Exec(INIT, actions);
    later := [];
    if s.loop.Syncing? {
      later := SyncCanReturn(s);
    }
    var t := Exec(s, later);
    var down := (if t.loop.Exited? then [] else [TakeStop]) + [StopReturns, CloseChannel];
    assert [StopReturns, CloseChannel][1..] == [CloseChannel] && [CloseChannel][1..] == [];
    if !t.loop.Exited? {
      assert down[1..] == [StopReturns, CloseChannel];
    } else {
      assert down == [StopReturns, CloseChannel];
    }
    ExecThen(s, later, down);
    later := later + down;
  }
}
