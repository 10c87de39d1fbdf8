/** What a sync tells its parent while it downloads mail. */
module Progress {
  import opened Bytes

  datatype Event =
    | Started(total: int)
    | Progressed(done: int, total: int, percent: int)
    | Finished(done: int, total: int, code: string)

  /** Which handlers the caller supplied; a missing one is not called. */
  datatype Handlers = Handlers(onStarted: bool, onProgress: bool, onFinished: bool)

  const ALL_HANDLERS := Handlers(true, true, true)

  /** Milliseconds between two reports. */
  const PROGRESS_INTERVAL: int := 250

  function PercentOf(done: nat, total: int): int
  {
    if total <= 0 then 100 else done * 100 / total
  }

  lemma FullOnlyAtTheEnd(done: nat, total: int)
    requires 0 < total && done <= total
    ensures 0 <= PercentOf(done, total) <= 100
    ensures PercentOf(done, total) == 100 <==> done == total
  {
    if done < total {
      assert done * 100 < total * 100;
    }
  }

  /** The percentage is the whole part of a hundred times the share that is done. */
  lemma PercentExactly(done: nat, total: int)
    requires 0 < total
    ensures PercentOf(done, total) * total <= 100 * done < (PercentOf(done, total) + 1) * total
  {
  }

  /** What the reporter holds, and what it reported since it was made. */
  datatype Report = Report(total: int, done: nat, lastReport: Option<int>, reported: seq<Event>)

  /** A body counts at time now: the last one always reports, the others at most once an interval. */
  function Advanced(r: Report, now: int): Report
  {
    var done := r.done + 1;
    if done != r.total && r.lastReport.Some? && now - r.lastReport.value < PROGRESS_INTERVAL then r.(done := done)
    else
      var event := Progressed(done, r.total, PercentOf(done, r.total));
      r.(done := done, lastReport := Some(now), reported := r.reported + [event])
  }

  function AdvancedBy(r: Report, clock: seq<int>): Report
  {
    if clock == [] then r else Advanced(AdvancedBy(r, clock[..|clock| - 1]), clock[|clock| - 1])
  }

  lemma {:induction false} AdvancesCompose(r: Report, first: seq<int>, second: seq<int>)
    ensures AdvancedBy(AdvancedBy(r, first), second) == AdvancedBy(r, first + second)
  {
    if second == [] {
      assert first + second == first;
    } else {
      var n := |second| - 1;
      AdvancesCompose(r, first, second[..n]);
      assert (first + second)[..|first + second| - 1] == first + second[..n];
    }
  }

  /** A nil reporter does nothing: no progress handler, or nothing to do and nobody asked. */
  predicate Reports(handlers: Handlers, total: int, requested: bool)
  {
    handlers.onProgress && (total > 0 || requested)
  }

  function Opening(handlers: Handlers, total: int): seq<Event>
  {
    if handlers.onStarted then [Started(total)] else []
  }

  function Closing(handlers: Handlers, done: int, total: int, code: string): seq<Event>
  {
    if handlers.onFinished then [Finished(done, total, code)] else []
  }

  /** Every event of one sync, for the times its bodies arrived at. */
  function EventsOf(handlers: Handlers, total: int, requested: bool, clock: seq<int>, code: string): seq<Event>
  {
    if !Reports(handlers, total, requested) then []
    else
      var r := AdvancedBy(Report(total, 0, None, []), clock);
      Opening(handlers, total) + r.reported + Closing(handlers, r.done, total, code)
  }

  // ---------------------------------------------------------------------
  // The grammar of a sync's events
  // ---------------------------------------------------------------------

  ghost predicate Climbing(es: seq<Event>, total: int)
  {
    && (forall k | 0 <= k < |es| ::
         && es[k].Progressed? && es[k].total == total && 0 < es[k].done <= total
         && es[k].percent == PercentOf(es[k].done, total)
         && (es[k].percent == 100 <==> es[k].done == total))
    && (forall k, l | 0 <= k < l < |es| :: es[k].Progressed? && es[l].Progressed? && es[k].done < es[l].done)
  }

  /** Started, then strictly climbing progress from 1 to 100 percent, then exactly one Finished. */
  ghost predicate Bracketed(es: seq<Event>, total: nat)
  {
    && |es| >= 2
    && es[0] == Started(total)
    && es[|es| - 1] == Finished(total, total, "")
    && Climbing(es[1..|es| - 1], total)
    && (total > 0 ==>
         && |es| >= 3
         && es[1] == Progressed(1, total, PercentOf(1, total))
         && es[|es| - 2] == Progressed(total, total, 100))
  }

  lemma {:induction false} AdvancesClimb(total: nat, clock: seq<int>)
    requires |clock| <= total
    ensures var r := AdvancedBy(Report(total, 0, None, []), clock);
      && r.done == |clock| && r.total == total
      && (r.lastReport.None? <==> clock == [])
      && Climbing(r.reported, total)
      && (forall k | 0 <= k < |r.reported| :: r.reported[k].done <= |clock|)
      && (clock != [] ==> |r.reported| > 0 && r.reported[0] == Progressed(1, total, PercentOf(1, total)))
      && (clock != [] && |clock| == total ==> r.reported[|r.reported| - 1] == Progressed(total, total, 100))
  {
    if clock != [] {
      AdvancesClimb(total, clock[..|clock| - 1]);
      FullOnlyAtTheEnd(|clock|, total);
    }
  }

  /** A sync whose bodies all arrived reports nothing or a complete bracket, whatever the clock says. */
  lemma EventGrammar(total: nat, requested: bool, clock: seq<int>)
    requires |clock| == total
    ensures var es := EventsOf(ALL_HANDLERS, total, requested, clock, "");
      if total > 0 || requested then Bracketed(es, total) else es == []
  {
    if total > 0 || requested {
      AdvancesClimb(total, clock);
      var r := AdvancedBy(Report(total, 0, None, []), clock);
      var es := EventsOf(ALL_HANDLERS, total, requested, clock, "");
      assert es[1..|es| - 1] == r.reported;
      assert total > 0 ==> es[|es| - 2] == r.reported[|r.reported| - 1];
    }
  }

  // ---------------------------------------------------------------------
  // Which bodies report, and which handlers hear of it
  // ---------------------------------------------------------------------

  function ReportedBy(total: int, clock: seq<int>): seq<Event>
  {
    AdvancedBy(Report(total, 0, None, []), clock).reported
  }

  lemma {:induction false} LastReportIsTold(total: int, clock: seq<int>)
    ensures var r := AdvancedBy(Report(total, 0, None, []), clock);
      && r.done == |clock| && r.total == total
      && (r.lastReport.None? <==> r.reported == [])
      && (r.reported != [] ==>
           var last := r.reported[|r.reported| - 1];
           last.Progressed? && 0 < last.done <= |clock| && r.lastReport == Some(clock[last.done - 1]))
  {
    if clock != [] {
      LastReportIsTold(total, clock[..|clock| - 1]);
    }
  }

  /**
   A body reports exactly when it is the last one, the first one, or arrived 250
   milliseconds or more after the body reported last; else it is silent.
   */
  lemma {:induction false} ReportsExactly(total: int, clock: seq<int>, now: int)
    ensures var before, after, done := ReportedBy(total, clock), ReportedBy(total, clock + [now]), |clock| + 1;
      if done == total || before == [] || (
           before[|before| - 1].Progressed? && 0 < before[|before| - 1].done <= |clock|
           && now - clock[before[|before| - 1].done - 1] >= 250)
      then after == before + [Progressed(done, total, PercentOf(done, total))]
      else after == before
  {
    assert (clock + [now])[..|clock|] == clock;
    LastReportIsTold(total, clock);
  }

  /**
   What other callers hear: nothing without a progress handler, else what one with
   every handler hears, less the start and the end it has no handler for. The end
   tells the bodies counted and the code.
   */
  lemma {:induction false} HandlersHear(handlers: Handlers, total: int, requested: bool, clock: seq<int>, code: string)
    ensures var all, some := EventsOf(ALL_HANDLERS, total, requested, clock, code),
                             EventsOf(handlers, total, requested, clock, code);
      && (all == [] <==> total <= 0 && !requested)
      && (all != [] ==>
           |all| >= 2 && all[0] == Started(total) && all[|all| - 1] == Finished(|clock|, total, code)
           && all[1..|all| - 1] == ReportedBy(total, clock))
      && some == if !handlers.onProgress || all == [] then []
                 else (if handlers.onStarted then [all[0]] else []) + all[1..|all| - 1]
                      + if handlers.onFinished then [all[|all| - 1]] else []
  {
    var all := EventsOf(ALL_HANDLERS, total, requested, clock, code);
    LastReportIsTold(total, clock);
    if all != [] {
      assert all == [Started(total)] + ReportedBy(total, clock) + [Finished(|clock|, total, code)];
    }
  }

  // ---------------------------------------------------------------------
  // The reporter
  // ---------------------------------------------------------------------

  class EventLog {
    var events: seq<Event>

    constructor ()
      ensures events == []
    {
      events := [];
    }
  }

  class ProgressReporter {
    const handlers: Handlers
    const log: EventLog
    const total: int
    const live: bool
    ghost const before: seq<Event>
    var done: nat
    var lastReport: Option<int>
    ghost var reported: seq<Event>

    ghost predicate Valid()
      reads this, log
    {
      && (live ==> log.events == before + Opening(handlers, total) + reported)
      && (!live ==> log.events == before)
    }

    ghost function View(): Report
      reads this
    {
      Report(total, done, lastReport, reported)
    }

    constructor (handlers: Handlers, log: EventLog, total: int, requested: bool)
      modifies log
      ensures Valid() && this.handlers == handlers && this.log == log && this.total == total
      ensures live == Reports(handlers, total, requested) && before == old(log.events)
      ensures View() == Report(total, 0, None, [])
    {
      this.handlers, this.log, this.total := handlers, log, total;
      live := Reports(handlers, total, requested);
      before := log.events;
      done, lastReport, reported := 0, None, [];
      new;
      if live && handlers.onStarted {
        log.events := log.events + [Started(total)];
      }
    }

    method Advance(now: int)
      requires Valid()
      modifies this, log
      ensures Valid()
      ensures View() == if live then Advanced(old(View()), now) else old(View())
    {
      if !live {
        return;
      }
      done := done + 1;
      if done != total && lastReport.Some? && now - lastReport.value < PROGRESS_INTERVAL {
        return;
      }
      lastReport := Some(now);
      var event := Progressed(done, total, PercentOf(done, total));
      log.events := log.events + [event];
      reported := reported + [event];
    }

    method Finish(code: string)
      requires Valid()
      modifies log
      ensures log.events == before + if !live then []
        else Opening(handlers, total) + reported + Closing(handlers, done, total, code)
    {
      if live && handlers.onFinished {
        log.events := log.events + [Finished(done, total, code)];
      }
    }
  }
}
