/** The mail connector: the object whose Sync keeps the IMAP library in line with the account. */
module Connector {
  import opened Bytes
  import opened Snapshot
  import opened SyncModel
  import opened Progress
  import Announce

  function TotalOf(work: seq<Work>): nat
  {
    if work == [] then 0 else TotalOf(work[..|work| - 1]) + |work[|work| - 1].created|
  }

  /** One interleaving per folder, each a complete run of that folder's download. */
  ghost predicate Scheduled(work: seq<Work>, schedule: seq<seq<Announce.Action>>)
  {
    |schedule| == |work| && forall k | 0 <= k < |work| :: Announce.Complete(ConfigOf(work[k]), schedule[k])
  }

  ghost predicate WithinBound(sents: seq<seq<seq<nat>>>)
  {
    forall sent, b | sent in sents && b in sent :: 0 < |b| <= 22
  }

  lemma AppendedMessage(w: Work, indices: seq<nat>, i: nat)
    requires i < |w.created| && forall x | x in indices :: x < |w.created|
    ensures MessagesAt(w, indices + [i]) == MessagesAt(w, indices) + [ToCreated(w.folder, w.created[i])]
  {
  }

  lemma SentBatch(w: Work, sent: seq<seq<nat>>, load: seq<nat>)
    requires InRange(w, sent) && forall x | x in load :: x < |w.created|
    ensures InRange(w, Announce.Emit(sent, load))
    ensures Batches(w, Announce.Emit(sent, load))
         == Batches(w, sent) + if load == [] then [] else [MessagesCreated(MessagesAt(w, load))]
  {
    if load != [] {
      var now := sent + [load];
      forall k | 0 <= k < |now|
        ensures Batches(w, now)[k] == (Batches(w, sent) + [MessagesCreated(MessagesAt(w, load))])[k]
      {
      }
    }
  }

  lemma {:induction false} CycleOutcome(m: Memory, folders: seq<Folder>, sents: seq<seq<seq<nat>>>, gone: seq<string>)
    requires Delivered(ScanAll(m, folders).work, sents) && Missing(m.messages, ScanAll(m, folders), gone)
    ensures var c := Cycle(Reachable(folders), sents, gone); var scan := ScanAll(m, folders);
      && Possible(m, c)
      && OutOf(m, c) == scan.out + Announcements(scan.work, sents) + Deletions(gone)
      && After(m, c) == Memory((m.messages + scan.seen) - ToSet(gone), scan.types)
  {
  }

  /** The report after some bodies arrived; a reporter that is not live counts none. */
  function ReportAfter(live: bool, r: Report, clock: seq<int>): Report
  {
    if live then AdvancedBy(r, clock) else r
  }

  lemma {:induction false} ReportsCompose(live: bool, r: Report, clock: seq<int>, times: seq<int>)
    ensures ReportAfter(live, ReportAfter(live, r, clock), times) == ReportAfter(live, r, clock + times)
  {
    AdvancesCompose(r, clock, times);
  }

  /** What the announcements of some folders come to: all their messages once, and a clock reading for each. */
  ghost predicate Announced(work: seq<Work>, sents: seq<seq<seq<nat>>>, clock: seq<int>)
  {
    Delivered(work, sents) && WithinBound(sents) && |clock| == TotalOf(work)
  }

  lemma {:induction false} AnnouncedOneMore(work: seq<Work>, k: nat, sents: seq<seq<seq<nat>>>, clock: seq<int>,
                                            sent: seq<seq<nat>>, times: seq<int>)
    requires k < |work| && Announced(work[..k], sents, clock)
    requires InRange(work[k], sent) && Announce.ExactlyOnce(ParsesOf(work[k].created), sent)
    requires WithinBound([sent]) && |times| == |work[k].created|
    ensures Announced(work[..k + 1], sents + [sent], clock + times)
    ensures Announcements(work[..k + 1], sents + [sent]) == Announcements(work[..k], sents) + Batches(work[k], sent)
  {
    assert work[..k + 1][..k] == work[..k] && (sents + [sent])[..k] == sents;
  }

  /**
   What the goroutines downloading one folder share and hold: the pending batch,
   and the batch each of them took. s is the protocol state they are in.
   */
  class Download {
    const w: Work
    var pending: seq<Created>
    var loads: seq<seq<Created>>
    var last: seq<Created>
    var out: seq<Update>    // what these goroutines sent on the updates channel
    ghost var s: Announce.State

    ghost predicate Valid()
      reads this
    {
      && Announce.Inv(ConfigOf(w), s) && Announce.Indexed(ConfigOf(w), s)
      && |s.phases| == |loads| == |w.created|
      && pending == MessagesAt(w, s.pending)
      && out == Batches(w, s.sent)
      && (forall i | 0 <= i < |loads| && s.phases[i].Carrying? :: loads[i] == MessagesAt(w, s.phases[i].load))
      && (s.main.LastCarrying? ==> last == MessagesAt(w, s.main.load))
    }

    constructor (w: Work)
      ensures Valid() && this.w == w && s == Announce.Init(ConfigOf(w))
    {
      this.w, pending, loads, last, out := w, [], seq(|w.created|, _ => []), [], [];
      s := Announce.Init(ConfigOf(w));
      new;
      Announce.InitInv(ConfigOf(w));
      Announce.InvIndexed(ConfigOf(w), s);
    }

    ghost method Advance(a: Announce.Action)
      requires Announce.Inv(ConfigOf(w), s) && Announce.Enabled(ConfigOf(w), s, a)
      modifies this`s
      ensures s == Announce.Step(ConfigOf(w), old(s), a)
      ensures Announce.Inv(ConfigOf(w), s) && Announce.Indexed(ConfigOf(w), s)
    {
      Announce.StepInv(ConfigOf(w), s, a);
      s := Announce.Step(ConfigOf(w), s, a);
      Announce.InvIndexed(ConfigOf(w), s);
    }

    /** A step that touches no batch: starting a goroutine, or counting a body. */
    method Proceed(a: Announce.Action)
      requires Valid() && Announce.Enabled(ConfigOf(w), s, a) && (a.Spawn? || a.Advance?)
      modifies this
      ensures Valid() && s == Announce.Step(ConfigOf(w), old(s), a)
    {
      Advance(a);
    }

    method Append(i: nat)
      requires Valid() && Announce.Enabled(ConfigOf(w), s, Announce.Append(i))
      modifies this
      ensures Valid() && s == Announce.Step(ConfigOf(w), old(s), Announce.Append(i))
    {
      AppendedMessage(w, s.pending, i);
      var summary := w.created[i];
      Advance(Announce.Append(i));
      if summary.parses {
        pending := pending + [ToCreated(w.folder, summary)];
      }
    }

    method Take(i: nat)
      requires Valid() && Announce.Enabled(ConfigOf(w), s, Announce.Take(i))
      modifies this
      ensures Valid() && s == Announce.Step(ConfigOf(w), old(s), Announce.Take(i))
    {
      Advance(Announce.Take(i));
      loads := loads[i := pending];
      pending := [];
    }

    method Send(i: nat)
      requires Valid() && Announce.Enabled(ConfigOf(w), s, Announce.Send(i))
      modifies this
      ensures Valid() && s == Announce.Step(ConfigOf(w), old(s), Announce.Send(i))
    {
      SentBatch(w, s.sent, s.phases[i].load);
      if |loads[i]| > 0 {
        out := out + [MessagesCreated(loads[i])];
      }
      Advance(Announce.Send(i));
    }

    method LastTake()
      requires Valid() && Announce.Enabled(ConfigOf(w), s, Announce.LastTake)
      modifies this
      ensures Valid() && s == Announce.Step(ConfigOf(w), old(s), Announce.LastTake)
    {
      Advance(Announce.LastTake);
      last, pending := pending, [];
    }

    method LastSend()
      requires Valid() && Announce.Enabled(ConfigOf(w), s, Announce.LastSend)
      modifies this
      ensures Valid() && s == Announce.Step(ConfigOf(w), old(s), Announce.LastSend)
    {
      SentBatch(w, s.sent, s.main.load);
      if |last| > 0 {
        out := out + [MessagesCreated(last)];
      }
      Advance(Announce.LastSend);
    }

    /** The next atomic step of some goroutine. */
    method Perform(todo: seq<Announce.Action>)
      requires Valid() && todo != [] && Announce.Legal(ConfigOf(w), s, todo)
      modifies this
      ensures Valid() && Announce.Legal(ConfigOf(w), s, todo[1..])
      ensures Announce.Exec(ConfigOf(w), s, todo[1..]) == Announce.Exec(ConfigOf(w), old(s), todo)
      ensures s.advanced == old(s.advanced) + if todo[0].Advance? then 1 else 0
    {
      match todo[0] {
        case Append(i) => Append(i);
        case Take(i) => Take(i);
        case Send(i) => Send(i);
        case LastTake => LastTake();
        case LastSend => LastSend();
        case _ => Proceed(todo[0]);
      }
    }

    /** The interleaving the scheduler chose, to its end; clock is when each body arrived. */
    method Run(interleaving: seq<Announce.Action>, progress: ProgressReporter) returns (ghost clock: seq<int>)
      requires Valid() && Announce.Legal(ConfigOf(w), s, interleaving)
      requires progress.Valid()
      modifies this, progress, progress.log
      ensures Valid() && s == Announce.Exec(ConfigOf(w), old(s), interleaving)
      ensures progress.Valid() && |clock| == s.advanced - old(s.advanced)
      ensures progress.View()
           == ReportAfter(progress.live, old(progress.View()), clock)
    {
      clock := [];
      var todo := interleaving;
      while todo != []
        invariant Valid() && Announce.Legal(ConfigOf(w), s, todo)
        invariant Announce.Exec(ConfigOf(w), s, todo) == Announce.Exec(ConfigOf(w), old(s), interleaving)
        invariant progress.Valid() && |clock| == s.advanced - old(s.advanced)
        invariant progress.View()
               == ReportAfter(progress.live, old(progress.View()), clock)
        decreases |todo|
      {
        if todo[0].Advance? {
          var now: int := *;
          progress.Advance(now);
          assert (clock + [now])[..|clock|] == clock;
          clock := clock + [now];
        }
        Perform(todo);
        todo := todo[1..];
      }
    }
  }

  class MailConnector {
    const handlers: Handlers
    const log: EventLog
    var messages: map<string, MessageState>
    var mailboxTypes: map<string, string>
    var updates: seq<Update>    // everything sent on the updates channel

    constructor (handlers: Handlers, log: EventLog)
      ensures this.handlers == handlers && this.log == log
      ensures Memo() == Memory(map[], map[]) && updates == []
    {
      this.handlers, this.log := handlers, log;
      messages, mailboxTypes, updates := map[], map[], [];
    }

    function Memo(): Memory
      reads this
    {
      Memory(messages, mailboxTypes)
    }

    method RememberMailboxType(box: Mailbox)
      modifies this`mailboxTypes
      ensures mailboxTypes == Remember(old(mailboxTypes), box)
      ensures box.kind == "" ==> mailboxTypes == old(mailboxTypes)
      ensures box.kind != "" ==> mailboxTypes == old(mailboxTypes)[box.id := box.kind]
    {
      if box.kind == "" {
        return;
      }
      mailboxTypes := mailboxTypes[box.id := box.kind];
    }

    /** Reconciles one listing with what is remembered. */
    method Reconcile(summaries: seq<Summary>, seen: map<string, MessageState>)
      returns (created: seq<Summary>, seen': map<string, MessageState>)
      modifies this`updates
      ensures created == NewIn(messages, summaries) && seen' == SeenIn(seen, summaries)
      ensures updates == old(updates) + ChangedIn(messages, summaries)
    {
      created, seen' := [], seen;
      for i := 0 to |summaries|
        invariant created == NewIn(messages, summaries[..i])
        invariant seen' == SeenIn(seen, summaries[..i])
        invariant updates == old(updates) + ChangedIn(messages, summaries[..i])
      {
        var summary := summaries[i];
        assert summaries[..i + 1][..i] == summaries[..i];
        seen' := seen'[summary.id := summary.state];
        if summary.id !in messages {
          created := created + [summary];
        } else {
          var same := SameAs(messages[summary.id], summary.state);
          if !same {
            updates := updates
              + [MessageUpdated(summary.id, summary.state.mailboxIDs, FlagsOf(summary.state))];
          }
        }
      }
      assert summaries[..|summaries|] == summaries;
    }

    /** Announces one folder and reconciles what it holds; None when listing it failed. */
    method ScanMailbox(folder: Folder, seen: map<string, MessageState>, ghost scan: Scan, ghost before: seq<Update>)
      returns (created: Option<seq<Summary>>, seen': map<string, MessageState>)
      requires scan.types == mailboxTypes && scan.seen == seen && updates == before + scan.out
      modifies this`updates, this`mailboxTypes
      ensures var next := ScanFolder(messages, scan, folder);
        && mailboxTypes == next.types && seen' == next.seen && updates == before + next.out
      ensures created == if folder.answer.None? then None else Some(NewIn(messages, folder.answer.value))
    {
      var box := folder.box;
      if box.id !in mailboxTypes {
        updates := updates + [FolderCreated(box.id)];
      }
      RememberMailboxType(box);
      if folder.answer.None? {
        return None, seen;
      }
      var found;
      found, seen' := Reconcile(folder.answer.value, seen);
      created := Some(found);
    }

    /** Fetches and announces one folder's new messages, in the interleaving the scheduler chose. */
    method AnnounceNewMessages(w: Work, interleaving: seq<Announce.Action>, progress: ProgressReporter)
      returns (ghost sent: seq<seq<nat>>, ghost clock: seq<int>)
      requires Announce.Complete(ConfigOf(w), interleaving)
      requires progress.Valid() && progress.log == log
      modifies this`updates, progress, log
      ensures InRange(w, sent) && updates == old(updates) + Batches(w, sent)
      ensures Announce.ExactlyOnce(ParsesOf(w.created), sent)
      ensures WithinBound([sent])
      ensures progress.Valid() && |clock| == |w.created|
      ensures progress.View()
           == ReportAfter(progress.live, old(progress.View()), clock)
    {
      sent, clock := [], [];
      if |w.created| == 0 {
        return;
      }
      Announce.EveryMessageOnce(ConfigOf(w), interleaving);
      Announce.ExecWithin(ConfigOf(w), interleaving);
      var group := new Download(w);
      clock := group.Run(interleaving, progress);
      updates := updates + group.out;
      sent := group.s.sent;
    }

    /** Announces the next folder; before and start are the updates and the report before the first. */
    method AnnounceNext(work: seq<Work>, k: nat, interleaving: seq<Announce.Action>, progress: ProgressReporter,
                        ghost before: seq<Update>, ghost start: Report,
                        ghost sents: seq<seq<seq<nat>>>, ghost clock: seq<int>)
      returns (ghost sents': seq<seq<seq<nat>>>, ghost clock': seq<int>)
      requires k < |work| && Announce.Complete(ConfigOf(work[k]), interleaving)
      requires progress.Valid() && progress.log == log && Announced(work[..k], sents, clock)
      requires updates == before + Announcements(work[..k], sents)
      requires progress.View() == ReportAfter(progress.live, start, clock)
      modifies this`updates, progress, log
      ensures progress.Valid() && Announced(work[..k + 1], sents', clock')
      ensures updates == before + Announcements(work[..k + 1], sents')
      ensures progress.View() == ReportAfter(progress.live, start, clock')
    {
      ghost var sent, times;
      sent, times := AnnounceNewMessages(work[k], interleaving, progress);
      ReportsCompose(progress.live, start, clock, times);
      AnnouncedOneMore(work, k, sents, clock, sent, times);
      sents', clock' := sents + [sent], clock + times;
    }

    /** Announces the new messages of one folder after the other. */
    method AnnounceAll(work: seq<Work>, schedule: seq<seq<Announce.Action>>, progress: ProgressReporter)
      returns (ghost sents: seq<seq<seq<nat>>>, ghost clock: seq<int>)
      requires Scheduled(work, schedule)
      requires progress.Valid() && progress.log == log
      modifies this`updates, progress, log
      ensures Delivered(work, sents) && WithinBound(sents)
      ensures updates == old(updates) + Announcements(work, sents)
      ensures progress.Valid() && |clock| == TotalOf(work)
      ensures progress.View()
           == ReportAfter(progress.live, old(progress.View()), clock)
    {
      ghost var start := progress.View();
      ghost var before := updates;
      sents, clock := [], [];
      for k := 0 to |work|
        invariant progress.Valid() && Announced(work[..k], sents, clock)
        invariant updates == before + Announcements(work[..k], sents)
        invariant progress.View() == ReportAfter(progress.live, start, clock)
      {
        sents, clock := AnnounceNext(work, k, schedule[k], progress, before, start, sents, clock);
      }
      assert work[..|work|] == work;
    }

    /** Downloads every folder's new messages, reporting against the total across all of them. */
    method DownloadNewMessages(work: seq<Work>, requested: bool, schedule: seq<seq<Announce.Action>>)
      returns (ghost sents: seq<seq<seq<nat>>>, ghost clock: seq<int>)
      requires Scheduled(work, schedule)
      modifies this`updates, log
      ensures Delivered(work, sents) && WithinBound(sents)
      ensures updates == old(updates) + Announcements(work, sents)
      ensures |clock| == TotalOf(work)
      ensures log.events == old(log.events) + EventsOf(handlers, TotalOf(work), requested, clock, "")
    {
      var total := 0;
      for k := 0 to |work|
        invariant total == TotalOf(work[..k])
        invariant updates == old(updates) && log.events == old(log.events)
      {
        assert work[..k + 1][..k] == work[..k];
        total := total + |work[k].created|;
      }
      assert work[..|work|] == work;
      var progress := new ProgressReporter(handlers, log, total, requested);
      sents, clock := AnnounceAll(work, schedule, progress);
      progress.Finish("");
    }

    method RememberMessages(seen: map<string, MessageState>)
      modifies this`messages
      ensures messages == old(messages) + seen
    {
      var todo := seen.Keys;
      while todo != {}
        invariant todo <= seen.Keys
        invariant messages.Keys == old(messages).Keys + (seen.Keys - todo)
        invariant forall id | id in messages ::
          messages[id] == if id in seen && id !in todo then seen[id] else old(messages)[id]
      {
        var id :| id in todo;
        messages := messages[id := seen[id]];
        todo := todo - {id};
      }
    }

    method MissingMessages(seen: map<string, MessageState>) returns (missing: seq<string>)
      ensures Distinct(missing) && ToSet(missing) == messages.Keys - seen.Keys
    {
      missing := [];
      var todo := messages.Keys;
      while todo != {}
        invariant todo <= messages.Keys
        invariant Distinct(missing) && ToSet(missing) == messages.Keys - todo - seen.Keys
      {
        var id :| id in todo;
        if id !in seen {
          assert id !in ToSet(missing);
          assert ToSet(missing + [id]) == ToSet(missing) + {id};
          missing := missing + [id];
        }
        todo := todo - {id};
      }
    }

    method ForgetMessages(ids: seq<string>)
      modifies this`messages
      ensures messages == old(messages) - ToSet(ids)
    {
      for i := 0 to |ids|
        invariant messages == old(messages) - ToSet(ids[..i])
      {
        messages := messages - {ids[i]};
      }
      assert ids[..|ids|] == ids;
    }

    /** Tells the mail server about messages that are no longer in the account. */
    method ForgetDeleted(seen: map<string, MessageState>) returns (missing: seq<string>)
      modifies this`messages, this`updates
      ensures Distinct(missing) && ToSet(missing) == old(messages).Keys - seen.Keys
      ensures updates == old(updates) + Deletions(missing)
      ensures messages == old(messages) - ToSet(missing)
    {
      missing := MissingMessages(seen);
      for i := 0 to |missing|
        invariant messages == old(messages)
        invariant updates == old(updates) + Deletions(missing[..i])
      {
        updates := updates + [MessageDeleted(missing[i])];
      }
      assert missing[..|missing|] == missing;
      ForgetMessages(missing);
    }

    /** Remembers what was seen, and drops the rest only when every folder answered. */
    method Settle(seen: map<string, MessageState>, complete: bool) returns (gone: seq<string>)
      modifies this`messages, this`updates
      ensures Distinct(gone) && ToSet(gone) == if complete then old(messages).Keys - seen.Keys else {}
      ensures updates == old(updates) + Deletions(gone)
      ensures messages == (old(messages) + seen) - ToSet(gone)
    {
      RememberMessages(seen);
      gone := [];
      assert (old(messages) + seen).Keys - seen.Keys == old(messages).Keys - seen.Keys;
      if complete {
        gone := ForgetDeleted(seen);
      }
    }

    method ReportUnlisted(requested: bool)
      modifies log
      ensures log.events == old(log.events) + EventsOf(handlers, 0, requested, [], "list_mailboxes")
    {
      var progress := new ProgressReporter(handlers, log, 0, requested);
      progress.Finish("list_mailboxes");
    }

    /** Lists every folder before any body is downloaded. */
    method ScanMailboxes(folders: seq<Folder>)
      returns (work: seq<Work>, seen: map<string, MessageState>, complete: bool)
      modifies this`updates, this`mailboxTypes
      ensures var scan := ScanAll(old(Memo()), folders);
        && mailboxTypes == scan.types && updates == old(updates) + scan.out
        && work == scan.work && seen == scan.seen && complete == scan.complete
    {
      ghost var memory, before := Memo(), updates;
      ghost var scan := Scan(mailboxTypes, [], [], map[], true);
      work, seen, complete := [], map[], true;
      for k := 0 to |folders|
        invariant scan == ScanAll(memory, folders[..k])
        invariant mailboxTypes == scan.types && updates == before + scan.out
        invariant seen == scan.seen && work == scan.work && complete == scan.complete
      {
        assert folders[..k + 1][..k] == folders[..k];
        var created;
        created, seen := ScanMailbox(folders[k], seen, scan, before);
        scan := ScanFolder(messages, scan, folders[k]);
        if created.None? {
          complete := false;
        } else if |created.value| > 0 {
          work := work + [Work(folders[k].box.id, created.value)];
        }
      }
      assert folders[..|folders|] == folders;
    }

    /**
     One Sync. schedule is the interleaving of each folder's download; cycle
     reports what the environment decided, so the new memory and the updates
     sent are After and OutOf of the old memory.
     */
    method Sync(account: Account, requested: bool, schedule: seq<seq<Announce.Action>>)
      returns (ok: bool, ghost cycle: Cycle, ghost clock: seq<int>)
      requires account.Reachable? ==> Scheduled(ScanAll(Memo(), account.folders).work, schedule)
      modifies this, log
      ensures ok == account.Reachable?
      ensures cycle.account == account && Possible(old(Memo()), cycle) && WithinBound(cycle.sents)
      ensures updates == old(updates) + OutOf(old(Memo()), cycle)
      ensures Memo() == After(old(Memo()), cycle)
      ensures ok ==>
        var total := TotalOf(ScanAll(old(Memo()), account.folders).work);
        |clock| == total && log.events == old(log.events) + EventsOf(handlers, total, requested, clock, "")
      ensures !ok ==> log.events == old(log.events) + EventsOf(handlers, 0, requested, [], "list_mailboxes")
    {
      clock := [];
      if account.Unreachable? {
        ReportUnlisted(requested);
        return false, Cycle(account, [], []), [];
      }
      var work, seen, complete := ScanMailboxes(account.folders);
      ghost var sents;
      sents, clock := DownloadNewMessages(work, requested, schedule);
      var gone := Settle(seen, complete);
      CycleOutcome(old(Memo()), account.folders, sents, gone);
      ok, cycle := true, Cycle(account, sents, gone);
      ghost var scanned := ScanAll(old(Memo()), account.folders).out;
      RegroupThree(old(updates), scanned, Announcements(work, sents), Deletions(gone));
    }
  }
}
