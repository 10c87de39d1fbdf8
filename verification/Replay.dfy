/**
 Replaying what the connector emits. The mirror is the mail server's copy of the
 account; it applies every update in order, starting from nothing.
 */
module Replay {
  import opened Bytes
  import opened Snapshot
  import opened SyncModel
  import Announce

  type Mirror = map<string, Entry>

  /** A message created again in another folder is then in both. */
  function ApplyCreated(m: Mirror, c: Created): Mirror
  {
    m[c.id := if c.id in m then Entry(m[c.id].folders + {c.folder}, m[c.id].flags) else Entry({c.folder}, c.flags)]
  }

  function ApplyBatch(m: Mirror, batch: seq<Created>): Mirror
    decreases |batch|
  {
    if batch == [] then m else ApplyBatch(ApplyCreated(m, batch[0]), batch[1..])
  }

  function Apply(m: Mirror, u: Update): Mirror
  {
    match u
    case FolderCreated(_) => m
    case MessagesCreated(batch) => ApplyBatch(m, batch)
    case MessageUpdated(id, folders, flags) => if id in m then m[id := Entry(ToSet(folders), flags)] else m
    case MessageDeleted(id) => m - {id}
  }

  function ReplayAll(m: Mirror, us: seq<Update>): Mirror
    decreases |us|
  {
    if us == [] then m else ReplayAll(Apply(m, us[0]), us[1..])
  }

  lemma {:induction false} ReplayAppend(m: Mirror, us: seq<Update>, vs: seq<Update>)
    ensures ReplayAll(m, us + vs) == ReplayAll(ReplayAll(m, us), vs)
    decreases |us|
  {
    if us == [] {
      assert us + vs == vs;
    } else {
      assert (us + vs)[1..] == us[1..] + vs;
      ReplayAppend(Apply(m, us[0]), us[1..], vs);
    }
  }

  // ---------------------------------------------------------------------
  // One message at a time
  // ---------------------------------------------------------------------

  function EntryOf(m: Mirror, id: string): Option<Entry>
  {
    if id in m then Some(m[id]) else None
  }

  predicate Touches(u: Update, id: string)
  {
    match u
    case FolderCreated(_) => false
    case MessagesCreated(batch) => exists c :: c in batch && c.id == id
    case MessageUpdated(other, _, _) => other == id
    case MessageDeleted(other) => other == id
  }

  lemma {:induction false} BatchUntouched(m: Mirror, batch: seq<Created>, id: string)
    requires forall c | c in batch :: c.id != id
    ensures EntryOf(ApplyBatch(m, batch), id) == EntryOf(m, id)
    decreases |batch|
  {
    if batch != [] {
      BatchUntouched(ApplyCreated(m, batch[0]), batch[1..], id);
    }
  }

  lemma {:induction false} Untouched(m: Mirror, us: seq<Update>, id: string)
    requires forall u | u in us :: !Touches(u, id)
    ensures EntryOf(ReplayAll(m, us), id) == EntryOf(m, id)
    decreases |us|
  {
    if us != [] {
      assert !Touches(us[0], id);
      if us[0].MessagesCreated? {
        BatchUntouched(m, us[0].batch, id);
      }
      Untouched(Apply(m, us[0]), us[1..], id);
    }
  }

  /** What creations of one message leave behind: all their folders, and the flags of the first. */
  function Gathered(e: Option<Entry>, folders: set<string>, flags: set<Flag>): Option<Entry>
  {
    if e.Some? then Some(Entry(e.value.folders + folders, e.value.flags))
    else if folders == {} then None
    else Some(Entry(folders, flags))
  }

  lemma GatherNothing(e: Option<Entry>, flags: set<Flag>)
    ensures Gathered(e, {}, flags) == e
  {
    if e.Some? {
      assert e.value.folders + {} == e.value.folders;
    }
  }

  /** Gathering in two goes is gathering at once. */
  lemma GatherTwice(e: Option<Entry>, a: set<string>, b: set<string>, first: set<Flag>, second: set<Flag>)
    ensures Gathered(Gathered(e, a, first), b, second) == Gathered(e, a + b, if a == {} then second else first)
  {
    if e.Some? {
      assert e.value.folders + a + b == e.value.folders + (a + b);
    } else if a == {} {
      assert a + b == b;
    }
  }

  function FoldersIn(batch: seq<Created>, id: string): set<string>
  {
    set c | c in batch && c.id == id :: c.folder
  }

  /** The flags the first creation of a message carries. */
  function FirstFlagsIn(batch: seq<Created>, id: string): set<Flag>
  {
    if batch == [] then {}
    else if batch[0].id == id then batch[0].flags
    else FirstFlagsIn(batch[1..], id)
  }

  lemma FoldersSplit(batch: seq<Created>, id: string)
    requires batch != []
    ensures FoldersIn(batch, id)
         == (if batch[0].id == id then {batch[0].folder} else {}) + FoldersIn(batch[1..], id)
  {
    assert forall c :: c in batch <==> c == batch[0] || c in batch[1..];
  }

  lemma {:induction false} BatchGathers(m: Mirror, batch: seq<Created>, id: string)
    ensures EntryOf(ApplyBatch(m, batch), id)
         == Gathered(EntryOf(m, id), FoldersIn(batch, id), FirstFlagsIn(batch, id))
    decreases |batch|
  {
    if batch == [] {
      assert FoldersIn(batch, id) == {};
      GatherNothing(EntryOf(m, id), {});
    } else {
      var first := if batch[0].id == id then {batch[0].folder} else {};
      BatchGathers(ApplyCreated(m, batch[0]), batch[1..], id);
      FoldersSplit(batch, id);
      GatherTwice(EntryOf(m, id), first, FoldersIn(batch[1..], id), batch[0].flags, FirstFlagsIn(batch[1..], id));
      GatherNothing(EntryOf(m, id), batch[0].flags);
    }
  }

  predicate OnlyCreates(us: seq<Update>)
  {
    forall u | u in us :: u.MessagesCreated?
  }

  /** Some batch announces c. */
  ghost predicate Announces(us: seq<Update>, c: Created)
  {
    exists u :: u in us && u.MessagesCreated? && c in u.batch
  }

  /** The folders some batch announces a message in. */
  function FoldersFor(us: seq<Update>, id: string): set<string>
  {
    set u, c | u in us && u.MessagesCreated? && c in u.batch && c.id == id :: c.folder
  }

  /** The flags the first creation of a message carries, over all batches. */
  function FirstFlags(us: seq<Update>, id: string): set<Flag>
  {
    if us == [] then {}
    else if us[0].MessagesCreated? && FoldersIn(us[0].batch, id) != {} then FirstFlagsIn(us[0].batch, id)
    else FirstFlags(us[1..], id)
  }

  lemma FoldersForSplit(us: seq<Update>, id: string)
    requires us != [] && us[0].MessagesCreated?
    ensures FoldersFor(us, id) == FoldersIn(us[0].batch, id) + FoldersFor(us[1..], id)
  {
    assert forall u :: u in us <==> u == us[0] || u in us[1..];
  }

  lemma {:induction false} CreatesGather(m: Mirror, us: seq<Update>, id: string)
    requires OnlyCreates(us)
    ensures EntryOf(ReplayAll(m, us), id) == Gathered(EntryOf(m, id), FoldersFor(us, id), FirstFlags(us, id))
    decreases |us|
  {
    if us == [] {
      assert FoldersFor(us, id) == {};
      GatherNothing(EntryOf(m, id), {});
    } else {
      assert us[0].MessagesCreated?;
      var batch, rest := us[0].batch, us[1..];
      BatchGathers(m, batch, id);
      CreatesGather(Apply(m, us[0]), rest, id);
      FoldersForSplit(us, id);
      GatherTwice(EntryOf(m, id), FoldersIn(batch, id), FoldersFor(rest, id), FirstFlagsIn(batch, id),
                  FirstFlags(rest, id));
    }
  }

  // ---------------------------------------------------------------------
  // The three stages of a sync, at one message
  // ---------------------------------------------------------------------

  /** The mirror shows exactly what the connector remembers of this message. */
  ghost predicate Mirrored(m: Mirror, messages: map<string, MessageState>, id: string)
  {
    EntryOf(m, id) == if id in messages then Some(View(messages[id])) else None
  }

  /** The last listing that counts as changed from what is remembered. */
  function Changed(known: MessageState, sighted: seq<Summary>): Option<MessageState>
  {
    if sighted == [] then None
    else
      var last := sighted[|sighted| - 1].state;
      if !SameState(known, last) then Some(last) else Changed(known, sighted[..|sighted| - 1])
  }

  lemma {:induction false} ChangedAppend(known: MessageState, a: seq<Summary>, b: seq<Summary>)
    ensures Changed(known, a + b) == if Changed(known, b).Some? then Changed(known, b) else Changed(known, a)
  {
    if b == [] {
      assert a + b == a;
    } else {
      assert (a + b)[..|a + b| - 1] == a + b[..|b| - 1];
      ChangedAppend(known, a, b[..|b| - 1]);
    }
  }

  /** The updates of a message that is known, as the mirror takes them. */
  function Updated(e: Option<Entry>, messages: map<string, MessageState>, id: string, sighted: seq<Summary>)
    : Option<Entry>
  {
    if e.Some? && id in messages && Changed(messages[id], sighted).Some?
    then Some(View(Changed(messages[id], sighted).value)) else e
  }

  lemma UpdatedTwice(e: Option<Entry>, messages: map<string, MessageState>, id: string,
                     a: seq<Summary>, b: seq<Summary>)
    ensures Updated(Updated(e, messages, id, a), messages, id, b) == Updated(e, messages, id, a + b)
  {
    if id in messages {
      ChangedAppend(messages[id], a, b);
    }
  }

  lemma {:induction false} ChangesReplay(m: Mirror, messages: map<string, MessageState>,
                                         summaries: seq<Summary>, id: string)
    ensures EntryOf(ReplayAll(m, ChangedIn(messages, summaries)), id)
         == Updated(EntryOf(m, id), messages, id, SightingsIn(summaries, id))
  {
    if summaries != [] {
      var front, last := summaries[..|summaries| - 1], summaries[|summaries| - 1];
      ChangesReplay(m, messages, front, id);
      var before := ChangedIn(messages, front);
      var sighted := if last.id == id then [last] else [];
      UpdatedTwice(EntryOf(m, id), messages, id, SightingsIn(front, id), sighted);
      if last.id in messages && !SameState(messages[last.id], last.state) {
        var u := MessageUpdated(last.id, last.state.mailboxIDs, FlagsOf(last.state));
        ReplayAppend(m, before, [u]);
        assert ReplayAll(ReplayAll(m, before), [u]) == Apply(ReplayAll(m, before), u);
      } else {
        assert before + [] == before;
      }
    }
  }

  /**
   Replaying a scan shows the last listing that counts as changed; without one, or
   for a message that is not known, it leaves the mirror's entry alone.
   */
  lemma {:induction false} ScanReplay(m: Mirror, mem: Memory, folders: seq<Folder>, id: string)
    ensures EntryOf(ReplayAll(m, ScanAll(mem, folders).out), id)
         == Updated(EntryOf(m, id), mem.messages, id, Sightings(folders, id))
  {
    if folders != [] {
      var n := |folders| - 1;
      var front, last := folders[..n], folders[n];
      ScanReplay(m, mem, front, id);
      var scan := ScanAll(mem, front);
      var box := if last.box.id in scan.types then [] else [FolderCreated(last.box.id)];
      ReplayAppend(m, scan.out, box);
      Untouched(ReplayAll(m, scan.out), box, id);
      if last.answer.Some? {
        var summaries := last.answer.value;
        ReplayAppend(m, scan.out + box, ChangedIn(mem.messages, summaries));
        ChangesReplay(ReplayAll(m, scan.out + box), mem.messages, summaries, id);
        UpdatedTwice(EntryOf(m, id), mem.messages, id, Sightings(front, id), SightingsIn(summaries, id));
      } else {
        assert Sightings(folders, id) == Sightings(front, id);
      }
    }
  }

  /** The folders that list a message as one that parses. */
  ghost function ServingFolders(folders: seq<Folder>, id: string): set<string>
  {
    set k, s | 0 <= k < |folders| && folders[k].answer.Some? && s in folders[k].answer.value
               && s.id == id && s.parses :: folders[k].box.id
  }

  lemma BatchedIsDue(w: Work, sent: seq<seq<nat>>, c: Created)
    requires InRange(w, sent) && Announce.ExactlyOnce(ParsesOf(w.created), sent)
    requires Announces(Batches(w, sent), c)
    ensures DueIn(w, c)
  {
    var u :| u in Batches(w, sent) && u.MessagesCreated? && c in u.batch;
    var k :| 0 <= k < |sent| && u == Batches(w, sent)[k];
    var j :| 0 <= j < |sent[k]| && c == MessagesAt(w, sent[k])[j];
    var i := sent[k][j];
    assert i in sent[k] && sent[k] in sent;
    Announce.InConcat(sent, i);
    assert Announce.Copies(Concat(sent), i) > 0;
    assert w.created[i] in w.created && w.created[i].parses;
  }

  lemma DueIsBatched(w: Work, sent: seq<seq<nat>>, c: Created)
    requires InRange(w, sent) && Announce.ExactlyOnce(ParsesOf(w.created), sent)
    requires DueIn(w, c)
    ensures Announces(Batches(w, sent), c)
  {
    var s :| s in w.created && s.parses && c == ToCreated(w.folder, s);
    var i :| 0 <= i < |w.created| && w.created[i] == s;
    assert Announce.Copies(Concat(sent), i) == 1;
    Announce.InConcat(sent, i);
    var b :| b in sent && i in b;
    var k :| 0 <= k < |sent| && sent[k] == b;
    var j :| 0 <= j < |b| && b[j] == i;
    assert Batches(w, sent)[k] in Batches(w, sent);
    assert MessagesAt(w, b)[j] == c;
  }

  /** c is what some new message of a folder's work becomes. */
  ghost predicate DueIn(w: Work, c: Created)
  {
    exists s :: s in w.created && s.parses && c == ToCreated(w.folder, s)
  }

  ghost predicate Due(work: seq<Work>, c: Created)
  {
    exists w :: w in work && DueIn(w, c)
  }

  /** What the batches of one folder announce. */
  lemma BatchesExactly(w: Work, sent: seq<seq<nat>>, c: Created)
    requires InRange(w, sent) && Announce.ExactlyOnce(ParsesOf(w.created), sent)
    ensures Announces(Batches(w, sent), c) <==> DueIn(w, c)
  {
    if Announces(Batches(w, sent), c) {
      BatchedIsDue(w, sent, c);
    }
    if DueIn(w, c) {
      DueIsBatched(w, sent, c);
    }
  }

  lemma AnnouncesEither(us: seq<Update>, vs: seq<Update>, c: Created)
    ensures Announces(us + vs, c) <==> Announces(us, c) || Announces(vs, c)
  {
    if u :| u in us + vs && u.MessagesCreated? && c in u.batch {
      assert u in us || u in vs;
    }
    if u :| u in us && u.MessagesCreated? && c in u.batch {
      assert u in us + vs;
    }
    if u :| u in vs && u.MessagesCreated? && c in u.batch {
      assert u in us + vs;
    }
  }

  lemma DueEither(front: seq<Work>, last: Work, c: Created)
    ensures Due(front + [last], c) <==> Due(front, c) || DueIn(last, c)
  {
    assert last in front + [last];
    if w :| w in front && DueIn(w, c) {
      assert w in front + [last];
    }
  }

  lemma {:induction false} AnnouncementsOnlyCreate(work: seq<Work>, sents: seq<seq<seq<nat>>>)
    requires |sents| == |work| && forall k | 0 <= k < |work| :: InRange(work[k], sents[k])
    ensures OnlyCreates(Announcements(work, sents))
  {
    if work != [] {
      var n := |work| - 1;
      AnnouncementsOnlyCreate(work[..n], sents[..n]);
      BatchesOnlyCreate(work[n], sents[n]);
    }
  }

  /** What the announcements of all folders announce. */
  lemma {:induction false} AnnouncementsExactly(work: seq<Work>, sents: seq<seq<seq<nat>>>, c: Created)
    requires Delivered(work, sents)
    ensures Announces(Announcements(work, sents), c) <==> Due(work, c)
  {
    if work != [] {
      var n := |work| - 1;
      var front, last := work[..n], work[n];
      AnnouncementsExactly(front, sents[..n], c);
      BatchesExactly(last, sents[n], c);
      AnnouncesEither(Announcements(front, sents[..n]), Batches(last, sents[n]), c);
      DueEither(front, last, c);
      assert front + [last] == work;
    }
  }

  /** A message is announced in a folder if and only if it was not known and the folder served it. */
  lemma {:induction false} AnnouncedIn(mem: Memory, folders: seq<Folder>, sents: seq<seq<seq<nat>>>, id: string)
    requires Delivered(ScanAll(mem, folders).work, sents)
    ensures var us := Announcements(ScanAll(mem, folders).work, sents);
      OnlyCreates(us) && FoldersFor(us, id) == if id in mem.messages then {} else ServingFolders(folders, id)
  {
    var work := ScanAll(mem, folders).work;
    var us := Announcements(work, sents);
    AnnouncementsOnlyCreate(work, sents);
    forall f | f in FoldersFor(us, id)
      ensures id !in mem.messages && f in ServingFolders(folders, id)
    {
      var u, c :| u in us && u.MessagesCreated? && c in u.batch && c.id == id && c.folder == f;
      assert Announces(us, c);
      AnnouncementsExactly(work, sents, c);
      var w :| w in work && DueIn(w, c);
      var s :| s in w.created && s.parses && c == ToCreated(w.folder, s);
      WorkExactly(mem, folders, f, s);
      assert ListedIn(folders, f, s);
    }
    forall f | f in ServingFolders(folders, id) && id !in mem.messages
      ensures f in FoldersFor(us, id)
    {
      var k, s :| 0 <= k < |folders| && folders[k].answer.Some? && s in folders[k].answer.value
                  && s.id == id && s.parses && folders[k].box.id == f;
      assert ListedIn(folders, f, s);
      WorkExactly(mem, folders, f, s);
      var w :| w in work && w.folder == f && s in w.created;
      assert DueIn(w, ToCreated(f, s));
      AnnouncementsExactly(work, sents, ToCreated(f, s));
      var u :| u in us && u.MessagesCreated? && ToCreated(f, s) in u.batch;
    }
  }

  /** Announcing puts a new message in the folders that served it, with the flags it was first announced with. */
  lemma {:induction false} AnnounceReplay(m: Mirror, mem: Memory, folders: seq<Folder>,
                                          sents: seq<seq<seq<nat>>>, id: string)
    requires Delivered(ScanAll(mem, folders).work, sents)
    ensures var us := Announcements(ScanAll(mem, folders).work, sents);
      EntryOf(ReplayAll(m, us), id)
      == if id in mem.messages then EntryOf(m, id)
         else Gathered(EntryOf(m, id), ServingFolders(folders, id), FirstFlags(us, id))
  {
    var us := Announcements(ScanAll(mem, folders).work, sents);
    AnnouncedIn(mem, folders, sents, id);
    CreatesGather(m, us, id);
    GatherNothing(EntryOf(m, id), FirstFlags(us, id));
  }

  // ---------------------------------------------------------------------
  // The flags of the first announcement
  // ---------------------------------------------------------------------

  /** The listings that become messages. */
  function Parsing(sighted: seq<Summary>): seq<Summary>
  {
    if sighted == [] then []
    else
      var last := sighted[|sighted| - 1];
      Parsing(sighted[..|sighted| - 1]) + if last.parses then [last] else []
  }

  ghost predicate SteadyIn(summaries: seq<Summary>, id: string)
  {
    forall s, t | s in summaries && t in summaries && s.id == t.id == id && s.parses && t.parses ::
      FlagsOf(s.state) == FlagsOf(t.state)
  }

  /** No folder lists the message twice with different flags. */
  ghost predicate SteadyFlags(folders: seq<Folder>, id: string)
  {
    forall k | 0 <= k < |folders| && folders[k].answer.Some? :: SteadyIn(folders[k].answer.value, id)
  }

  lemma {:induction false} FirstFlagsAppend(us: seq<Update>, vs: seq<Update>, id: string)
    requires OnlyCreates(us)
    ensures FirstFlags(us + vs, id) == if FoldersFor(us, id) != {} then FirstFlags(us, id) else FirstFlags(vs, id)
    decreases |us|
  {
    if us == [] {
      assert us + vs == vs;
    } else {
      assert us[0].MessagesCreated?;
      assert (us + vs)[0] == us[0] && (us + vs)[1..] == us[1..] + vs;
      FoldersForSplit(us, id);
      FirstFlagsAppend(us[1..], vs, id);
    }
  }

  lemma {:induction false} FirstFlagsInAreSome(batch: seq<Created>, id: string)
    requires FoldersIn(batch, id) != {}
    ensures exists c :: c in batch && c.id == id && c.flags == FirstFlagsIn(batch, id)
  {
    if batch[0].id == id {
      assert batch[0] in batch;
    } else {
      FoldersSplit(batch, id);
      FirstFlagsInAreSome(batch[1..], id);
    }
  }

  lemma {:induction false} FirstFlagsAreSome(us: seq<Update>, id: string)
    requires OnlyCreates(us) && FoldersFor(us, id) != {}
    ensures exists c :: Announces(us, c) && c.id == id && c.flags == FirstFlags(us, id)
    decreases |us|
  {
    assert us[0].MessagesCreated?;
    FoldersForSplit(us, id);
    if FoldersIn(us[0].batch, id) != {} {
      FirstFlagsInAreSome(us[0].batch, id);
      var c :| c in us[0].batch && c.id == id && c.flags == FirstFlagsIn(us[0].batch, id);
      assert Announces(us, c);
    } else {
      FirstFlagsAreSome(us[1..], id);
      var c :| Announces(us[1..], c) && c.id == id && c.flags == FirstFlags(us[1..], id);
      assert Announces(us, c);
    }
  }

  lemma {:induction false} ParsingAppend(a: seq<Summary>, b: seq<Summary>)
    ensures Parsing(a + b) == Parsing(a) + Parsing(b)
  {
    if b == [] {
      assert a + b == a;
    } else {
      assert (a + b)[..|a + b| - 1] == a + b[..|b| - 1];
      ParsingAppend(a, b[..|b| - 1]);
    }
  }

  lemma {:induction false} ParsingExactly(sighted: seq<Summary>, s: Summary)
    ensures s in Parsing(sighted) <==> s in sighted && s.parses
  {
    if sighted != [] {
      ParsingExactly(sighted[..|sighted| - 1], s);
    }
  }

  lemma {:induction false} ServedMeansParsing(folders: seq<Folder>, id: string)
    ensures ServingFolders(folders, id) == {} <==> Parsing(Sightings(folders, id)) == []
  {
    var parsing := Parsing(Sightings(folders, id));
    if f :| f in ServingFolders(folders, id) {
      var k, s :| 0 <= k < |folders| && folders[k].answer.Some? && s in folders[k].answer.value
                  && s.id == id && s.parses && folders[k].box.id == f;
      SightedIsListed(folders, id, s);
      ParsingExactly(Sightings(folders, id), s);
    }
    if parsing != [] {
      ParsingExactly(Sightings(folders, id), parsing[0]);
      SightedIsListed(folders, id, parsing[0]);
      var k :| 0 <= k < |folders| && folders[k].answer.Some? && parsing[0] in folders[k].answer.value;
      assert folders[k].box.id in ServingFolders(folders, id);
    }
  }

  lemma {:induction false} BatchesOnlyCreate(w: Work, sent: seq<seq<nat>>)
    requires InRange(w, sent)
    ensures OnlyCreates(Batches(w, sent))
  {
  }

  /** The flags a folder that is steady about a new message first announces it with. */
  lemma {:induction false} FirstFlagsOfFolder(messages: map<string, MessageState>, summaries: seq<Summary>, w: Work,
                           sent: seq<seq<nat>>, id: string)
    requires InRange(w, sent) && Announce.ExactlyOnce(ParsesOf(w.created), sent)
    requires w.created == NewIn(messages, summaries) && id !in messages && SteadyIn(summaries, id)
    ensures var parsing := Parsing(SightingsIn(summaries, id));
      parsing != [] ==> FirstFlags(Batches(w, sent), id) == FlagsOf(parsing[0].state)
  {
    var parsing := Parsing(SightingsIn(summaries, id));
    if parsing != [] {
      var s, us := parsing[0], Batches(w, sent);
      ParsingExactly(SightingsIn(summaries, id), s);
      SightedIn(summaries, id, s);
      NewExactly(messages, summaries, s);
      BatchesExactly(w, sent, ToCreated(w.folder, s));
      assert w.folder in FoldersFor(us, id);
      BatchesOnlyCreate(w, sent);
      FirstFlagsAreSome(us, id);
      var c :| Announces(us, c) && c.id == id && c.flags == FirstFlags(us, id);
      BatchesExactly(w, sent, c);
      var t :| t in w.created && t.parses && c == ToCreated(w.folder, t);
      NewExactly(messages, summaries, t);
    }
  }

  lemma {:induction false} NothingNewIn(messages: map<string, MessageState>, summaries: seq<Summary>, id: string)
    requires NewIn(messages, summaries) == [] && id !in messages
    ensures SightingsIn(summaries, id) == []
  {
    var sighted := SightingsIn(summaries, id);
    if sighted != [] {
      SightedIn(summaries, id, sighted[0]);
      NewExactly(messages, summaries, sighted[0]);
    }
  }

  /** What the announcements so far and those of one more folder are first. */
  lemma {:induction false} FirstOfTwo(us: seq<Update>, vs: seq<Update>, a: seq<Summary>, b: seq<Summary>, id: string)
    requires OnlyCreates(us) && (FoldersFor(us, id) == {} <==> a == [])
    requires a != [] ==> FirstFlags(us, id) == FlagsOf(a[0].state)
    requires b != [] ==> FirstFlags(vs, id) == FlagsOf(b[0].state)
    ensures a + b != [] ==> FirstFlags(us + vs, id) == FlagsOf((a + b)[0].state)
  {
    FirstFlagsAppend(us, vs, id);
  }

  ghost predicate FirstIs(us: seq<Update>, folders: seq<Folder>, id: string)
  {
    var parsing := Parsing(Sightings(folders, id));
    parsing != [] ==> FirstFlags(us, id) == FlagsOf(parsing[0].state)
  }

  lemma {:induction false} FirstIsStep(mem: Memory, front: seq<Folder>, last: Folder, w: Work,
                                       sents: seq<seq<seq<nat>>>, sent: seq<seq<nat>>, id: string)
    requires Delivered(ScanAll(mem, front).work, sents) && id !in mem.messages
    requires FirstIs(Announcements(ScanAll(mem, front).work, sents), front, id)
    requires last.answer.Some? && SteadyIn(last.answer.value, id)
    requires w == Work(last.box.id, NewIn(mem.messages, last.answer.value))
    requires InRange(w, sent) && Announce.ExactlyOnce(ParsesOf(w.created), sent)
    ensures FirstIs(Announcements(ScanAll(mem, front).work, sents) + Batches(w, sent), front + [last], id)
  {
    assert (front + [last])[..|front|] == front;
    var us := Announcements(ScanAll(mem, front).work, sents);
    AnnouncedIn(mem, front, sents, id);
    ServedMeansParsing(front, id);
    FirstFlagsOfFolder(mem.messages, last.answer.value, w, sent, id);
    var a, b := Sightings(front, id), SightingsIn(last.answer.value, id);
    ParsingAppend(a, b);
    FirstOfTwo(us, Batches(w, sent), Parsing(a), Parsing(b), id);
  }

  /** A folder with nothing new adds nothing to announce. */
  lemma {:induction false} FirstIsSkip(mem: Memory, front: seq<Folder>, last: Folder, id: string)
    requires last.answer.None? || NewIn(mem.messages, last.answer.value) == []
    requires id !in mem.messages
    ensures ScanAll(mem, front + [last]).work == ScanAll(mem, front).work
    ensures Sightings(front + [last], id) == Sightings(front, id)
  {
    assert (front + [last])[..|front|] == front;
    if last.answer.Some? {
      NothingNewIn(mem.messages, last.answer.value, id);
    }
  }

  lemma {:induction false} WorkGrows(mem: Memory, front: seq<Folder>, last: Folder)
    requires last.answer.Some? && NewIn(mem.messages, last.answer.value) != []
    ensures ScanAll(mem, front + [last]).work
         == ScanAll(mem, front).work + [Work(last.box.id, NewIn(mem.messages, last.answer.value))]
  {
    assert (front + [last])[..|front|] == front;
  }

  lemma {:induction false} AnnouncementsOfLast(work: seq<Work>, w: Work, sents: seq<seq<seq<nat>>>)
    requires Delivered(work + [w], sents)
    ensures var k := |work|;
      && Delivered(work, sents[..k])
      && InRange(w, sents[k]) && Announce.ExactlyOnce(ParsesOf(w.created), sents[k])
      && Announcements(work + [w], sents) == Announcements(work, sents[..k]) + Batches(w, sents[k])
  {
    assert (work + [w])[..|work|] == work && (work + [w])[|work|] == w;
    assert forall k | 0 <= k < |work| :: (work + [w])[k] == work[k];
  }

  /** A new message is first announced with the flags of the first of its listings that parses. */
  lemma {:induction false} FirstAnnounced(mem: Memory, folders: seq<Folder>, sents: seq<seq<seq<nat>>>, id: string)
    requires Delivered(ScanAll(mem, folders).work, sents)
    requires id !in mem.messages && SteadyFlags(folders, id)
    ensures FirstIs(Announcements(ScanAll(mem, folders).work, sents), folders, id)
  {
    if folders != [] {
      var n := |folders| - 1;
      var front, last := folders[..n], folders[n];
      assert front + [last] == folders;
      assert forall k | 0 <= k < n :: front[k] == folders[k];
      if last.answer.None? || NewIn(mem.messages, last.answer.value) == [] {
        FirstIsSkip(mem, front, last, id);
        FirstAnnounced(mem, front, sents, id);
      } else {
        var work, w := ScanAll(mem, front).work, Work(last.box.id, NewIn(mem.messages, last.answer.value));
        WorkGrows(mem, front, last);
        AnnouncementsOfLast(work, w, sents);
        FirstAnnounced(mem, front, sents[..|work|], id);
        FirstIsStep(mem, front, last, w, sents[..|work|], sents[|work|], id);
      }
    }
  }

  lemma {:induction false} DeletionsReplay(m: Mirror, gone: seq<string>, id: string)
    ensures EntryOf(ReplayAll(m, Deletions(gone)), id) == if id in gone then None else EntryOf(m, id)
    decreases |gone|
  {
    if gone != [] {
      assert Deletions(gone)[1..] == Deletions(gone[1..]);
      DeletionsReplay(Apply(m, MessageDeleted(gone[0])), gone[1..], id);
    }
  }
}
