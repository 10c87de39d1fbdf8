/** What holds over every run of syncs: replay, quiet repeats, safe deletions, folders first. */
module SyncRuns {
  import opened Bytes
  import opened Snapshot
  import opened SyncModel
  import opened Replay

  // ---------------------------------------------------------------------
  // One sync and one message
  // ---------------------------------------------------------------------

  lemma {:induction false} ReplayStages(m: Mirror, a: seq<Update>, b: seq<Update>, c: seq<Update>)
    ensures ReplayAll(m, a + b + c) == ReplayAll(ReplayAll(ReplayAll(m, a), b), c)
  {
    ReplayAppend(m, a + b, c);
    ReplayAppend(m, a, b);
  }

  /** What the announcements of a cycle give a new message first. */
  ghost function AnnouncedFlags(mem: Memory, c: Cycle, id: string): set<Flag>
    requires Possible(mem, c) && c.account.Reachable?
  {
    FirstFlags(Announcements(ScanAll(mem, c.account.folders).work, c.sents), id)
  }

  /** The mirror's entry for one message after a sync that reached the account. */
  lemma {:induction false} EntryAfter(m: Mirror, mem: Memory, c: Cycle, id: string)
    requires Possible(mem, c) && c.account.Reachable?
    ensures var folders := c.account.folders;
      EntryOf(ReplayAll(m, OutOf(mem, c)), id)
      == if id in ToSet(c.gone) then None
         else if id in mem.messages then Updated(EntryOf(m, id), mem.messages, id, Sightings(folders, id))
         else Gathered(EntryOf(m, id), ServingFolders(folders, id), AnnouncedFlags(mem, c, id))
  {
    var folders := c.account.folders;
    var scan := ScanAll(mem, folders);
    var announced := Announcements(scan.work, c.sents);
    ReplayStages(m, scan.out, announced, Deletions(c.gone));
    ScanReplay(m, mem, folders, id);
    var m1 := ReplayAll(m, scan.out);
    AnnounceReplay(m1, mem, folders, c.sents, id);
    DeletionsReplay(ReplayAll(m1, announced), c.gone, id);
    assert id in c.gone <==> id in ToSet(c.gone);
  }

  /** What is remembered of one message after a sync that reached the account. */
  lemma {:induction false} MemoryAfter(mem: Memory, c: Cycle, id: string)
    requires Possible(mem, c) && c.account.Reachable?
    ensures var sighted, after := Sightings(c.account.folders, id), After(mem, c).messages;
      && (id in ToSet(c.gone) <==>
           sighted == [] && id in mem.messages && ScanAll(mem, c.account.folders).complete)
      && (id in after <==> id !in ToSet(c.gone) && (sighted != [] || id in mem.messages))
      && (id in after ==> after[id] == if sighted != [] then sighted[|sighted| - 1].state else mem.messages[id])
  {
    SeenIsLast(mem, c.account.folders, id);
  }

  /**
   When one sync keeps the mirror exact for one message: nothing listed it; or it
   was known, and the last change sent, or else the old state, looks like its last
   listing; or it is new, and it was announced in exactly the folders its last
   listing names, first with the flags of that listing.
   */
  ghost predicate Kept(mem: Memory, c: Cycle, id: string)
    requires Possible(mem, c) && c.account.Reachable?
  {
    var sighted := Sightings(c.account.folders, id);
    sighted == [] ||
      var last := sighted[|sighted| - 1].state;
      if id in mem.messages then
        match Changed(mem.messages[id], sighted)
        case None => View(mem.messages[id]) == View(last)
        case Some(sent) => View(sent) == View(last)
      else
        && ServingFolders(c.account.folders, id) == ToSet(last.mailboxIDs) != {}
        && AnnouncedFlags(mem, c, id) == FlagsOf(last)
  }

  lemma {:induction false} NothingServesTheUnlisted(folders: seq<Folder>, id: string)
    ensures Sightings(folders, id) == [] ==> ServingFolders(folders, id) == {}
  {
    ServedMeansParsing(folders, id);
  }

  lemma {:induction false} KnownMirrorsExactly(m: Mirror, mem: Memory, c: Cycle, id: string)
    requires Possible(mem, c) && c.account.Reachable? && Mirrored(m, mem.messages, id) && id in mem.messages
    ensures Mirrored(ReplayAll(m, OutOf(mem, c)), After(mem, c).messages, id) <==> Kept(mem, c, id)
  {
    EntryAfter(m, mem, c, id);
    MemoryAfter(mem, c, id);
  }

  lemma {:induction false} NewMirrorsExactly(m: Mirror, mem: Memory, c: Cycle, id: string)
    requires Possible(mem, c) && c.account.Reachable? && Mirrored(m, mem.messages, id) && id !in mem.messages
    ensures Mirrored(ReplayAll(m, OutOf(mem, c)), After(mem, c).messages, id) <==> Kept(mem, c, id)
  {
    EntryAfter(m, mem, c, id);
    MemoryAfter(mem, c, id);
    NothingServesTheUnlisted(c.account.folders, id);
  }

  /** One sync keeps the mirror exact for a message if and only if it was Kept: for every account and schedule. */
  lemma {:induction false} SyncMirrorsExactly(m: Mirror, mem: Memory, c: Cycle, id: string)
    requires Possible(mem, c) && Mirrored(m, mem.messages, id)
    ensures Mirrored(ReplayAll(m, OutOf(mem, c)), After(mem, c).messages, id)
      <==> (c.account.Reachable? ==> Kept(mem, c, id))
  {
    if c.account.Reachable? {
      if id in mem.messages {
        KnownMirrorsExactly(m, mem, c, id);
      } else {
        NewMirrorsExactly(m, mem, c, id);
      }
    }
  }

  /** An entry shows a listing: its folders, and a flag exactly when the listing has it. */
  ghost predicate ShowsListing(entry: Entry, s: Summary)
  {
    && (forall f :: f in entry.folders <==> f in s.state.mailboxIDs)
    && FlagsAreThose(entry.flags, s)
  }

  ghost predicate FlagsAreThose(flags: set<Flag>, s: Summary)
  {
    && (FlagSeen in flags <==> s.state.isRead)
    && (FlagFlagged in flags <==> s.state.isFlagged)
    && (FlagDraft in flags <==> s.state.isDraft)
  }

  lemma ViewShows(s: Summary)
    ensures ShowsListing(View(s.state), s)
  {
  }

  /** After a sync that keeps a message some folder lists, the client is shown its last listing. */
  lemma {:induction false} KeptIsShown(m: Mirror, mem: Memory, c: Cycle, id: string)
    requires Possible(mem, c) && c.account.Reachable? && Mirrored(m, mem.messages, id) && Kept(mem, c, id)
    requires Sightings(c.account.folders, id) != []
    ensures var sighted, entry := Sightings(c.account.folders, id), EntryOf(ReplayAll(m, OutOf(mem, c)), id);
      entry.Some? && ShowsListing(entry.value, sighted[|sighted| - 1])
  {
    var sighted := Sightings(c.account.folders, id);
    SyncMirrorsExactly(m, mem, c, id);
    MemoryAfter(mem, c, id);
    ViewShows(sighted[|sighted| - 1]);
  }

  /** An update of a message says what some folder lists of it. */
  lemma {:induction false} UpdatesShowListings(mem: Memory, folders: seq<Folder>, u: Update)
    requires u in ScanAll(mem, folders).out && u.MessageUpdated?
    ensures exists s ::
      Listed(folders, s) && s.id == u.id && u.folders == s.state.mailboxIDs && FlagsAreThose(u.flags, s)
  {
    var n := |folders| - 1;
    var scan, last := ScanAll(mem, folders[..n]), folders[n];
    if u in scan.out {
      UpdatesShowListings(mem, folders[..n], u);
      var s :| Listed(folders[..n], s) && s.id == u.id && u.folders == s.state.mailboxIDs && FlagsAreThose(u.flags, s);
      ListedGrows(folders, s);
    } else {
      ChangesShowListings(mem.messages, last.answer.value, u);
      var s :| s in last.answer.value && s.id == u.id && u.folders == s.state.mailboxIDs && FlagsAreThose(u.flags, s);
      ListedGrows(folders, s);
    }
  }

  lemma {:induction false} ChangesShowListings(messages: map<string, MessageState>, summaries: seq<Summary>, u: Update)
    requires u in ChangedIn(messages, summaries)
    ensures u.MessageUpdated? && exists s ::
      s in summaries && s.id == u.id && u.folders == s.state.mailboxIDs && FlagsAreThose(u.flags, s)
  {
    var n := |summaries| - 1;
    if u in ChangedIn(messages, summaries[..n]) {
      ChangesShowListings(messages, summaries[..n], u);
    } else {
      assert summaries[n] in summaries && FlagsAreThose(u.flags, summaries[n]);
    }
  }

  /** An announcement of a message says what its folder lists of it. */
  lemma {:induction false} CreationsShowListings(mem: Memory, c: Cycle, created: Created)
    requires Possible(mem, c) && c.account.Reachable?
    requires Announces(Announcements(ScanAll(mem, c.account.folders).work, c.sents), created)
    ensures exists s ::
      && ListedIn(c.account.folders, created.folder, s) && s.parses && s.id == created.id
      && s.id !in mem.messages && FlagsAreThose(created.flags, s)
  {
    var work := ScanAll(mem, c.account.folders).work;
    AnnouncementsExactly(work, c.sents, created);
    var w :| w in work && DueIn(w, created);
    var s := DueShows(w, created);
    WorkExactly(mem, c.account.folders, w.folder, s);
  }

  lemma DueShows(w: Work, created: Created) returns (s: Summary)
    requires DueIn(w, created)
    ensures s in w.created && s.parses && s.id == created.id && w.folder == created.folder
    ensures FlagsAreThose(created.flags, s)
  {
    s :| s in w.created && s.parses && created == ToCreated(w.folder, s);
  }

  // ---------------------------------------------------------------------
  // The same condition, read off the account
  // ---------------------------------------------------------------------

  /** Folders are listed once; a new message is listed with one set of flags in each folder. */
  ghost predicate WellListed(mem: Memory, folders: seq<Folder>, id: string)
  {
    if id in mem.messages then
      Distinct(mem.messages[id].mailboxIDs) && forall s | s in Sightings(folders, id) :: Distinct(s.state.mailboxIDs)
    else SteadyFlags(folders, id)
  }

  /**
   Nothing listed it; or it was known, and its last listing is a change or all its
   listings are none; or it is new, served by exactly the folders its last listing
   names, and the first of its listings has the flags of the last.
   */
  ghost predicate Settled(mem: Memory, folders: seq<Folder>, id: string)
  {
    var sighted := Sightings(folders, id);
    sighted == [] ||
      var last := sighted[|sighted| - 1].state;
      if id in mem.messages then
        !SameState(mem.messages[id], last) || forall s | s in sighted :: SameState(mem.messages[id], s.state)
      else
        var parsing := Parsing(sighted);
        && parsing != [] && ServingFolders(folders, id) == ToSet(last.mailboxIDs)
        && FlagsOf(parsing[0].state) == FlagsOf(last)
  }

  lemma {:induction false} ChangedExactly(known: MessageState, sighted: seq<Summary>)
    ensures match Changed(known, sighted)
      case None => forall s | s in sighted :: SameState(known, s.state)
      case Some(sent) => !SameState(known, sent) && exists s :: s in sighted && s.state == sent
  {
    if sighted != [] {
      ChangedExactly(known, sighted[..|sighted| - 1]);
    }
  }

  /** The condition on the cycle is a condition on the account and the memory alone. */
  lemma KeptIsSettled(mem: Memory, c: Cycle, id: string)
    requires Possible(mem, c) && c.account.Reachable? && WellListed(mem, c.account.folders, id)
    ensures Kept(mem, c, id) <==> Settled(mem, c.account.folders, id)
  {
    var folders := c.account.folders;
    var sighted := Sightings(folders, id);
    if sighted != [] {
      var last := sighted[|sighted| - 1].state;
      if id in mem.messages {
        var known := mem.messages[id];
        ChangedExactly(known, sighted);
        SameStateIsSameView(known, last);
        if Changed(known, sighted).Some? {
          SameStateIsSameView(known, Changed(known, sighted).value);
        }
      } else {
        FirstAnnounced(mem, folders, c.sents, id);
        ServedMeansParsing(folders, id);
      }
    }
  }

  /** Every answering folder that lists the message reports the same thing about it. */
  ghost predicate AgreedOn(folders: seq<Folder>, id: string)
  {
    forall s, t | s in Sightings(folders, id) && t in Sightings(folders, id) :: s.state == t.state
  }

  /** Every folder a newly listed message is in answered, and served it. */
  ghost predicate Served(mem: Memory, folders: seq<Folder>, id: string)
  {
    forall s | s in Sightings(folders, id) && id !in mem.messages ::
      ServingFolders(folders, id) == ToSet(s.state.mailboxIDs) != {}
  }

  /** Where the folders agree, being served is all it takes. */
  lemma {:induction false} AgreedIsKeptIfServed(mem: Memory, c: Cycle, id: string)
    requires Possible(mem, c) && c.account.Reachable? && AgreedOn(c.account.folders, id)
    requires forall s | s in Sightings(c.account.folders, id) && id in mem.messages ::
      SameState(mem.messages[id], s.state) ==> Distinct(mem.messages[id].mailboxIDs)
    ensures Kept(mem, c, id) <==> Served(mem, c.account.folders, id)
  {
    var folders := c.account.folders;
    var sighted := Sightings(folders, id);
    if sighted != [] {
      var last := sighted[|sighted| - 1];
      assert last in sighted;
      if id in mem.messages {
        ChangedExactly(mem.messages[id], sighted);
        if Changed(mem.messages[id], sighted).None? {
          SameStateIsSameView(mem.messages[id], last.state);
        }
      } else {
        AgreedIsSteady(folders, id);
        FirstAnnounced(mem, folders, c.sents, id);
        ServedMeansParsing(folders, id);
        var parsing := Parsing(sighted);
        if parsing != [] {
          ParsingExactly(sighted, parsing[0]);
        }
      }
    }
  }

  lemma AgreedIsSteady(folders: seq<Folder>, id: string)
    requires AgreedOn(folders, id)
    ensures SteadyFlags(folders, id)
  {
    forall k, s, t | 0 <= k < |folders| && folders[k].answer.Some?
                     && s in folders[k].answer.value && t in folders[k].answer.value && s.id == t.id == id
      ensures s.state == t.state
    {
      assert Listed(folders, s) && Listed(folders, t);
      SightedIsListed(folders, id, s);
      SightedIsListed(folders, id, t);
    }
  }

  // ---------------------------------------------------------------------
  // Where it drifts, and that it stays so
  // ---------------------------------------------------------------------

  /**
   A known message that changes and is then listed as it was, all in one scan: the
   change is sent and forgotten.
   */
  lemma {:induction false} ChangeDuringAScanDrifts(m: Mirror, mem: Memory, c: Cycle, id: string)
    requires Possible(mem, c) && c.account.Reachable? && WellListed(mem, c.account.folders, id)
    requires id in mem.messages && Mirrored(m, mem.messages, id)
    requires var sighted := Sightings(c.account.folders, id);
      && sighted != [] && SameState(mem.messages[id], sighted[|sighted| - 1].state)
      && exists s :: s in sighted && !SameState(mem.messages[id], s.state)
    ensures id in After(mem, c).messages && View(After(mem, c).messages[id]) == View(mem.messages[id])
    ensures exists s ::
      && s in Sightings(c.account.folders, id) && !SameState(mem.messages[id], s.state)
      && EntryOf(ReplayAll(m, OutOf(mem, c)), id) == Some(View(s.state)) != Some(View(mem.messages[id]))
  {
    var known, sighted := mem.messages[id], Sightings(c.account.folders, id);
    EntryAfter(m, mem, c, id);
    MemoryAfter(mem, c, id);
    ChangedExactly(known, sighted);
    SameStateIsSameView(known, sighted[|sighted| - 1].state);
    var s :| s in sighted && Changed(known, sighted) == Some(s.state);
    SameStateIsSameView(known, s.state);
  }

  /**
   A new message that is served by one folder and then listed by another as being
   only there: in every interleaving the mirror has it in both.
   */
  lemma {:induction false} MoveDuringAScanDrifts(m: Mirror, mem: Memory, c: Cycle, id: string, from: string, to: string)
    requires Possible(mem, c) && c.account.Reachable? && id !in mem.messages && id !in m
    requires from != to && {from, to} <= ServingFolders(c.account.folders, id)
    requires var sighted := Sightings(c.account.folders, id);
      sighted != [] && sighted[|sighted| - 1].state.mailboxIDs == [to]
    ensures var after, end := After(mem, c).messages, EntryOf(ReplayAll(m, OutOf(mem, c)), id);
      && end.Some? && {from, to} <= end.value.folders
      && id in after && View(after[id]).folders == {to}
  {
    NewEntryAfter(m, mem, c, id);
    MemoryAfter(mem, c, id);
    assert ToSet([to]) == {to};
  }

  lemma {:induction false} NewEntryAfter(m: Mirror, mem: Memory, c: Cycle, id: string)
    requires Possible(mem, c) && c.account.Reachable? && id !in mem.messages && id !in m
    ensures var folders, end := ServingFolders(c.account.folders, id), EntryOf(ReplayAll(m, OutOf(mem, c)), id);
      if folders == {} then end.None? else end.Some? && end.value.folders == folders
  {
    EntryAfter(m, mem, c, id);
    MemoryAfter(mem, c, id);
  }

  /** No sync that lists a message as remembered repairs what the mirror shows of it. */
  lemma {:induction false} DriftPersists(m: Mirror, mem: Memory, c: Cycle, id: string)
    requires Possible(mem, c) && c.account.Reachable? && id in mem.messages && id !in ToSet(c.gone)
    requires Distinct(mem.messages[id].mailboxIDs)
    requires forall s | s in Sightings(c.account.folders, id) :: SameState(mem.messages[id], s.state)
    ensures EntryOf(ReplayAll(m, OutOf(mem, c)), id) == EntryOf(m, id)
    ensures id in After(mem, c).messages && View(After(mem, c).messages[id]) == View(mem.messages[id])
  {
    var known, sighted := mem.messages[id], Sightings(c.account.folders, id);
    EntryAfter(m, mem, c, id);
    MemoryAfter(mem, c, id);
    ChangedExactly(known, sighted);
    if sighted != [] {
      assert sighted[|sighted| - 1] in sighted;
      SameStateIsSameView(known, sighted[|sighted| - 1].state);
    }
  }

  // ---------------------------------------------------------------------
  // Runs
  // ---------------------------------------------------------------------

  ghost predicate KeptRun(mem: Memory, run: seq<Cycle>, id: string)
    requires PossibleRun(mem, run)
    decreases |run|
  {
    run == [] || (
      && (run[0].account.Reachable? ==> Kept(mem, run[0], id))
      && KeptRun(After(mem, run[0]), run[1..], id))
  }

  ghost predicate MirroredAfter(m: Mirror, mem: Memory, run: seq<Cycle>, id: string)
  {
    PossibleRun(mem, run) && Mirrored(ReplayAll(m, RunOut(mem, run)), RunTo(mem, run).messages, id)
  }

  lemma {:induction false} MirroredStep(m: Mirror, mem: Memory, run: seq<Cycle>, id: string, n: nat)
    requires PossibleRun(mem, run) && n < |run|
    ensures var m', mem' := ReplayAll(m, OutOf(mem, run[0])), After(mem, run[0]);
      MirroredAfter(m, mem, run[..n + 1], id) <==> MirroredAfter(m', mem', run[1..][..n], id)
  {
    var first, mem' := run[..n + 1], After(mem, run[0]);
    assert first[0] == run[0] && first[1..] == run[1..][..n];
    if PossibleRun(mem', run[1..][..n]) {
      ReplayAppend(m, OutOf(mem, run[0]), RunOut(mem', run[1..][..n]));
    }
  }

  lemma MirroredNow(m: Mirror, mem: Memory, run: seq<Cycle>, id: string)
    ensures MirroredAfter(m, mem, run[..0], id) <==> Mirrored(m, mem.messages, id)
  {
    assert run[..0] == [];
  }

  /** The mirror is exact for a message after every sync of a run if and only if every sync keeps it. */
  lemma {:induction false} RunMirrorsExactly(m: Mirror, mem: Memory, run: seq<Cycle>, id: string)
    requires PossibleRun(mem, run) && Mirrored(m, mem.messages, id)
    ensures (forall n | 0 <= n <= |run| :: MirroredAfter(m, mem, run[..n], id)) <==> KeptRun(mem, run, id)
    decreases |run|
  {
    MirroredNow(m, mem, run, id);
    if run != [] {
      var m', mem', rest := ReplayAll(m, OutOf(mem, run[0])), After(mem, run[0]), run[1..];
      SyncMirrorsExactly(m, mem, run[0], id);
      MirroredNow(m', mem', rest, id);
      forall n: nat | n <= |rest|
        ensures MirroredAfter(m, mem, run[..n + 1], id) <==> MirroredAfter(m', mem', rest[..n], id)
      {
        MirroredStep(m, mem, run, id, n);
      }
      assert MirroredAfter(m, mem, run[..0 + 1], id) <==> MirroredAfter(m', mem', rest[..0], id);
      assert run[..1] == run[..0 + 1] && MirroredAfter(m, mem, run[..1], id) <==> Mirrored(m', mem'.messages, id);
      if Mirrored(m', mem'.messages, id) {
        RunMirrorsExactly(m', mem', rest, id);
        PrefixesOf(m, mem, m', mem', run, id);
      }
    }
  }

  /** After every sync of a run, or before the first and after every sync of the rest. */
  lemma PrefixesOf(m: Mirror, mem: Memory, m': Mirror, mem': Memory, run: seq<Cycle>, id: string)
    requires run != [] && MirroredAfter(m, mem, run[..0], id)
    requires forall n: nat | n <= |run[1..]| ::
      MirroredAfter(m, mem, run[..n + 1], id) <==> MirroredAfter(m', mem', run[1..][..n], id)
    ensures (forall n | 0 <= n <= |run| :: MirroredAfter(m, mem, run[..n], id))
      <==> (forall n | 0 <= n <= |run[1..]| :: MirroredAfter(m', mem', run[1..][..n], id))
  {
    var rest := run[1..];
    if forall n | 0 <= n <= |run| :: MirroredAfter(m, mem, run[..n], id) {
      forall n | 0 <= n <= |rest|
        ensures MirroredAfter(m', mem', rest[..n], id)
      {
        assert MirroredAfter(m, mem, run[..n + 1], id);
      }
    }
    if forall n | 0 <= n <= |rest| :: MirroredAfter(m', mem', rest[..n], id) {
      forall n | 0 <= n <= |run|
        ensures MirroredAfter(m, mem, run[..n], id)
      {
        if n > 0 {
          assert MirroredAfter(m', mem', rest[..n - 1], id);
          assert run[..n] == run[..(n - 1) + 1];
        }
      }
    }
  }

  const FRESH := Memory(map[], map[])

  function Views(messages: map<string, MessageState>): Mirror
  {
    map id | id in messages :: View(messages[id])
  }

  lemma ViewsExactly(m: Mirror, messages: map<string, MessageState>)
    ensures m == Views(messages) <==> forall id :: Mirrored(m, messages, id)
  {
    if forall id :: Mirrored(m, messages, id) {
      forall id
        ensures id in m <==> id in messages
        ensures id in m ==> m[id] == View(messages[id])
      {
        assert Mirrored(m, messages, id);
      }
    }
  }

  /** Replaying everything a run of syncs emitted gives exactly what the connector remembers. */
  ghost predicate Reproduced(run: seq<Cycle>)
  {
    PossibleRun(FRESH, run) && ReplayAll(map[], RunOut(FRESH, run)) == Views(RunTo(FRESH, run).messages)
  }

  lemma ReproducedExactly(run: seq<Cycle>)
    ensures Reproduced(run) <==> forall id :: MirroredAfter(map[], FRESH, run, id)
  {
    if PossibleRun(FRESH, run) {
      ViewsExactly(ReplayAll(map[], RunOut(FRESH, run)), RunTo(FRESH, run).messages);
      forall id
        ensures MirroredAfter(map[], FRESH, run, id)
          <==> Mirrored(ReplayAll(map[], RunOut(FRESH, run)), RunTo(FRESH, run).messages, id)
      {
      }
    } else {
      assert !MirroredAfter(map[], FRESH, run, "");
    }
  }

  /** After every sync of the run replay gives the memory. */
  ghost predicate AlwaysReproduced(run: seq<Cycle>)
  {
    forall n | 0 <= n <= |run| :: Reproduced(run[..n])
  }

  ghost predicate AllKept(run: seq<Cycle>)
  {
    PossibleRun(FRESH, run) && forall id :: KeptRun(FRESH, run, id)
  }

  lemma {:induction false} KeptPrefix(run: seq<Cycle>, n: nat)
    requires n <= |run| && AllKept(run)
    ensures Reproduced(run[..n])
  {
    forall id
      ensures MirroredAfter(map[], FRESH, run[..n], id)
    {
      assert KeptRun(FRESH, run, id);
      RunMirrorsExactly(map[], FRESH, run, id);
    }
    ReproducedExactly(run[..n]);
  }

  lemma {:induction false} PrefixesKept(run: seq<Cycle>, id: string)
    requires PossibleRun(FRESH, run) && AlwaysReproduced(run)
    ensures KeptRun(FRESH, run, id)
  {
    forall n | 0 <= n <= |run|
      ensures MirroredAfter(map[], FRESH, run[..n], id)
    {
      assert Reproduced(run[..n]);
      ReproducedExactly(run[..n]);
    }
    RunMirrorsExactly(map[], FRESH, run, id);
  }

  /** Replay gives the memory after every sync of a run if and only if every sync keeps every message. */
  lemma {:induction false} ReplayReproducesMemory(run: seq<Cycle>)
    requires PossibleRun(FRESH, run)
    ensures AlwaysReproduced(run) <==> AllKept(run)
  {
    if AllKept(run) {
      forall n | 0 <= n <= |run|
        ensures Reproduced(run[..n])
      {
        KeptPrefix(run, n);
      }
    }
    if AlwaysReproduced(run) {
      forall id
        ensures KeptRun(FRESH, run, id)
      {
        PrefixesKept(run, id);
      }
    }
  }

  /** The account, as its folders list it. */
  function AccountOf(folders: seq<Folder>): map<string, MessageState>
  {
    ScanAll(FRESH, folders).seen
  }

  lemma {:induction false} SeenIsTheAccount(mem: Memory, folders: seq<Folder>)
    ensures ScanAll(mem, folders).seen == AccountOf(folders)
  {
    if folders != [] {
      SeenIsTheAccount(mem, folders[..|folders| - 1]);
    }
  }

  /** After a complete sync the connector remembers the account and nothing more. */
  lemma CompleteSyncRemembersTheAccount(mem: Memory, c: Cycle)
    requires Possible(mem, c) && c.account.Reachable?
    requires forall k | 0 <= k < |c.account.folders| :: c.account.folders[k].answer.Some?
    ensures After(mem, c).messages == AccountOf(c.account.folders)
  {
    ScanComplete(mem, c.account.folders);
    SeenIsTheAccount(mem, c.account.folders);
    var scan := ScanAll(mem, c.account.folders);
    assert (mem.messages + scan.seen) - (mem.messages.Keys - scan.seen.Keys) == scan.seen;
  }

  lemma {:induction false} RunToLast(mem: Memory, run: seq<Cycle>, c: Cycle)
    requires PossibleRun(mem, run) && Possible(RunTo(mem, run), c)
    ensures PossibleRun(mem, run + [c])
    ensures RunTo(mem, run + [c]) == After(RunTo(mem, run), c)
    ensures RunOut(mem, run + [c]) == RunOut(mem, run) + OutOf(RunTo(mem, run), c)
    decreases |run|
  {
    if run == [] {
      assert run + [c] == [c] && [c][1..] == [];
    } else {
      assert (run + [c])[0] == run[0] && (run + [c])[1..] == run[1..] + [c];
      RunToLast(After(mem, run[0]), run[1..], c);
    }
  }

  /**
   A run that kept every message and then syncs completely leaves the mirror equal
   to the account if and only if that last sync keeps every message too.
   */
  lemma {:induction false} ReplayReproducesTheAccount(run: seq<Cycle>, c: Cycle)
    requires AllKept(run)
    requires Possible(RunTo(FRESH, run), c) && c.account.Reachable?
    requires forall k | 0 <= k < |c.account.folders| :: c.account.folders[k].answer.Some?
    ensures PossibleRun(FRESH, run + [c])
    ensures ReplayAll(map[], RunOut(FRESH, run + [c])) == Views(AccountOf(c.account.folders))
      <==> forall id :: Kept(RunTo(FRESH, run), c, id)
  {
    var m, mem := ReplayAll(map[], RunOut(FRESH, run)), RunTo(FRESH, run);
    RunToLast(FRESH, run, c);
    ReplayAppend(map[], RunOut(FRESH, run), OutOf(mem, c));
    CompleteSyncRemembersTheAccount(mem, c);
    ReplayReproducesMemory(run);
    assert run[..|run|] == run;
    assert Reproduced(run);
    ViewsExactly(m, mem.messages);
    LastSyncKeeps(m, mem, c);
  }

  /** From an exact mirror, one sync leaves an exact mirror if and only if it keeps every message. */
  lemma {:induction false} LastSyncKeeps(m: Mirror, mem: Memory, c: Cycle)
    requires Possible(mem, c) && c.account.Reachable? && m == Views(mem.messages)
    ensures ReplayAll(m, OutOf(mem, c)) == Views(After(mem, c).messages) <==> forall id :: Kept(mem, c, id)
  {
    var m', after := ReplayAll(m, OutOf(mem, c)), After(mem, c).messages;
    ViewsExactly(m, mem.messages);
    ViewsExactly(m', after);
    forall id
      ensures Mirrored(m', after, id) <==> Kept(mem, c, id)
    {
      SyncMirrorsExactly(m, mem, c, id);
    }
    if forall id :: Kept(mem, c, id) {
      forall id
        ensures Mirrored(m', after, id)
      {
        assert Kept(mem, c, id);
      }
    }
    if forall id :: Mirrored(m', after, id) {
      forall id
        ensures Kept(mem, c, id)
      {
        assert Mirrored(m', after, id);
      }
    }
  }

  // ---------------------------------------------------------------------
  // One folder per email
  // ---------------------------------------------------------------------

  /** The API gives an email one folder: each listed summary names just the folder that listed it. */
  ghost predicate OneFolderEach(folders: seq<Folder>)
  {
    && (forall k, s | 0 <= k < |folders| && folders[k].answer.Some? && s in folders[k].answer.value ::
         s.parses && s.state.mailboxIDs == [folders[k].box.id])
    && (forall s, t | Listed(folders, s) && Listed(folders, t) && s.id == t.id :: s.state == t.state)
  }

  lemma OneFolderServes(folders: seq<Folder>, s: Summary)
    requires OneFolderEach(folders) && Listed(folders, s)
    ensures |s.state.mailboxIDs| == 1 && ServingFolders(folders, s.id) == ToSet(s.state.mailboxIDs) != {}
  {
    var j :| 0 <= j < |folders| && folders[j].answer.Some? && s in folders[j].answer.value;
    assert folders[j].box.id in ServingFolders(folders, s.id);
    forall f | f in ServingFolders(folders, s.id)
      ensures f == folders[j].box.id
    {
      var k, u :| 0 <= k < |folders| && folders[k].answer.Some? && u in folders[k].answer.value
                  && u.id == s.id && u.parses && folders[k].box.id == f;
      assert Listed(folders, u);
      assert u.state.mailboxIDs[0] == f;
    }
    assert folders[j].box.id in ToSet(s.state.mailboxIDs);
  }

  /** With one folder per email every sync keeps every message, even one that misses folders. */
  lemma OneFolderIsKept(mem: Memory, c: Cycle, id: string)
    requires Possible(mem, c) && c.account.Reachable? && OneFolderEach(c.account.folders)
    ensures Kept(mem, c, id)
  {
    var folders := c.account.folders;
    forall s | s in Sightings(folders, id)
      ensures Listed(folders, s) && s.id == id
      ensures |s.state.mailboxIDs| == 1 && ServingFolders(folders, id) == ToSet(s.state.mailboxIDs) != {}
    {
      SightedIsListed(folders, id, s);
      OneFolderServes(folders, s);
    }
    AgreedIsKeptIfServed(mem, c, id);
  }

  lemma {:induction false} OneFolderRunIsKept(mem: Memory, run: seq<Cycle>, id: string)
    requires PossibleRun(mem, run)
    requires forall k | 0 <= k < |run| && run[k].account.Reachable? :: OneFolderEach(run[k].account.folders)
    ensures KeptRun(mem, run, id)
    decreases |run|
  {
    if run != [] {
      if run[0].account.Reachable? {
        OneFolderIsKept(mem, run[0], id);
      }
      assert forall k | 0 <= k < |run| - 1 :: run[1..][k] == run[k + 1];
      OneFolderRunIsKept(After(mem, run[0]), run[1..], id);
    }
  }

  /** With one folder per email replay gives the memory, over any run, partial syncs included. */
  lemma {:induction false} OneFolderReplays(run: seq<Cycle>)
    requires PossibleRun(FRESH, run)
    requires forall k | 0 <= k < |run| && run[k].account.Reachable? :: OneFolderEach(run[k].account.folders)
    ensures ReplayAll(map[], RunOut(FRESH, run)) == Views(RunTo(FRESH, run).messages)
  {
    forall id
      ensures KeptRun(FRESH, run, id)
    {
      OneFolderRunIsKept(FRESH, run, id);
    }
    ReplayReproducesMemory(run);
    assert run[..|run|] == run;
    assert Reproduced(run);
  }

  // ---------------------------------------------------------------------
  // A repeat is quiet
  // ---------------------------------------------------------------------

  lemma {:induction false} NothingNew(messages: map<string, MessageState>, summaries: seq<Summary>)
    requires forall s | s in summaries :: s.id in messages
    ensures NewIn(messages, summaries) == []
    ensures ChangedIn(messages, summaries) == [] <==> forall s | s in summaries :: SameState(messages[s.id], s.state)
  {
    if summaries != [] {
      var n := |summaries| - 1;
      NothingNew(messages, summaries[..n]);
      assert forall s :: s in summaries <==> s in summaries[..n] || s == summaries[n];
    }
  }

  /** Some entry of a folder gives it a type. */
  ghost predicate GivesType(folders: seq<Folder>, f: string)
  {
    exists k :: 0 <= k < |folders| && folders[k].box.id == f && folders[k].box.kind != ""
  }

  lemma GivesTypeGrows(front: seq<Folder>, last: Folder, f: string)
    ensures GivesType(front + [last], f) <==> GivesType(front, f) || (last.box.id == f && last.box.kind != "")
  {
    var folders := front + [last];
    assert folders[|front|] == last;
    if k :| 0 <= k < |front| && front[k].box.id == f && front[k].box.kind != "" {
      assert folders[k] == front[k];
    }
    if k :| 0 <= k < |folders| && folders[k].box.id == f && folders[k].box.kind != "" {
      assert k < |front| ==> front[k] == folders[k];
    }
  }

  /** The kinds a scan ends with: those known before, and those of the typed folders. */
  lemma {:induction false} TypesExactly(mem: Memory, folders: seq<Folder>, f: string)
    ensures f in ScanAll(mem, folders).types <==> f in mem.types || GivesType(folders, f)
  {
    if folders != [] {
      var n := |folders| - 1;
      TypesExactly(mem, folders[..n], f);
      GivesTypeGrows(folders[..n], folders[n], f);
      assert folders[..n] + [folders[n]] == folders;
    }
  }

  ghost predicate AllKnown(mem: Memory, folders: seq<Folder>)
  {
    && (forall k | 0 <= k < |folders| && folders[k].box.kind != "" :: folders[k].box.id in mem.types)
    && (forall k, s | 0 <= k < |folders| && folders[k].answer.Some? && s in folders[k].answer.value ::
         s.id in mem.messages)
  }

  ghost predicate FolderIsQuiet(mem: Memory, folder: Folder)
  {
    && folder.box.id in mem.types
    && (folder.answer.Some? ==>
         forall s | s in folder.answer.value :: s.id in mem.messages && SameState(mem.messages[s.id], s.state))
  }

  lemma {:induction false} QuietScan(mem: Memory, folders: seq<Folder>)
    requires AllKnown(mem, folders)
    ensures ScanAll(mem, folders).work == [] && ScanAll(mem, folders).types.Keys == mem.types.Keys
    ensures ScanAll(mem, folders).out == [] <==> forall k | 0 <= k < |folders| :: FolderIsQuiet(mem, folders[k])
  {
    if folders != [] {
      var n := |folders| - 1;
      assert forall k | 0 <= k < n :: folders[..n][k] == folders[k];
      QuietScan(mem, folders[..n]);
      if folders[n].answer.Some? {
        NothingNew(mem.messages, folders[n].answer.value);
      }
    }
  }

  lemma NobodyIn(ids: seq<string>)
    ensures ToSet(ids) == {} <==> ids == []
  {
    assert ids != [] ==> ids[0] in ToSet(ids);
  }

  /** Every folder has a kind, now or from an earlier sync. */
  ghost predicate Typed(mem: Memory, folders: seq<Folder>)
  {
    forall k | 0 <= k < |folders| :: folders[k].box.id in mem.types || GivesType(folders, folders[k].box.id)
  }

  /** Every listing of a message counts as unchanged from its last one. */
  ghost predicate Unchanging(folders: seq<Folder>)
  {
    forall k, s | 0 <= k < |folders| && folders[k].answer.Some? && s in folders[k].answer.value ::
      s.id in AccountOf(folders) && SameState(AccountOf(folders)[s.id], s.state)
  }

  lemma {:induction false} QuietIsTypedAndUnchanging(mem: Memory, after: Memory, folders: seq<Folder>)
    requires after.types == ScanAll(mem, folders).types && after.messages == AccountOf(folders)
    ensures (forall k | 0 <= k < |folders| :: FolderIsQuiet(after, folders[k]))
       <==> Typed(mem, folders) && Unchanging(folders)
  {
    forall k | 0 <= k < |folders|
      ensures folders[k].box.id in after.types
        <==> folders[k].box.id in mem.types || GivesType(folders, folders[k].box.id)
    {
      TypesExactly(mem, folders, folders[k].box.id);
    }
  }

  lemma AfterIsAllKnown(mem: Memory, c: Cycle)
    requires Possible(mem, c) && c.account.Reachable?
    requires forall k | 0 <= k < |c.account.folders| :: c.account.folders[k].answer.Some?
    ensures AllKnown(After(mem, c), c.account.folders)
  {
    var folders := c.account.folders;
    CompleteSyncRemembersTheAccount(mem, c);
    forall k | 0 <= k < |folders| && folders[k].box.kind != ""
      ensures folders[k].box.id in After(mem, c).types
    {
      assert GivesType(folders, folders[k].box.id);
      TypesExactly(mem, folders, folders[k].box.id);
    }
    forall k, s | 0 <= k < |folders| && folders[k].answer.Some? && s in folders[k].answer.value
      ensures s.id in AccountOf(folders)
    {
      assert Listed(folders, s);
      ScanSeesListed(FRESH, folders, s.id);
    }
  }

  /**
   A second complete sync over an unchanged account downloads nothing and forgets
   nothing, and emits nothing if and only if every folder is typed and no message is
   listed in two ways.
   */
  lemma RepeatIsQuiet(mem: Memory, first: Cycle, second: Cycle)
    requires Possible(mem, first) && Possible(After(mem, first), second)
    requires first.account.Reachable? && second.account == first.account
    requires forall k | 0 <= k < |first.account.folders| :: first.account.folders[k].answer.Some?
    ensures ScanAll(After(mem, first), second.account.folders).work == []
    ensures After(After(mem, first), second).messages == After(mem, first).messages
    ensures OutOf(After(mem, first), second) == []
      <==> Typed(mem, first.account.folders) && Unchanging(first.account.folders)
  {
    var folders, after := first.account.folders, After(mem, first);
    CompleteSyncRemembersTheAccount(mem, first);
    CompleteSyncRemembersTheAccount(after, second);
    AfterIsAllKnown(mem, first);
    QuietScan(after, folders);
    QuietIsTypedAndUnchanging(mem, after, folders);
    SeenIsTheAccount(after, folders);
    NobodyIn(second.gone);
  }

  // ---------------------------------------------------------------------
  // Deletions are safe
  // ---------------------------------------------------------------------

  lemma {:induction false} ScanDeletesNothing(mem: Memory, folders: seq<Folder>, u: Update)
    requires u in ScanAll(mem, folders).out
    ensures u.FolderCreated? || u.MessageUpdated?
  {
    var n := |folders| - 1;
    var scan := ScanAll(mem, folders[..n]);
    if u in scan.out {
      ScanDeletesNothing(mem, folders[..n], u);
    } else if folders[n].answer.Some? {
      ChangesOnlyUpdate(mem.messages, folders[n].answer.value, u);
    }
  }

  lemma {:induction false} ChangesOnlyUpdate(messages: map<string, MessageState>, summaries: seq<Summary>, u: Update)
    ensures u in ChangedIn(messages, summaries) ==> u.MessageUpdated?
  {
    if summaries != [] {
      ChangesOnlyUpdate(messages, summaries[..|summaries| - 1], u);
    }
  }

  /** A deletion goes out only when every folder answered, none lists the message, and it was known. */
  lemma DeletionsAreSafe(mem: Memory, c: Cycle, id: string)
    requires Possible(mem, c) && MessageDeleted(id) in OutOf(mem, c)
    ensures c.account.Reachable?
    ensures forall k | 0 <= k < |c.account.folders| :: c.account.folders[k].answer.Some?
    ensures forall s | Listed(c.account.folders, s) :: s.id != id
    ensures id in mem.messages && id !in After(mem, c).messages
  {
    var folders := c.account.folders;
    var scan := ScanAll(mem, folders);
    if MessageDeleted(id) in scan.out {
      ScanDeletesNothing(mem, folders, MessageDeleted(id));
    }
    AnnouncementsOnlyCreate(scan.work, c.sents);
    assert MessageDeleted(id) in Deletions(c.gone);
    assert id in ToSet(c.gone);
    ScanComplete(mem, folders);
    ScanSeesListed(mem, folders, id);
  }

  /** Between two deletions of a message some sync saw it again. */
  lemma {:induction false} DeletedOnce(mem: Memory, run: seq<Cycle>, id: string)
    requires PossibleRun(mem, run) && id !in mem.messages
    requires forall k | 0 <= k < |run| && run[k].account.Reachable? ::
      forall s | Listed(run[k].account.folders, s) :: s.id != id
    ensures MessageDeleted(id) !in RunOut(mem, run) && id !in RunTo(mem, run).messages
    decreases |run|
  {
    if run != [] {
      var c := run[0];
      if MessageDeleted(id) in OutOf(mem, c) {
        DeletionsAreSafe(mem, c, id);
      }
      if c.account.Reachable? {
        ScanSeesListed(mem, c.account.folders, id);
      }
      assert forall k | 0 <= k < |run| - 1 :: run[1..][k] == run[k + 1];
      DeletedOnce(After(mem, c), run[1..], id);
    }
  }

  // ---------------------------------------------------------------------
  // Folders first
  // ---------------------------------------------------------------------

  lemma {:induction false} ScanAnnouncesFolders(mem: Memory, folders: seq<Folder>, f: string)
    ensures f in ScanAll(mem, folders).types && f !in mem.types ==> FolderCreated(f) in ScanAll(mem, folders).out
    ensures (exists w :: w in ScanAll(mem, folders).work && w.folder == f)
      ==> f in mem.types || FolderCreated(f) in ScanAll(mem, folders).out
  {
    if folders != [] {
      ScanAnnouncesFolders(mem, folders[..|folders| - 1], f);
    }
  }

  /** Every folder of a known kind was created by some update. */
  ghost predicate FoldersAnnounced(types: map<string, string>, us: seq<Update>)
  {
    forall f | f in types :: FolderCreated(f) in us
  }

  /** Every folder of no known kind is announced, also when listing it then fails. */
  lemma {:induction false} UnknownFoldersAreCreated(mem: Memory, folders: seq<Folder>, k: nat)
    requires k < |folders|
    ensures folders[k].box.id in mem.types || FolderCreated(folders[k].box.id) in ScanAll(mem, folders).out
  {
    var n := |folders| - 1;
    if k < n {
      UnknownFoldersAreCreated(mem, folders[..n], k);
    } else {
      ScanAnnouncesFolders(mem, folders[..n], folders[n].box.id);
    }
  }

  lemma {:induction false} AnnouncedFolderIsCreated(mem: Memory, cy: Cycle, c: Created)
    requires Possible(mem, cy) && cy.account.Reachable?
    requires Announces(Announcements(ScanAll(mem, cy.account.folders).work, cy.sents), c)
    ensures c.folder in mem.types || FolderCreated(c.folder) in ScanAll(mem, cy.account.folders).out
  {
    var scan := ScanAll(mem, cy.account.folders);
    AnnouncementsExactly(scan.work, cy.sents, c);
    var w :| w in scan.work && DueIn(w, c);
    ScanAnnouncesFolders(mem, cy.account.folders, c.folder);
  }

  lemma {:induction false} FolderFirstInCycle(mem: Memory, cy: Cycle, before: seq<Update>, p: nat, c: Created)
    requires Possible(mem, cy) && FoldersAnnounced(mem.types, before)
    requires p < |OutOf(mem, cy)| && OutOf(mem, cy)[p].MessagesCreated? && c in OutOf(mem, cy)[p].batch
    ensures FolderCreated(c.folder) in before || FolderCreated(c.folder) in OutOf(mem, cy)[..p]
  {
    var now, scan := OutOf(mem, cy), ScanAll(mem, cy.account.folders);
    var announced := Announcements(scan.work, cy.sents);
    if p < |scan.out| {
      ScanDeletesNothing(mem, cy.account.folders, now[p]);
    }
    assert now[p] == announced[p - |scan.out|];
    assert Announces(announced, c);
    AnnouncedFolderIsCreated(mem, cy, c);
    assert now[..p] == scan.out + now[|scan.out|..p];
  }

  lemma {:induction false} TypedFoldersAnnounced(mem: Memory, cy: Cycle, before: seq<Update>)
    requires Possible(mem, cy) && FoldersAnnounced(mem.types, before)
    ensures FoldersAnnounced(After(mem, cy).types, before + OutOf(mem, cy))
  {
    forall f | f in After(mem, cy).types
      ensures FolderCreated(f) in before + OutOf(mem, cy)
    {
      if cy.account.Reachable? {
        ScanAnnouncesFolders(mem, cy.account.folders, f);
      }
    }
  }

  /** A message is announced only in a folder some earlier update of the run created. */
  lemma {:induction false} FoldersComeFirst(mem: Memory, run: seq<Cycle>, before: seq<Update>, p: nat, c: Created)
    requires PossibleRun(mem, run)
    requires FoldersAnnounced(mem.types, before)
    requires p < |RunOut(mem, run)| && RunOut(mem, run)[p].MessagesCreated? && c in RunOut(mem, run)[p].batch
    ensures FolderCreated(c.folder) in before || FolderCreated(c.folder) in RunOut(mem, run)[..p]
    decreases |run|
  {
    var cy := run[0];
    var now, mem' := OutOf(mem, cy), After(mem, cy);
    var rest := RunOut(mem', run[1..]);
    assert RunOut(mem, run) == now + rest;
    InOneOfTwo(now, rest, p);
    if p < |now| {
      FolderFirstInCycle(mem, cy, before, p, c);
    } else {
      TypedFoldersAnnounced(mem, cy, before);
      FoldersComeFirst(mem', run[1..], before + now, p - |now|, c);
    }
  }

  lemma InOneOfTwo(now: seq<Update>, rest: seq<Update>, p: nat)
    requires p < |now + rest|
    ensures p < |now| ==> (now + rest)[p] == now[p] && (now + rest)[..p] == now[..p]
    ensures p >= |now| ==>
      (now + rest)[p] == rest[p - |now|] && (now + rest)[..p] == now + rest[..p - |now|]
  {
  }
}
