/**
 One Sync as a function of what the account answered, how the downloads
 interleaved and the order the deletions went out in; and whole runs of it.
 */
module SyncModel {
  import opened Bytes
  import opened Snapshot
  import Announce

  /** kind is empty for a folder the account gives no type. */
  datatype Mailbox = Mailbox(id: string, kind: string)

  /** parses says whether the message built from this listing entry is one the IMAP library accepts. */
  datatype Summary = Summary(id: string, state: MessageState, parses: bool)

  /** A folder of the account and its listing, or None when listing it failed. */
  datatype Folder = Folder(box: Mailbox, answer: Option<seq<Summary>>)

  datatype Account = Unreachable | Reachable(folders: seq<Folder>)

  datatype Created = Created(id: string, folder: string, flags: set<Flag>)

  datatype Update =
    | FolderCreated(folder: string)
    | MessagesCreated(batch: seq<Created>)
    | MessageUpdated(id: string, folders: seq<string>, flags: set<Flag>)
    | MessageDeleted(id: string)

  /** The part of the connector a sync reads and writes. */
  datatype Memory = Memory(messages: map<string, MessageState>, types: map<string, string>)

  // ---------------------------------------------------------------------
  // Scanning
  // ---------------------------------------------------------------------

  datatype Work = Work(folder: string, created: seq<Summary>)

  datatype Scan = Scan(
    types: map<string, string>,
    out: seq<Update>,
    work: seq<Work>,
    seen: map<string, MessageState>,
    complete: bool)

  function SeenIn(seen: map<string, MessageState>, summaries: seq<Summary>): map<string, MessageState>
  {
    if summaries == [] then seen
    else
      var last := summaries[|summaries| - 1];
      SeenIn(seen, summaries[..|summaries| - 1])[last.id := last.state]
  }

  function NewIn(messages: map<string, MessageState>, summaries: seq<Summary>): seq<Summary>
  {
    if summaries == [] then []
    else
      var last := summaries[|summaries| - 1];
      NewIn(messages, summaries[..|summaries| - 1]) + if last.id in messages then [] else [last]
  }

  function ChangedIn(messages: map<string, MessageState>, summaries: seq<Summary>): seq<Update>
  {
    if summaries == [] then []
    else
      var last := summaries[|summaries| - 1];
      ChangedIn(messages, summaries[..|summaries| - 1])
      + if last.id in messages && !SameState(messages[last.id], last.state)
        then [MessageUpdated(last.id, last.state.mailboxIDs, FlagsOf(last.state))] else []
  }

  function Remember(types: map<string, string>, box: Mailbox): map<string, string>
  {
    if box.kind == "" then types else types[box.id := box.kind]
  }

  function ScanFolder(messages: map<string, MessageState>, scan: Scan, folder: Folder): Scan
  {
    var box := folder.box;
    var announced := scan.out + if box.id in scan.types then [] else [FolderCreated(box.id)];
    var types := Remember(scan.types, box);
    match folder.answer
    case None => scan.(types := types, out := announced, complete := false)
    case Some(summaries) =>
      var created := NewIn(messages, summaries);
      Scan(types, announced + ChangedIn(messages, summaries),
           scan.work + if created == [] then [] else [Work(box.id, created)],
           SeenIn(scan.seen, summaries), scan.complete)
  }

  function ScanAll(m: Memory, folders: seq<Folder>): Scan
  {
    if folders == [] then Scan(m.types, [], [], map[], true)
    else ScanFolder(m.messages, ScanAll(m, folders[..|folders| - 1]), folders[|folders| - 1])
  }

  // ---------------------------------------------------------------------
  // Announcing and deleting
  // ---------------------------------------------------------------------

  function ParsesOf(created: seq<Summary>): seq<bool>
  {
    seq(|created|, i requires 0 <= i < |created| => created[i].parses)
  }

  function ConfigOf(w: Work): (c: Announce.Config)
    ensures c.batch == 15 && c.limit == 8
  {
    Announce.Config(ParsesOf(w.created), Announce.MESSAGE_ANNOUNCE_BATCH, Announce.FETCH_BODY_CONCURRENCY)
  }

  function ToCreated(folder: string, s: Summary): Created
  {
    Created(s.id, folder, FlagsOf(s.state))
  }

  /** The messages at some indices of a folder's new ones. */
  function MessagesAt(w: Work, indices: seq<nat>): seq<Created>
    requires forall i | i in indices :: i < |w.created|
  {
    seq(|indices|, k requires 0 <= k < |indices| =>
          assert indices[k] in indices; ToCreated(w.folder, w.created[indices[k]]))
  }

  predicate InRange(w: Work, sent: seq<seq<nat>>)
  {
    forall b, i | b in sent && i in b :: i < |w.created|
  }

  function Batches(w: Work, sent: seq<seq<nat>>): seq<Update>
    requires InRange(w, sent)
  {
    seq(|sent|, k requires 0 <= k < |sent| => MessagesCreated(MessagesAt(w, sent[k])))
  }

  ghost predicate Delivered(work: seq<Work>, sents: seq<seq<seq<nat>>>)
  {
    && |sents| == |work|
    && (forall k | 0 <= k < |work| ::
         InRange(work[k], sents[k]) && Announce.ExactlyOnce(ParsesOf(work[k].created), sents[k]))
  }

  function Announcements(work: seq<Work>, sents: seq<seq<seq<nat>>>): seq<Update>
    requires |sents| == |work|
    requires forall k | 0 <= k < |work| :: InRange(work[k], sents[k])
  {
    if work == [] then []
    else
      var n := |work| - 1;
      Announcements(work[..n], sents[..n]) + Batches(work[n], sents[n])
  }

  function Deletions(gone: seq<string>): seq<Update>
  {
    seq(|gone|, k requires 0 <= k < |gone| => MessageDeleted(gone[k]))
  }

  /** gone lists, in some order and without repeats, what was known and is seen nowhere. */
  ghost predicate Missing(messages: map<string, MessageState>, scan: Scan, gone: seq<string>)
  {
    && Distinct(gone)
    && ToSet(gone) == if scan.complete then messages.Keys - scan.seen.Keys else {}
  }

  // ---------------------------------------------------------------------
  // A cycle, and a run of cycles
  // ---------------------------------------------------------------------

  /** What the environment decides in one Sync. */
  datatype Cycle = Cycle(account: Account, sents: seq<seq<seq<nat>>>, gone: seq<string>)

  ghost predicate Possible(m: Memory, c: Cycle)
  {
    c.account.Reachable? ==>
      var scan := ScanAll(m, c.account.folders);
      Delivered(scan.work, c.sents) && Missing(m.messages, scan, c.gone)
  }

  ghost function OutOf(m: Memory, c: Cycle): seq<Update>
    requires Possible(m, c)
  {
    match c.account
    case Unreachable => []
    case Reachable(folders) =>
      var scan := ScanAll(m, folders);
      scan.out + Announcements(scan.work, c.sents) + Deletions(c.gone)
  }

  ghost function After(m: Memory, c: Cycle): Memory
    requires Possible(m, c)
  {
    match c.account
    case Unreachable => m
    case Reachable(folders) =>
      var scan := ScanAll(m, folders);
      Memory((m.messages + scan.seen) - ToSet(c.gone), scan.types)
  }

  ghost predicate PossibleRun(m: Memory, run: seq<Cycle>)
    decreases |run|
  {
    run == [] || (Possible(m, run[0]) && PossibleRun(After(m, run[0]), run[1..]))
  }

  ghost function RunTo(m: Memory, run: seq<Cycle>): Memory
    requires PossibleRun(m, run)
    decreases |run|
  {
    if run == [] then m else RunTo(After(m, run[0]), run[1..])
  }

  ghost function RunOut(m: Memory, run: seq<Cycle>): seq<Update>
    requires PossibleRun(m, run)
    decreases |run|
  {
    if run == [] then [] else OutOf(m, run[0]) + RunOut(After(m, run[0]), run[1..])
  }

  // ---------------------------------------------------------------------
  // Facts about a scan
  // ---------------------------------------------------------------------

  /** Some folder that answered lists s. */
  ghost predicate ListedIn(folders: seq<Folder>, folder: string, s: Summary)
  {
    exists k :: 0 <= k < |folders| && folders[k].box.id == folder && folders[k].answer.Some?
                && s in folders[k].answer.value
  }

  ghost predicate Listed(folders: seq<Folder>, s: Summary)
  {
    exists k :: 0 <= k < |folders| && folders[k].answer.Some? && s in folders[k].answer.value
  }

  lemma {:induction false} SeenExactly(seen: map<string, MessageState>, summaries: seq<Summary>, id: string)
    ensures id in SeenIn(seen, summaries) <==> id in seen || exists s :: s in summaries && s.id == id
    ensures id in SeenIn(seen, summaries) ==>
      var state := SeenIn(seen, summaries)[id];
      (exists s :: s in summaries && s.id == id && s.state == state) || (id in seen && seen[id] == state)
  {
    if summaries != [] {
      SeenExactly(seen, summaries[..|summaries| - 1], id);
      assert summaries[|summaries| - 1] in summaries;
    }
  }

  /** A scan has seen what some answering folder lists, and nothing else. */
  lemma {:induction false} ScanSeesListed(m: Memory, folders: seq<Folder>, id: string)
    ensures id in ScanAll(m, folders).seen <==> exists s :: Listed(folders, s) && s.id == id
    ensures id in ScanAll(m, folders).seen ==>
      exists s :: Listed(folders, s) && s.id == id && s.state == ScanAll(m, folders).seen[id]
  {
    if folders != [] {
      var n := |folders| - 1;
      var front := folders[..n];
      ScanSeesListed(m, front, id);
      forall s
        ensures Listed(folders, s)
          <==> Listed(front, s) || (folders[n].answer.Some? && s in folders[n].answer.value)
      {
        ListedGrows(folders, s);
      }
      if folders[n].answer.Some? {
        SeenExactly(ScanAll(m, front).seen, folders[n].answer.value, id);
      }
    }
  }

  lemma ListedGrows(folders: seq<Folder>, s: Summary)
    requires folders != []
    ensures var n := |folders| - 1;
      Listed(folders, s) <==> Listed(folders[..n], s) || (folders[n].answer.Some? && s in folders[n].answer.value)
  {
    var n := |folders| - 1;
    if Listed(folders[..n], s) {
      var k :| 0 <= k < n && folders[..n][k].answer.Some? && s in folders[..n][k].answer.value;
      assert folders[k].answer.Some? && s in folders[k].answer.value;
    }
    if Listed(folders, s) {
      var k :| 0 <= k < |folders| && folders[k].answer.Some? && s in folders[k].answer.value;
      if k < n {
        assert folders[..n][k].answer.Some? && s in folders[..n][k].answer.value;
      }
    }
  }

  lemma {:induction false} ScanComplete(m: Memory, folders: seq<Folder>)
    ensures ScanAll(m, folders).complete <==> forall k | 0 <= k < |folders| :: folders[k].answer.Some?
  {
    if folders != [] {
      var n := |folders| - 1;
      ScanComplete(m, folders[..n]);
      assert forall k | 0 <= k < n :: folders[..n][k] == folders[k];
    }
  }

  lemma {:induction false} NewExactly(messages: map<string, MessageState>, summaries: seq<Summary>, s: Summary)
    ensures s in NewIn(messages, summaries) <==> s in summaries && s.id !in messages
  {
    if summaries != [] {
      NewExactly(messages, summaries[..|summaries| - 1], s);
    }
  }

  /** The work of a scan is what is listed and not known, folder by folder. */
  lemma {:induction false} WorkExactly(m: Memory, folders: seq<Folder>, folder: string, s: Summary)
    ensures (exists w :: w in ScanAll(m, folders).work && w.folder == folder && s in w.created)
       <==> ListedIn(folders, folder, s) && s.id !in m.messages
  {
    if folders != [] {
      var n := |folders| - 1;
      var front, last := folders[..n], folders[n];
      WorkExactly(m, front, folder, s);
      assert ListedIn(folders, folder, s) <==>
        ListedIn(front, folder, s) || (last.box.id == folder && last.answer.Some? && s in last.answer.value) by {
        if ListedIn(front, folder, s) {
          var k :| 0 <= k < n && front[k].box.id == folder && front[k].answer.Some? && s in front[k].answer.value;
          assert folders[k] == front[k];
        }
        if ListedIn(folders, folder, s) {
          var k :| 0 <= k < |folders| && folders[k].box.id == folder && folders[k].answer.Some?
                   && s in folders[k].answer.value;
          if k < n {
            assert front[k] == folders[k];
          }
        }
      }
      if last.answer.Some? {
        var created := NewIn(m.messages, last.answer.value);
        NewExactly(m.messages, last.answer.value, s);
        var was, now := ScanAll(m, front).work, ScanAll(m, folders).work;
        assert forall w :: w in now <==> w in was || (created != [] && w == Work(last.box.id, created));
        if ListedIn(folders, folder, s) && s.id !in m.messages && !ListedIn(front, folder, s) {
          assert Work(last.box.id, created) in now;
        }
      }
    }
  }

  // ---------------------------------------------------------------------
  // One message in the order the scan meets it
  // ---------------------------------------------------------------------

  function SightingsIn(summaries: seq<Summary>, id: string): seq<Summary>
  {
    if summaries == [] then []
    else
      var last := summaries[|summaries| - 1];
      SightingsIn(summaries[..|summaries| - 1], id) + if last.id == id then [last] else []
  }

  /** Every listing of a message by a folder that answered. */
  function Sightings(folders: seq<Folder>, id: string): seq<Summary>
  {
    if folders == [] then []
    else
      var last := folders[|folders| - 1];
      Sightings(folders[..|folders| - 1], id) + if last.answer.Some? then SightingsIn(last.answer.value, id) else []
  }

  lemma {:induction false} SightedIn(summaries: seq<Summary>, id: string, s: Summary)
    ensures s in SightingsIn(summaries, id) <==> s in summaries && s.id == id
  {
    if summaries != [] {
      SightedIn(summaries[..|summaries| - 1], id, s);
    }
  }

  lemma {:induction false} SightedIsListed(folders: seq<Folder>, id: string, s: Summary)
    ensures s in Sightings(folders, id) <==> Listed(folders, s) && s.id == id
  {
    if folders != [] {
      var n := |folders| - 1;
      SightedIsListed(folders[..n], id, s);
      ListedGrows(folders, s);
      if folders[n].answer.Some? {
        SightedIn(folders[n].answer.value, id, s);
      }
    }
  }

  lemma {:induction false} SeenInIsLast(seen: map<string, MessageState>, summaries: seq<Summary>, id: string)
    ensures var sighted := SightingsIn(summaries, id);
      if sighted == [] then (id in SeenIn(seen, summaries) <==> id in seen)
                            && (id in seen ==> SeenIn(seen, summaries)[id] == seen[id])
      else id in SeenIn(seen, summaries) && SeenIn(seen, summaries)[id] == sighted[|sighted| - 1].state
  {
    if summaries != [] {
      SeenInIsLast(seen, summaries[..|summaries| - 1], id);
    }
  }

  /** What a scan has seen of a message is its last listing. */
  lemma {:induction false} SeenIsLast(m: Memory, folders: seq<Folder>, id: string)
    ensures var seen, sighted := ScanAll(m, folders).seen, Sightings(folders, id);
      && (id in seen <==> sighted != [])
      && (sighted != [] ==> seen[id] == sighted[|sighted| - 1].state)
  {
    if folders != [] {
      var n := |folders| - 1;
      SeenIsLast(m, folders[..n], id);
      if folders[n].answer.Some? {
        SeenInIsLast(ScanAll(m, folders[..n]).seen, folders[n].answer.value, id);
      }
    }
  }
}
