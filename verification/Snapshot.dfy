/** What the connector remembers of a message, and when it counts as changed. */
module Snapshot {
  import opened Bytes

  datatype MessageState = MessageState(mailboxIDs: seq<string>, isRead: bool, isFlagged: bool, isDraft: bool)

  datatype Flag = FlagSeen | FlagFlagged | FlagDraft

  /** What a mail client sees of a message: the folders it is in, and its flags. */
  datatype Entry = Entry(folders: set<string>, flags: set<Flag>)

  function FlagsOf(s: MessageState): set<Flag>
  {
    (if s.isRead then {FlagSeen} else {})
    + (if s.isFlagged then {FlagFlagged} else {})
    + (if s.isDraft then {FlagDraft} else {})
  }

  function ToSet(ids: seq<string>): set<string>
  {
    set id | id in ids
  }

  function View(s: MessageState): Entry
  {
    Entry(ToSet(s.mailboxIDs), FlagsOf(s))
  }

  /** sameAs: equal flags, equal length, and every folder of s among those of t. */
  predicate SameState(s: MessageState, t: MessageState)
  {
    && s.isRead == t.isRead && s.isFlagged == t.isFlagged && s.isDraft == t.isDraft
    && |s.mailboxIDs| == |t.mailboxIDs|
    && (forall id | id in s.mailboxIDs :: id in t.mailboxIDs)
  }

  method SameAs(s: MessageState, t: MessageState) returns (same: bool)
    ensures same == SameState(s, t)
  {
    if s.isRead != t.isRead || s.isFlagged != t.isFlagged || s.isDraft != t.isDraft {
      return false;
    }
    if |s.mailboxIDs| != |t.mailboxIDs| {
      return false;
    }
    for i := 0 to |s.mailboxIDs|
      invariant forall k | 0 <= k < i :: s.mailboxIDs[k] in t.mailboxIDs
    {
      if s.mailboxIDs[i] !in t.mailboxIDs {
        return false;
      }
    }
    return true;
  }

  lemma {:induction false} SetSize(ids: seq<string>)
    ensures |ToSet(ids)| <= |ids|
    ensures Distinct(ids) ==> |ToSet(ids)| == |ids|
  {
    if ids != [] {
      var last, rest := ids[|ids| - 1], ids[..|ids| - 1];
      SetSize(rest);
      assert ToSet(ids) == ToSet(rest) + {last};
    }
  }

  lemma SubsetOfSameSize(a: set<string>, b: set<string>)
    requires a <= b && |a| >= |b|
    ensures a == b
  {
    if x :| x in b && x !in a {
      assert a <= b - {x};
      SubsetSize(a, b - {x});
    }
  }

  lemma {:induction false} SubsetSize(a: set<string>, b: set<string>)
    requires a <= b
    ensures |a| <= |b|
  {
    if x :| x in a {
      SubsetSize(a - {x}, b - {x});
    }
  }

  /** One inclusion and equal lengths decide equality of what a client sees, given no repeats. */
  lemma SameStateIsSameView(s: MessageState, t: MessageState)
    requires Distinct(s.mailboxIDs)
    ensures SameState(s, t) ==> View(s) == View(t)
    ensures Distinct(t.mailboxIDs) && View(s) == View(t) ==> SameState(s, t)
  {
    SetSize(s.mailboxIDs);
    SetSize(t.mailboxIDs);
    if SameState(s, t) {
      SubsetOfSameSize(ToSet(s.mailboxIDs), ToSet(t.mailboxIDs));
    }
    if Distinct(t.mailboxIDs) && View(s) == View(t) {
      assert FlagSeen in FlagsOf(s) <==> FlagSeen in FlagsOf(t);
      assert FlagFlagged in FlagsOf(s) <==> FlagFlagged in FlagsOf(t);
      assert FlagDraft in FlagsOf(s) <==> FlagDraft in FlagsOf(t);
      forall id | id in s.mailboxIDs
        ensures id in t.mailboxIDs
      {
        assert id in ToSet(s.mailboxIDs);
      }
    }
  }

  /** With a repeat in the remembered list, a message that moved from the repeat to elsewhere passes for unchanged. */
  lemma RepeatsHideAChange(s: MessageState, i: nat, j: nat, x: string)
    requires i < j < |s.mailboxIDs| && s.mailboxIDs[i] == s.mailboxIDs[j] && x !in s.mailboxIDs
    ensures var t := s.(mailboxIDs := s.mailboxIDs[j := x]);
      SameState(s, t) && View(s) != View(t)
  {
    var t := s.(mailboxIDs := s.mailboxIDs[j := x]);
    forall id | id in s.mailboxIDs
      ensures id in t.mailboxIDs
    {
      var k :| 0 <= k < |s.mailboxIDs| && s.mailboxIDs[k] == id;
      assert t.mailboxIDs[if k == j then i else k] == id;
    }
    assert t.mailboxIDs[j] == x;
    assert x in ToSet(t.mailboxIDs) && x !in ToSet(s.mailboxIDs);
  }

  lemma {:induction false} Unlisted(ids: seq<string>) returns (x: string)
    ensures forall id | id in ids :: |id| < |x|
  {
    if ids == [] {
      x := "x";
    } else {
      var y := Unlisted(ids[1..]);
      x := ids[0] + y + "x";
    }
  }

  /** Passing for unchanged means looking unchanged exactly when no folder is remembered twice. */
  lemma SameStateIsSoundExactly(s: MessageState)
    ensures (forall t :: SameState(s, t) ==> View(s) == View(t)) <==> Distinct(s.mailboxIDs)
  {
    if Distinct(s.mailboxIDs) {
      forall t | SameState(s, t)
        ensures View(s) == View(t)
      {
        SameStateIsSameView(s, t);
      }
    } else {
      var i, j :| 0 <= i < j < |s.mailboxIDs| && s.mailboxIDs[i] == s.mailboxIDs[j];
      var x := Unlisted(s.mailboxIDs);
      assert x !in s.mailboxIDs;
      RepeatsHideAChange(s, i, j, x);
    }
  }
}
