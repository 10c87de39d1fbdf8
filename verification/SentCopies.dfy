/** The bounded memory of which copy the backend filed for a message sent a moment ago. */
module SentCopies {
  import opened Bytes

  const SENT_COPIES_KEPT: nat := 32

  datatype Sent = Sent(copies: map<string, string>, order: seq<string>)

  /** One message sent: the Message-ID its client stamped on it, and the id the backend gave the copy. */
  datatype Filing = Filing(messageID: string, sentID: string)

  const NOTHING := Sent(map[], [])

  function Trim(s: Sent): Sent
    decreases |s.order|
  {
    if |s.order| > SENT_COPIES_KEPT then Trim(Sent(s.copies - {s.order[0]}, s.order[1..])) else s
  }

  predicate Ignored(f: Filing)
  {
    f.messageID == "" || f.sentID == ""
  }

  function File(s: Sent, f: Filing): Sent
  {
    if Ignored(f) then s
    else
      var order := if f.messageID in s.copies then s.order else s.order + [f.messageID];
      Trim(Sent(s.copies[f.messageID := f.sentID], order))
  }

  function FileAll(h: seq<Filing>): Sent
  {
    if h == [] then NOTHING else File(FileAll(h[..|h| - 1]), h[|h| - 1])
  }

  // ---------------------------------------------------------------------
  // What the memory holds, in terms of the history
  // ---------------------------------------------------------------------

  /** The order and the map name the same Message-IDs, the order each once. */
  ghost predicate Matched(s: Sent)
  {
    Distinct(s.order) && forall m :: m in s.copies <==> m in s.order
  }

  ghost predicate Inv(s: Sent)
  {
    Matched(s) && |s.order| <= SENT_COPIES_KEPT
  }

  /** The Message-IDs of a history that were not known when they were filed, in order. */
  function Inserted(h: seq<Filing>): seq<string>
  {
    if h == [] then []
    else
      var front, f := h[..|h| - 1], h[|h| - 1];
      Inserted(front) + if Ignored(f) || f.messageID in FileAll(front).copies then [] else [f.messageID]
  }

  /** The id last filed under a Message-ID. */
  function LastFiled(h: seq<Filing>, messageID: string): Option<string>
  {
    if h == [] then None
    else
      var f := h[|h| - 1];
      if !Ignored(f) && f.messageID == messageID then Some(f.sentID) else LastFiled(h[..|h| - 1], messageID)
  }

  function Newest(s: seq<string>, n: nat): seq<string>
  {
    if |s| <= n then s else s[|s| - n..]
  }

  /** Trimming one entry too many drops the oldest. */
  lemma {:induction false} TrimDropsTheOldest(s: Sent)
    requires Matched(s) && |s.order| <= SENT_COPIES_KEPT + 1
    ensures Inv(Trim(s)) && Trim(s).order == Newest(s.order, SENT_COPIES_KEPT)
    ensures forall m | m in Trim(s).copies :: m in s.copies && Trim(s).copies[m] == s.copies[m]
  {
    if |s.order| > SENT_COPIES_KEPT {
      var oldest, rest := s.order[0], s.order[1..];
      assert s.order == [oldest] + rest && oldest !in rest;
      var shorter := Sent(s.copies - {oldest}, rest);
      forall m
        ensures m in shorter.copies <==> m in shorter.order
      {
        assert m in s.copies <==> m in s.order;
      }
      assert Trim(s) == Trim(shorter) == shorter;
    }
  }

  lemma FileStep(s: Sent, f: Filing)
    requires Inv(s)
    ensures Inv(File(s, f))
    ensures File(s, f).order == if Ignored(f) || f.messageID in s.copies then s.order
                                else Newest(s.order + [f.messageID], SENT_COPIES_KEPT)
    ensures forall m | m in File(s, f).copies ::
      if !Ignored(f) && m == f.messageID then File(s, f).copies[m] == f.sentID
      else m in s.copies && File(s, f).copies[m] == s.copies[m]
  {
    if !Ignored(f) {
      var known := f.messageID in s.copies;
      var longer := Sent(s.copies[f.messageID := f.sentID], if known then s.order else s.order + [f.messageID]);
      assert known ==> f.messageID in s.order;
      assert !known ==> f.messageID !in s.order;
      forall m
        ensures m in longer.copies <==> m in longer.order
      {
        assert m in s.copies <==> m in s.order;
      }
      TrimDropsTheOldest(longer);
    }
  }

  lemma NewestAfter(inserted: seq<string>, m: string, n: nat)
    ensures Newest(Newest(inserted, n) + [m], n) == Newest(inserted + [m], n)
  {
  }

  /**
   After any history: no repeats in the order, the order and the map name the same
   Message-IDs, they are the 32 inserted last, oldest first, and each leads to the
   id last filed under it.
   */
  lemma {:induction false} HoldsTheNewest(h: seq<Filing>)
    ensures Inv(FileAll(h))
    ensures FileAll(h).order == Newest(Inserted(h), SENT_COPIES_KEPT)
    ensures forall m | m in FileAll(h).copies :: LastFiled(h, m) == Some(FileAll(h).copies[m])
  {
    if h != [] {
      var front, f := h[..|h| - 1], h[|h| - 1];
      HoldsTheNewest(front);
      FileStep(FileAll(front), f);
      NewestAfter(Inserted(front), f.messageID, SENT_COPIES_KEPT);
    }
  }

  /** A copy just filed is found; filing under no Message-ID, or no id, changes nothing. */
  lemma {:induction false} FiledIsFound(h: seq<Filing>, messageID: string, sentID: string)
    ensures var before, after := FileAll(h), FileAll(h + [Filing(messageID, sentID)]);
      if messageID == "" || sentID == "" then after == before
      else messageID in after.copies && after.copies[messageID] == sentID
  {
    var f := Filing(messageID, sentID);
    assert (h + [f])[..|h|] == h;
    if !Ignored(f) {
      HoldsTheNewest(h + [f]);
      LookupExactly(h + [f], messageID);
      HoldsTheNewest(h);
      if messageID in FileAll(h).copies {
        LookupExactly(h, messageID);
      }
    }
  }

  /** How many Message-IDs were inserted after the last time this one was. */
  function NewerThan(inserted: seq<string>, m: string): nat
  {
    if inserted == [] || inserted[|inserted| - 1] == m then 0
    else 1 + NewerThan(inserted[..|inserted| - 1], m)
  }

  lemma {:induction false} InNewest(inserted: seq<string>, m: string, n: nat)
    requires m in inserted
    ensures m in Newest(inserted, n) <==> NewerThan(inserted, m) < n
  {
    var last := |inserted| - 1;
    if inserted[last] == m {
    } else if n == 0 {
    } else {
      assert inserted == inserted[..last] + [inserted[last]];
      InNewest(inserted[..last], m, n - 1);
      assert Newest(inserted, n) == Newest(inserted[..last], n - 1) + [inserted[last]];
    }
  }

  /** A lookup finds the id last filed, unless 32 or more newer Message-IDs were inserted since. */
  lemma {:induction false} LookupExactly(h: seq<Filing>, m: string)
    ensures m in FileAll(h).copies
      <==> m in Inserted(h) && NewerThan(Inserted(h), m) < 32
    ensures m in FileAll(h).copies ==> LastFiled(h, m) == Some(FileAll(h).copies[m])
  {
    HoldsTheNewest(h);
    if m in Inserted(h) {
      InNewest(Inserted(h), m, SENT_COPIES_KEPT);
    }
  }
}
