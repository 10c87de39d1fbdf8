/** How many messages one batch can carry: which sizes some interleaving sends, for every configuration. */
module Bounds {
  import opened Bytes
  import opened Announce

  /** Those of the first k summaries that parse, in order. */
  function Parsed(parses: seq<bool>, k: nat): seq<nat>
    requires k <= |parses|
  {
    if k == 0 then [] else Parsed(parses, k - 1) + if parses[k - 1] then [k - 1] else []
  }

  function CrowdPhase(c: Config, k: nat, i: nat): Phase
    requires i < |c.parses|
  {
    if k <= i then Queued
    else if !c.parses[i] || |Parsed(c.parses, i)| < c.batch - 1 then Finished
    else Flushing
  }

  /** The first k summaries appended, and everyone who saw a full batch still waiting to flush it. */
  function Crowd(c: Config, k: nat): State
    requires k <= |c.parses|
  {
    var phases := seq(|c.parses|, i requires 0 <= i < |c.parses| => CrowdPhase(c, k, i));
    State(phases, k, Parsed(c.parses, k), [], k, Spawning)
  }

  lemma CrowdPhases(c: Config, k: nat)
    requires 0 < k <= |c.parses|
    ensures Crowd(c, k).phases == Crowd(c, k - 1).phases[k - 1 := CrowdPhase(c, k, k - 1)]
  {
  }

  lemma {:induction false} CrowdLive(c: Config, k: nat)
    requires Sensible(c) && k <= |c.parses|
    ensures var n := |Parsed(c.parses, k)|;
      Count(Crowd(c, k).phases, Live) == if n < c.batch then 0 else n - (c.batch - 1)
  {
    if k == 0 {
      AllQueued(|c.parses|);
      assert Crowd(c, 0).phases == AllOf(|c.parses|, Queued);
    } else {
      CrowdLive(c, k - 1);
      CrowdPhases(c, k);
      CountAfter(Crowd(c, k - 1).phases, Live, k - 1, CrowdPhase(c, k, k - 1));
    }
  }

  /** As long as the last summary but k found a free goroutine, all of the first k can be appended. */
  lemma {:induction false} CrowdReached(c: Config, k: nat) returns (actions: seq<Action>)
    requires Sensible(c) && k <= |c.parses|
    requires k > 0 ==> |Parsed(c.parses, k - 1)| < c.batch - 1 + c.limit
    ensures Legal(c, Init(c), actions) && Exec(c, Init(c), actions) == Crowd(c, k)
  {
    if k == 0 {
      actions := [];
      assert Init(c) == Crowd(c, 0);
    } else {
      var i := k - 1;
      actions := CrowdReached(c, i);
      CrowdLive(c, i);
      ExecNext(c, Init(c), actions, Spawn);
      actions := actions + [Spawn];
      ExecNext(c, Init(c), actions, Advance(i));
      actions := actions + [Advance(i)];
      ExecNext(c, Init(c), actions, Append(i));
      actions := actions + [Append(i)];
      CrowdGrows(c, i);
    }
  }

  lemma CrowdGrows(c: Config, i: nat)
    requires Sensible(c) && i < |c.parses| && Count(Crowd(c, i).phases, Live) < c.limit
    ensures Step(c, Step(c, Step(c, Crowd(c, i), Spawn), Advance(i)), Append(i)) == Crowd(c, i + 1)
  {
    CrowdPhases(c, i + 1);
    var ps := Crowd(c, i).phases[i := Fetching][i := Fetched];
    assert ps[i := CrowdPhase(c, i + 1, i)] == Crowd(c, i + 1).phases;
  }

  /** Where the k-th summary that parses is. */
  lemma {:induction false} KthParsed(parses: seq<bool>, n: nat, k: nat) returns (i: nat)
    requires n <= |parses| && 0 < k <= |Parsed(parses, n)|
    ensures i < n && parses[i] && |Parsed(parses, i)| == k - 1
  {
    if |Parsed(parses, n - 1)| < k {
      i := n - 1;
    } else {
      i := KthParsed(parses, n - 1, k);
    }
  }

  lemma {:induction false} ParsedHas(parses: seq<bool>, k: nat, x: nat)
    requires k <= |parses| && x < k && parses[x]
    ensures x in Parsed(parses, k)
  {
    if x < k - 1 {
      ParsedHas(parses, k - 1, x);
    }
  }

  lemma {:induction false} CopiesInConcat(sent: seq<seq<nat>>, b: seq<nat>, x: nat)
    requires b in sent
    ensures Copies(b, x) <= Copies(Concat(sent), x)
  {
    if b != sent[0] {
      CopiesInConcat(sent[1..], b, x);
    }
  }

  lemma FewerCopies(b: seq<nat>, p: seq<nat>)
    requires forall x: nat :: Copies(b, x) <= Copies(p, x)
    ensures |b| <= |p|
  {
    assert multiset(b) <= multiset(p) by {
      forall x: nat
        ensures multiset(b)[x] <= multiset(p)[x]
      {
        assert Copies(b, x) <= Copies(p, x);
      }
    }
    assert multiset(p) == multiset(b) + (multiset(p) - multiset(b));
    assert |multiset(p)| == |multiset(b)| + |multiset(p) - multiset(b)|;
  }

  /** No batch holds more messages than parse. */
  lemma {:induction false} BatchOfParsed(c: Config, actions: seq<Action>, b: seq<nat>)
    requires Sensible(c) && Legal(c, Init(c), actions) && b in Exec(c, Init(c), actions).sent
    ensures |b| <= |Parsed(c.parses, |c.parses|)|
  {
    InitInv(c);
    ExecInv(c, Init(c), actions);
    var s := Exec(c, Init(c), actions);
    forall x: nat
      ensures Copies(b, x) <= Copies(Parsed(c.parses, |c.parses|), x)
    {
      CopiesInConcat(s.sent, b, x);
      assert Copies(Concat(s.sent), x) <= Everywhere(s, x);
      if x in b {
        assert Appended(c, s, x);
        ParsedHas(c.parses, |c.parses|, x);
      }
    }
    FewerCopies(b, Parsed(c.parses, |c.parses|));
  }

  ghost predicate SentOfSize(s: State, k: nat)
  {
    exists b :: b in s.sent && |b| == k
  }

  /** Some interleaving sends a batch of k messages. */
  ghost predicate CanSend(c: Config, k: nat)
  {
    exists actions :: Legal(c, Init(c), actions) && SentOfSize(Exec(c, Init(c), actions), k)
  }

  lemma {:induction false} FullBatchIsSent(c: Config, k: nat)
    requires Sensible(c) && c.batch <= k <= c.batch - 1 + c.limit && k <= |Parsed(c.parses, |c.parses|)|
    ensures CanSend(c, k)
  {
    var i := KthParsed(c.parses, |c.parses|, k);
    var actions := CrowdReached(c, i + 1);
    var s := Crowd(c, i + 1);
    ExecNext(c, Init(c), actions, Take(i));
    ExecNext(c, Init(c), actions + [Take(i)], Send(i));
    actions := actions + [Take(i)] + [Send(i)];
    assert Exec(c, Init(c), actions).sent == [s.pending];
    assert s.pending in [s.pending];
  }

  /**
   For every configuration, a batch that is full or more than full can go out with k
   messages exactly when that many parse and k is at most batch - 1 + limit.
   */
  lemma {:induction false} LargeBatchesExactly(c: Config, k: nat)
    requires Sensible(c) && k >= c.batch
    ensures CanSend(c, k) <==> k <= |Parsed(c.parses, |c.parses|)| && k <= c.batch - 1 + c.limit
  {
    if k <= |Parsed(c.parses, |c.parses|)| && k <= c.batch - 1 + c.limit {
      FullBatchIsSent(c, k);
    }
    if CanSend(c, k) {
      var actions :| Legal(c, Init(c), actions) && SentOfSize(Exec(c, Init(c), actions), k);
      var b :| b in Exec(c, Init(c), actions).sent && |b| == k;
      BatchBound(c, actions, b);
      BatchOfParsed(c, actions, b);
    }
  }

  /** More than `batch` messages can go out at once exactly when two workers may run and more than `batch` parse. */
  lemma {:induction false} OverfullExactly(c: Config)
    requires Sensible(c)
    ensures (exists k :: k > c.batch && CanSend(c, k)) <==> c.limit > 1 && |Parsed(c.parses, |c.parses|)| > c.batch
  {
    if c.limit > 1 && |Parsed(c.parses, |c.parses|)| > c.batch {
      LargeBatchesExactly(c, c.batch + 1);
    }
    if k :| k > c.batch && CanSend(c, k) {
      LargeBatchesExactly(c, k);
    }
  }

  /**
   The source's constants. With eight workers a batch of 16 to 22 messages goes out
   in some interleaving exactly when that many parse, and none is larger; with one
   worker none exceeds 15.
   */
  lemma {:induction false} SourceBounds(parses: seq<bool>, k: nat)
    ensures var c := Config(parses, MESSAGE_ANNOUNCE_BATCH, FETCH_BODY_CONCURRENCY);
      k > 15 ==> (CanSend(c, k) <==> k <= 22 && k <= |Parsed(parses, |parses|)|)
    ensures var c := Config(parses, MESSAGE_ANNOUNCE_BATCH, 1);
      k > 15 ==> !CanSend(c, k)
  {
    if k > 15 {
      LargeBatchesExactly(Config(parses, MESSAGE_ANNOUNCE_BATCH, FETCH_BODY_CONCURRENCY), k);
      LargeBatchesExactly(Config(parses, MESSAGE_ANNOUNCE_BATCH, 1), k);
    }
  }
}
