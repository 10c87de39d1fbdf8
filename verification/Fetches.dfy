/**
 The calls that serve one email each, as several goroutines make them at once. Looking
 up what is remembered and remembering a conversation are one step each, under the
 lock; asking the backend is not, so calls overlap between the two.
 */
module Fetches {
  import opened Bytes
  import opened Threads

  /** hit says whether the lookup found the email. */
  datatype Answer = Answer(id: string, got: Got, hit: bool)

  /** asked and ended concern the time since the last forget. */
  datatype State = State(
    cache: Cache,
    busy: seq<Option<string>>,  // for each goroutine, the email it missed and has not answered yet
    asked: seq<string>,         // the ids the backend was asked for
    ended: seq<string>,         // the ids whose answers came and were remembered
    answers: seq<Answer>)

  datatype Action =
    | Begin(w: nat, id: string)   // look up; on a miss, ask the backend
    | End(w: nat)                 // the answer came: open, remember, pick
    | Forget                      // any goroutine, at any time

  function Init(limit: nat): State
  {
    State(map[], seq(limit, _ => None), [], [], [])
  }

  predicate Enabled(s: State, x: Action)
  {
    match x
    case Begin(w, _) => w < |s.busy| && s.busy[w].None?
    case End(w) => w < |s.busy| && s.busy[w].Some?
    case Forget => true
  }

  function Step(a: Account, b: Backend, s: State, x: Action): State
    requires Enabled(s, x)
  {
    match x
    case Begin(w, id) =>
      if id in s.cache then s.(answers := s.answers + [Answer(id, Got(s.cache[id], false), true)])
      else s.(busy := s.busy[w := Some(id)], asked := s.asked + [id])
    case End(w) =>
      var id := s.busy[w].value;
      var f := Fetched(a, b, s.cache, id);
      s.(cache := f.cache, busy := s.busy[w := None], ended := s.ended + [id],
         answers := s.answers + [Answer(id, f.got, false)])
    case Forget => s.(cache := map[], asked := [], ended := [])
  }

  predicate Legal(a: Account, b: Backend, s: State, xs: seq<Action>)
    decreases |xs|, 0
  {
    xs == [] ||
    (Legal(a, b, s, xs[..|xs| - 1]) && Enabled(Exec(a, b, s, xs[..|xs| - 1]), xs[|xs| - 1]))
  }

  function Exec(a: Account, b: Backend, s: State, xs: seq<Action>): State
    requires Legal(a, b, s, xs)
    decreases |xs|, 1
  {
    if xs == [] then s else Step(a, b, Exec(a, b, s, xs[..|xs| - 1]), xs[|xs| - 1])
  }

  lemma {:induction false} ExecNext(a: Account, b: Backend, s: State, xs: seq<Action>, x: Action)
    requires Legal(a, b, s, xs) && Enabled(Exec(a, b, s, xs), x)
    ensures Legal(a, b, s, xs + [x]) && Exec(a, b, s, xs + [x]) == Step(a, b, Exec(a, b, s, xs), x)
  {
    assert (xs + [x])[..|xs|] == xs;
  }

  // ---------------------------------------------------------------------
  // Every answer is the email of the reference
  // ---------------------------------------------------------------------

  /** Some call that ended led to the conversation of k. */
  ghost predicate Known(b: Backend, ended: seq<string>, k: string)
  {
    exists x :: x in ended && LeadsTo(b, x, k)
  }

  /** A call that asked answers as the reference does; a hit serves its email and knows of no error. */
  ghost predicate Right(a: Account, b: Backend, x: Answer)
  {
    var want := GetEmail(a, b, x.id);
    if x.hit then want.Got? && x.got == Got(want.email, false) else x.got == want
  }

  ghost predicate Inv(a: Account, b: Backend, s: State)
  {
    && Faithful(a, b, s.cache)
    && (forall k :: k in s.cache <==> Known(b, s.ended, k))
    && (forall x | x in s.answers :: Right(a, b, x))
  }

  lemma {:induction false} KnownMore(b: Backend, ended: seq<string>, id: string, k: string)
    ensures Known(b, ended + [id], k) <==> Known(b, ended, k) || LeadsTo(b, id, k)
  {
    if x :| x in ended && LeadsTo(b, x, k) {
      assert x in ended + [id];
    }
    assert id in ended + [id];
  }

  lemma {:induction false} EndInv(a: Account, b: Backend, s: State, w: nat)
    requires Partitions(b) && PlainPreviews(a) && Inv(a, b, s) && Enabled(s, End(w))
    ensures Inv(a, b, Step(a, b, s, End(w)))
  {
    var id, s' := s.busy[w].value, Step(a, b, s, End(w));
    FetchedIsTransparent(a, b, s.cache, id);
    forall k
      ensures k in s'.cache <==> Known(b, s'.ended, k)
    {
      KnownMore(b, s.ended, id, k);
    }
  }

  lemma {:induction false} StepInv(a: Account, b: Backend, s: State, x: Action)
    requires Partitions(b) && PlainPreviews(a) && Inv(a, b, s) && Enabled(s, x)
    ensures Inv(a, b, Step(a, b, s, x))
  {
    match x
    case Begin(w, id) =>
    case End(w) => EndInv(a, b, s, w);
    case Forget =>
  }

  lemma {:induction false} ExecInv(a: Account, b: Backend, s: State, xs: seq<Action>)
    requires Partitions(b) && PlainPreviews(a) && Inv(a, b, s) && Legal(a, b, s, xs)
    ensures Inv(a, b, Exec(a, b, s, xs)) && |Exec(a, b, s, xs).busy| == |s.busy|
    decreases |xs|
  {
    if xs != [] {
      ExecInv(a, b, s, xs[..|xs| - 1]);
      StepInv(a, b, Exec(a, b, s, xs[..|xs| - 1]), xs[|xs| - 1]);
    }
  }

  lemma InitInv(a: Account, b: Backend, limit: nat)
    ensures Inv(a, b, Init(limit))
  {
  }

  /**
   In every interleaving every call serves the email of the reference, and its error
   too, unless it was a hit on an email that fails to open.
   */
  lemma {:induction false} EveryCallServesTheEmail(a: Account, b: Backend, limit: nat, xs: seq<Action>, x: Answer)
    requires Partitions(b) && PlainPreviews(a) && Legal(a, b, Init(limit), xs)
    requires x in Exec(a, b, Init(limit), xs).answers
    ensures var want := GetEmail(a, b, x.id);
      SameEmail(x.got, want) && (x.got == want <==> !(x.hit && want.Got? && want.failed))
    ensures Answers(a, b, x.id, x.got)
  {
    InitInv(a, b, limit);
    ExecInv(a, b, Init(limit), xs);
    assert Right(a, b, x);
    SameEmailAnswers(a, b, x.id, x.got);
  }

  /**
   A lookup is a hit exactly when the email's conversation was remembered since the
   last forget; having been asked for is not enough. Only a hit drops an error, and
   then at once; a miss joins the calls in flight.
   */
  lemma {:induction false} ErrorIsDroppedExactly(a: Account, b: Backend, limit: nat, xs: seq<Action>,
                                                 w: nat, id: string)
    requires Partitions(b) && PlainPreviews(a) && Legal(a, b, Init(limit), xs)
    requires Enabled(Exec(a, b, Init(limit), xs), Begin(w, id))
    ensures var s, want := Exec(a, b, Init(limit), xs), GetEmail(a, b, id);
      var s' := Step(a, b, s, Begin(w, id));
      if Known(b, s.ended, id) then
        && want.Got? && s' == s.(answers := s.answers + [Answer(id, Got(want.email, false), true)])
        && (Got(want.email, false) == want <==> !want.failed)
      else s'.answers == s.answers && s'.busy == s.busy[w := Some(id)]
  {
    InitInv(a, b, limit);
    ExecInv(a, b, Init(limit), xs);
  }

  /** However the calls interleave, one that missed mentions the error of the reference. */
  lemma {:induction false} MissKeepsTheError(a: Account, b: Backend, limit: nat, xs: seq<Action>, w: nat)
    requires Partitions(b) && PlainPreviews(a) && Legal(a, b, Init(limit), xs)
    requires Enabled(Exec(a, b, Init(limit), xs), End(w))
    ensures var s := Exec(a, b, Init(limit), xs); var id := s.busy[w].value;
      Step(a, b, s, End(w)).answers == s.answers + [Answer(id, GetEmail(a, b, id), false)]
  {
    InitInv(a, b, limit);
    ExecInv(a, b, Init(limit), xs);
    var s := Exec(a, b, Init(limit), xs);
    FetchedIsTransparent(a, b, s.cache, s.busy[w].value);
  }

  // ---------------------------------------------------------------------
  // How often a conversation is asked for
  // ---------------------------------------------------------------------

  /** A call for x is a call for the conversation of m. */
  ghost predicate Concerns(b: Backend, x: string, m: string)
  {
    b(x) == b(m) && AnswersToTheId(b, x)
  }

  ghost function Count(b: Backend, xs: seq<string>, m: string): nat
  {
    if xs == [] then 0
    else Count(b, xs[..|xs| - 1], m) + if Concerns(b, xs[|xs| - 1], m) then 1 else 0
  }

  lemma {:induction false} CountMore(b: Backend, xs: seq<string>, x: string, m: string)
    ensures Count(b, xs + [x], m) == Count(b, xs, m) + if Concerns(b, x, m) then 1 else 0
  {
    assert (xs + [x])[..|xs|] == xs;
  }

  ghost function One(b: Backend, o: Option<string>, m: string): nat
  {
    if o.Some? && Concerns(b, o.value, m) then 1 else 0
  }

  /** How many calls for the conversation are in flight. */
  ghost function Flying(b: Backend, busy: seq<Option<string>>, m: string): nat
  {
    if busy == [] then 0 else One(b, busy[0], m) + Flying(b, busy[1..], m)
  }

  lemma {:induction false} FlyingBound(b: Backend, busy: seq<Option<string>>, m: string)
    ensures Flying(b, busy, m) <= |busy|
  {
    if busy != [] {
      FlyingBound(b, busy[1..], m);
    }
  }

  lemma {:induction false} FlyingAfter(b: Backend, busy: seq<Option<string>>, w: nat, o: Option<string>, m: string)
    requires w < |busy|
    ensures Flying(b, busy[w := o], m) == Flying(b, busy, m) - One(b, busy[w], m) + One(b, o, m)
  {
    if w == 0 {
      assert busy[w := o][1..] == busy[1..];
    } else {
      assert busy[w := o][1..] == busy[1..][w - 1 := o];
      FlyingAfter(b, busy[1..], w - 1, o, m);
    }
  }

  /** Of one conversation all emails are remembered, or none. */
  lemma {:induction false} AllOrNone(a: Account, b: Backend, c: Cache, x: string, m: string)
    requires Faithful(a, b, c) && AnswersToTheId(b, m) && Concerns(b, x, m)
    ensures x in c <==> m in c
  {
    var ex :| ex in b(x).value && ex.id == x;
    var em :| em in b(m).value && em.id == m;
  }

  /** While the conversation is not remembered every call that asked for it is still in flight. */
  ghost predicate Spread(b: Backend, s: State, m: string)
  {
    && Count(b, s.asked, m) <= |s.busy|
    && (m !in s.cache ==> Count(b, s.asked, m) <= Flying(b, s.busy, m))
  }

  /** What a step does to the remembered conversation, as far as m can tell. */
  ghost predicate Absorbs(a: Account, b: Backend, s: State, x: Action, m: string)
    requires Enabled(s, x)
  {
    match x
    case Begin(_, id) => Concerns(b, id, m) ==> (id in s.cache <==> m in s.cache)
    case End(w) => m in Step(a, b, s, x).cache <==> m in s.cache || LeadsTo(b, s.busy[w].value, m)
    case Forget => true
  }

  lemma {:induction false} StepAbsorbs(a: Account, b: Backend, s: State, x: Action, m: string)
    requires Partitions(b) && PlainPreviews(a) && Inv(a, b, s) && AnswersToTheId(b, m) && Enabled(s, x)
    ensures Absorbs(a, b, s, x, m)
  {
    match x
    case Begin(_, id) =>
      if Concerns(b, id, m) {
        AllOrNone(a, b, s.cache, id, m);
      }
    case End(w) => FetchedIsTransparent(a, b, s.cache, s.busy[w].value);
    case Forget =>
  }

  lemma {:induction false} StepSpread(a: Account, b: Backend, s: State, x: Action, m: string)
    requires Enabled(s, x) && Absorbs(a, b, s, x, m) && AnswersToTheId(b, m) && Spread(b, s, m)
    ensures Spread(b, Step(a, b, s, x), m)
  {
    match x
    case Begin(w, id) =>
      if id !in s.cache {
        CountMore(b, s.asked, id, m);
        FlyingAfter(b, s.busy, w, Some(id), m);
        FlyingBound(b, s.busy[w := Some(id)], m);
      }
    case End(w) => FlyingAfter(b, s.busy, w, None, m);
    case Forget =>
  }

  lemma {:induction false} ExecSpread(a: Account, b: Backend, s: State, xs: seq<Action>, m: string)
    requires Partitions(b) && PlainPreviews(a) && AnswersToTheId(b, m)
    requires Inv(a, b, s) && s.asked == [] && Legal(a, b, s, xs)
    ensures Spread(b, Exec(a, b, s, xs), m)
    decreases |xs|
  {
    if xs != [] {
      var front, last := xs[..|xs| - 1], xs[|xs| - 1];
      ExecInv(a, b, s, front);
      ExecSpread(a, b, s, front, m);
      StepAbsorbs(a, b, Exec(a, b, s, front), last, m);
      StepSpread(a, b, Exec(a, b, s, front), last, m);
    }
  }

  /** In every interleaving, between two forgets a conversation is asked for at most `limit` times. */
  lemma {:induction false} QuestionsBound(a: Account, b: Backend, limit: nat, xs: seq<Action>, m: string)
    requires Partitions(b) && PlainPreviews(a) && AnswersToTheId(b, m) && Legal(a, b, Init(limit), xs)
    ensures Count(b, Exec(a, b, Init(limit), xs).asked, m) <= limit
  {
    InitInv(a, b, limit);
    ExecInv(a, b, Init(limit), xs);
    ExecSpread(a, b, Init(limit), xs, m);
  }

  // ---------------------------------------------------------------------
  // From one forget to the next
  // ---------------------------------------------------------------------

  predicate NoForget(xs: seq<Action>)
  {
    forall x | x in xs :: !x.Forget?
  }

  /** A state just after a forget, or the first one, with no call for the conversation in flight. */
  ghost predicate Cold(a: Account, b: Backend, s: State, m: string)
  {
    && Inv(a, b, s) && s.asked == [] && s.ended == []
    && (forall w | 0 <= w < |s.busy| && s.busy[w].Some? :: b(s.busy[w].value) != b(m))
  }

  lemma {:induction false} NoneFlying(b: Backend, busy: seq<Option<string>>, m: string)
    requires forall w | 0 <= w < |busy| && busy[w].Some? :: b(busy[w].value) != b(m)
    ensures Flying(b, busy, m) == 0
  {
    if busy != [] {
      NoneFlying(b, busy[1..], m);
    }
  }

  lemma {:induction false} ColdStart(a: Account, b: Backend, s: State, m: string)
    requires Cold(a, b, s, m) && AnswersToTheId(b, m)
    ensures Spread(b, s, m) && Accounted(b, s, m)
  {
    NoneFlying(b, s.busy, m);
  }

  /** Every question is in flight or has ended. */
  ghost predicate Accounted(b: Backend, s: State, m: string)
  {
    Count(b, s.asked, m) == Flying(b, s.busy, m) + Count(b, s.ended, m)
  }

  lemma {:induction false} StepAccounted(a: Account, b: Backend, s: State, x: Action, m: string)
    requires Enabled(s, x) && !x.Forget? && Accounted(b, s, m)
    ensures Accounted(b, Step(a, b, s, x), m)
  {
    match x
    case Begin(w, id) =>
      if id !in s.cache {
        CountMore(b, s.asked, id, m);
        FlyingAfter(b, s.busy, w, Some(id), m);
      }
    case End(w) =>
      CountMore(b, s.ended, s.busy[w].value, m);
      FlyingAfter(b, s.busy, w, None, m);
  }

  /** x begins a call for the conversation. */
  ghost predicate Begins(b: Backend, x: Action, m: string)
  {
    x.Begin? && Concerns(b, x.id, m)
  }

  ghost function Calls(b: Backend, xs: seq<Action>, m: string): nat
  {
    if xs == [] then 0
    else Calls(b, xs[..|xs| - 1], m) + if Begins(b, xs[|xs| - 1], m) then 1 else 0
  }

  /** Some call for the conversation begins, and does not find it, while another is in flight. */
  ghost predicate Overlap(a: Account, b: Backend, s: State, xs: seq<Action>, m: string)
    requires Legal(a, b, s, xs)
  {
    xs != [] && (
      var t := Exec(a, b, s, xs[..|xs| - 1]);
      || Overlap(a, b, s, xs[..|xs| - 1], m)
      || (Begins(b, xs[|xs| - 1], m) && m !in t.cache && Flying(b, t.busy, m) > 0))
  }

  /** What one step does to the number of questions. */
  lemma {:induction false} StepAsks(a: Account, b: Backend, s: State, x: Action, m: string)
    requires Inv(a, b, s) && AnswersToTheId(b, m) && Enabled(s, x) && !x.Forget?
    ensures Count(b, Step(a, b, s, x).asked, m)
         == Count(b, s.asked, m) + if Begins(b, x, m) && m !in s.cache then 1 else 0
  {
    match x
    case Begin(w, id) =>
      CountMore(b, s.asked, id, m);
      if Concerns(b, id, m) {
        AllOrNone(a, b, s.cache, id, m);
      }
    case End(w) =>
  }

  lemma {:induction false} ColdRun(a: Account, b: Backend, s: State, xs: seq<Action>, m: string)
    requires Partitions(b) && PlainPreviews(a) && AnswersToTheId(b, m)
    requires Cold(a, b, s, m) && Legal(a, b, s, xs) && NoForget(xs)
    ensures var t := Exec(a, b, s, xs); Inv(a, b, t) && Spread(b, t, m) && Accounted(b, t, m)
    decreases |xs|
  {
    ColdStart(a, b, s, m);
    ExecInv(a, b, s, xs);
    ExecSpread(a, b, s, xs, m);
    if xs != [] {
      var front, last := xs[..|xs| - 1], xs[|xs| - 1];
      assert last in xs && forall x | x in front :: x in xs;
      ColdRun(a, b, s, front, m);
      StepAccounted(a, b, Exec(a, b, s, front), last, m);
    }
  }

  /**
   Between two forgets a conversation is asked for again exactly when some call for it
   begins, without finding it, while another of its calls is in flight.
   */
  lemma {:induction false} AskedAgainExactly(a: Account, b: Backend, s: State, xs: seq<Action>, m: string)
    requires Partitions(b) && PlainPreviews(a) && AnswersToTheId(b, m)
    requires Cold(a, b, s, m) && Legal(a, b, s, xs) && NoForget(xs)
    ensures Count(b, Exec(a, b, s, xs).asked, m) > 1 <==> Overlap(a, b, s, xs, m)
    decreases |xs|
  {
    if xs != [] {
      var front, last := xs[..|xs| - 1], xs[|xs| - 1];
      assert last in xs && forall x | x in front :: x in xs;
      AskedAgainExactly(a, b, s, front, m);
      ColdRun(a, b, s, front, m);
      StepAsks(a, b, Exec(a, b, s, front), last, m);
    }
  }

  // ---------------------------------------------------------------------
  // When every id of the conversation is one of its emails
  // ---------------------------------------------------------------------

  /** Whoever asks for the conversation asks by the id of an email in it. */
  ghost predicate Proper(b: Backend, xs: seq<Action>, m: string)
  {
    forall x | x in xs :: !x.Forget? && (x.Begin? && b(x.id) == b(m) ==> AnswersToTheId(b, x.id))
  }

  /** So do all calls so far. */
  ghost predicate ProperState(b: Backend, s: State, m: string)
  {
    && (forall w | 0 <= w < |s.busy| && s.busy[w].Some? && b(s.busy[w].value) == b(m) ::
          AnswersToTheId(b, s.busy[w].value))
    && (forall x | x in s.ended && b(x) == b(m) :: AnswersToTheId(b, x))
  }

  lemma {:induction false} ProperRun(a: Account, b: Backend, s: State, xs: seq<Action>, m: string)
    requires Cold(a, b, s, m) && Legal(a, b, s, xs) && Proper(b, xs, m)
    ensures ProperState(b, Exec(a, b, s, xs), m)
    decreases |xs|
  {
    if xs != [] {
      var front, last := xs[..|xs| - 1], xs[|xs| - 1];
      assert last in xs && forall x | x in front :: x in xs;
      ProperRun(a, b, s, front, m);
    }
  }

  lemma {:induction false} CountHas(b: Backend, xs: seq<string>, x: string, m: string)
    requires x in xs && Concerns(b, x, m)
    ensures Count(b, xs, m) > 0
  {
    if xs[|xs| - 1] != x {
      assert x in xs[..|xs| - 1];
      CountHas(b, xs[..|xs| - 1], x, m);
    }
  }

  /** A call that led to the conversation was one for it. */
  lemma {:induction false} KnownHasEnded(b: Backend, ended: seq<string>, m: string)
    requires Partitions(b) && Known(b, ended, m)
    requires forall x | x in ended && b(x) == b(m) :: AnswersToTheId(b, x)
    ensures Count(b, ended, m) > 0
  {
    var x :| x in ended && LeadsTo(b, x, m);
    var e :| e in b(x).value && e.id == m;
    assert b(e.id) == b(x);
    CountHas(b, ended, x, m);
  }

  /** Some call for the conversation begins while another is in flight. */
  ghost predicate Meet(a: Account, b: Backend, s: State, xs: seq<Action>, m: string)
    requires Legal(a, b, s, xs)
  {
    xs != [] && (
      || Meet(a, b, s, xs[..|xs| - 1], m)
      || (Begins(b, xs[|xs| - 1], m) && Flying(b, Exec(a, b, s, xs[..|xs| - 1]).busy, m) > 0))
  }

  /**
   A conversation is asked for once, if at all, exactly when no call for it begins
   while another of its calls is in flight; and it is asked for exactly when there is
   a call for it.
   */
  lemma {:induction false} AskedOnceExactly(a: Account, b: Backend, s: State, xs: seq<Action>, m: string)
    requires Partitions(b) && PlainPreviews(a) && AnswersToTheId(b, m)
    requires Cold(a, b, s, m) && Legal(a, b, s, xs) && Proper(b, xs, m)
    ensures var questions := Count(b, Exec(a, b, s, xs).asked, m);
      && (questions <= 1 <==> !Meet(a, b, s, xs, m))
      && (questions > 0 <==> Calls(b, xs, m) > 0)
      && questions <= Calls(b, xs, m)
    decreases |xs|
  {
    if xs != [] {
      var front, last := xs[..|xs| - 1], xs[|xs| - 1];
      assert last in xs && forall x | x in front :: x in xs;
      AskedOnceExactly(a, b, s, front, m);
      var t := Exec(a, b, s, front);
      ColdRun(a, b, s, front, m);
      ProperRun(a, b, s, front, m);
      StepAsks(a, b, t, last, m);
      if m in t.cache {
        KnownHasEnded(b, t.ended, m);
      }
    }
  }

  // ---------------------------------------------------------------------
  // The bound is exact
  // ---------------------------------------------------------------------

  ghost predicate AllIdle(s: State)
  {
    forall w | 0 <= w < |s.busy| :: s.busy[w].None?
  }

  /** Some run of n calls for the conversation, all of them answered, asks for it k times. */
  ghost predicate CanAsk(a: Account, b: Backend, limit: nat, m: string, n: nat, k: nat)
  {
    exists xs :: Legal(a, b, Init(limit), xs) && Asks(b, xs, Exec(a, b, Init(limit), xs), m, n, k)
  }

  ghost predicate Asks(b: Backend, xs: seq<Action>, end: State, m: string, n: nat, k: nat)
  {
    && Proper(b, xs, m) && Calls(b, xs, m) == n
    && AllIdle(end) && Count(b, end.asked, m) == k
  }

  /** What the witness is made of: `from` calls ended of `to` that were asked, and the hits after them. */
  ghost predicate Witness(b: Backend, xs: seq<Action>, s: State, m: string, from: nat, to: nat, n: nat)
  {
    Proper(b, xs, m) && Calls(b, xs, m) == n && Answered(b, s, m, from, to)
  }

  ghost predicate Answered(b: Backend, s: State, m: string, from: nat, to: nat)
  {
    && Count(b, s.asked, m) == to
    && (forall w | 0 <= w < |s.busy| :: s.busy[w] == if from <= w < to then Some(m) else None)
    && (if from > 0 then m in s.cache else s.cache == map[])
  }

  lemma {:induction false} AnswerOneMore(a: Account, b: Backend, s: State, m: string, from: nat, to: nat)
    requires m in Fetched(a, b, s.cache, m).cache
    requires Answered(b, s, m, from, to) && from < to <= |s.busy|
    ensures Enabled(s, End(from)) && Answered(b, Step(a, b, s, End(from)), m, from + 1, to)
  {
  }

  lemma {:induction false} WitnessNext(a: Account, b: Backend, limit: nat, xs: seq<Action>, x: Action, m: string)
    requires Legal(a, b, Init(limit), xs) && Enabled(Exec(a, b, Init(limit), xs), x)
    requires Proper(b, xs, m) && (x.End? || (x.Begin? && AnswersToTheId(b, x.id)))
    ensures Legal(a, b, Init(limit), xs + [x]) && Proper(b, xs + [x], m)
    ensures Exec(a, b, Init(limit), xs + [x]) == Step(a, b, Exec(a, b, Init(limit), xs), x)
    ensures Calls(b, xs + [x], m) == Calls(b, xs, m) + if Begins(b, x, m) then 1 else 0
  {
    ExecNext(a, b, Init(limit), xs, x);
    assert (xs + [x])[..|xs|] == xs;
  }

  lemma {:induction false} AskAtOnce(a: Account, b: Backend, limit: nat, m: string, k: nat) returns (xs: seq<Action>)
    requires AnswersToTheId(b, m) && k <= limit
    ensures Legal(a, b, Init(limit), xs) && Witness(b, xs, Exec(a, b, Init(limit), xs), m, 0, k, k)
    ensures |Exec(a, b, Init(limit), xs).busy| == limit
  {
    if k == 0 {
      xs := [];
    } else {
      var front := AskAtOnce(a, b, limit, m, k - 1);
      var s := Exec(a, b, Init(limit), front);
      WitnessNext(a, b, limit, front, Begin(k - 1, m), m);
      CountMore(b, s.asked, m, m);
      xs := front + [Begin(k - 1, m)];
    }
  }

  lemma {:induction false} AnswerAll(a: Account, b: Backend, limit: nat, m: string, k: nat, j: nat)
    returns (xs: seq<Action>)
    requires Partitions(b) && PlainPreviews(a) && AnswersToTheId(b, m) && j <= k <= limit
    ensures Legal(a, b, Init(limit), xs) && Witness(b, xs, Exec(a, b, Init(limit), xs), m, j, k, k)
    ensures |Exec(a, b, Init(limit), xs).busy| == limit
  {
    if j == 0 {
      xs := AskAtOnce(a, b, limit, m, k);
    } else {
      var front := AnswerAll(a, b, limit, m, k, j - 1);
      var s := Exec(a, b, Init(limit), front);
      InitInv(a, b, limit);
      ExecInv(a, b, Init(limit), front);
      FetchedIsTransparent(a, b, s.cache, m);
      AnswerOneMore(a, b, s, m, j - 1, k);
      WitnessNext(a, b, limit, front, End(j - 1), m);
      xs := front + [End(j - 1)];
    }
  }

  lemma {:induction false} ThenHit(a: Account, b: Backend, limit: nat, m: string, k: nat, n: nat)
    returns (xs: seq<Action>)
    requires Partitions(b) && PlainPreviews(a) && AnswersToTheId(b, m) && 0 < k <= limit && k <= n
    ensures Legal(a, b, Init(limit), xs) && Witness(b, xs, Exec(a, b, Init(limit), xs), m, k, k, n)
    ensures |Exec(a, b, Init(limit), xs).busy| == limit
  {
    if n == k {
      xs := AnswerAll(a, b, limit, m, k, k);
    } else {
      var front := ThenHit(a, b, limit, m, k, n - 1);
      WitnessNext(a, b, limit, front, Begin(0, m), m);
      xs := front + [Begin(0, m)];
    }
  }

  lemma {:induction false} InitIsCold(a: Account, b: Backend, limit: nat, m: string)
    ensures Cold(a, b, Init(limit), m)
  {
    InitInv(a, b, limit);
  }

  /**
   n calls for a conversation, with nothing forgotten, can ask for it k times exactly
   when k is at most `limit` and n, and not 0 unless n is.
   */
  lemma {:induction false} QuestionsExactly(a: Account, b: Backend, limit: nat, m: string, n: nat, k: nat)
    requires Partitions(b) && PlainPreviews(a) && AnswersToTheId(b, m) && limit > 0
    ensures CanAsk(a, b, limit, m, n, k) <==> k <= limit && k <= n && (n > 0 ==> k > 0)
  {
    if CanAsk(a, b, limit, m, n, k) {
      var xs :| Legal(a, b, Init(limit), xs) && Asks(b, xs, Exec(a, b, Init(limit), xs), m, n, k);
      QuestionsBound(a, b, limit, xs, m);
      InitIsCold(a, b, limit, m);
      AskedOnceExactly(a, b, Init(limit), xs, m);
    }
    if k <= limit && k <= n && (n > 0 ==> k > 0) {
      var xs: seq<Action>;
      if n == 0 {
        xs := AskAtOnce(a, b, limit, m, 0);
      } else {
        xs := ThenHit(a, b, limit, m, k, n);
      }
      assert Asks(b, xs, Exec(a, b, Init(limit), xs), m, n, k);
    }
  }

  // ---------------------------------------------------------------------
  // A forget while a call is in flight
  // ---------------------------------------------------------------------

  /** Steps of other goroutines, forgets included. */
  predicate Others(xs: seq<Action>, w: nat)
  {
    forall x | x in xs :: x.Forget? || x.w != w
  }

  lemma {:induction false} OthersLeave(a: Account, b: Backend, s: State, xs: seq<Action>, w: nat)
    requires Legal(a, b, s, xs) && Others(xs, w) && w < |s.busy|
    ensures var t := Exec(a, b, s, xs); |t.busy| == |s.busy| && t.busy[w] == s.busy[w]
    decreases |xs|
  {
    if xs != [] {
      var front, last := xs[..|xs| - 1], xs[|xs| - 1];
      assert last in xs && forall x | x in front :: x in xs;
      OthersLeave(a, b, s, front, w);
    }
  }

  /**
   A forget does not reach a call in flight. Whatever others do meanwhile, that call
   then answers as the reference does and remembers its conversation, which nobody
   need have asked for since the forget.
   */
  lemma {:induction false} ForgetMissesTheFlight(a: Account, b: Backend, s: State, w: nat, meanwhile: seq<Action>)
    requires Partitions(b) && PlainPreviews(a) && Inv(a, b, s) && Enabled(s, End(w))
    requires var forgot := Step(a, b, s, Forget);
      Legal(a, b, forgot, meanwhile) && Others(meanwhile, w)
    ensures var id, t := s.busy[w].value, Exec(a, b, Step(a, b, s, Forget), meanwhile);
      && Enabled(t, End(w))
      && var end := Step(a, b, t, End(w));
         && end.asked == t.asked && end.answers == t.answers + [Answer(id, GetEmail(a, b, id), false)]
         && (forall k | LeadsTo(b, id, k) :: k in end.cache)
         && Inv(a, b, end)
  {
    var forgot := Step(a, b, s, Forget);
    StepInv(a, b, s, Forget);
    ExecInv(a, b, forgot, meanwhile);
    OthersLeave(a, b, forgot, meanwhile, w);
    var t := Exec(a, b, forgot, meanwhile);
    FetchedIsTransparent(a, b, t.cache, s.busy[w].value);
    StepInv(a, b, t, End(w));
  }

  // ---------------------------------------------------------------------
  // One call, whatever others do between its lookup and its answer
  // ---------------------------------------------------------------------

  function AfterCall(a: Account, b: Backend, s: State, w: nat, id: string, meanwhile: seq<Action>): State
    requires Enabled(s, Begin(w, id)) && Others(meanwhile, w)
    requires Legal(a, b, Step(a, b, s, Begin(w, id)), meanwhile)
  {
    var begun := Step(a, b, s, Begin(w, id));
    if id in s.cache then begun
    else
      OthersLeave(a, b, begun, meanwhile, w);
      Step(a, b, Exec(a, b, begun, meanwhile), End(w))
  }

  lemma {:induction false} LegalPrefix(a: Account, b: Backend, s: State, xs: seq<Action>, n: nat)
    requires Legal(a, b, s, xs) && n <= |xs|
    ensures Legal(a, b, s, xs[..n])
    decreases |xs|
  {
    if n == |xs| {
      assert xs[..n] == xs;
    } else {
      LegalPrefix(a, b, s, xs[..|xs| - 1], n);
      assert xs[..|xs| - 1][..n] == xs[..n];
    }
  }

  lemma {:induction false} CallIsTransparent(a: Account, b: Backend, s: State, w: nat, id: string,
                                             meanwhile: seq<Action>)
    requires Enabled(s, Begin(w, id)) && Others(meanwhile, w)
    requires Legal(a, b, Step(a, b, s, Begin(w, id)), meanwhile)
    ensures id !in s.cache ==>
      var t := Exec(a, b, Step(a, b, s, Begin(w, id)), meanwhile);
      w < |t.busy| && t.busy[w] == Some(id)
    ensures Partitions(b) && PlainPreviews(a) && Inv(a, b, s) ==>
      && Inv(a, b, AfterCall(a, b, s, w, id, meanwhile))
      && (id in s.cache <==> Known(b, s.ended, id))
      && (id in s.cache ==> Right(a, b, Answer(id, Got(s.cache[id], false), true)))
      && (id !in s.cache ==>
           var t := Exec(a, b, Step(a, b, s, Begin(w, id)), meanwhile);
           Fetched(a, b, t.cache, id).got == GetEmail(a, b, id))
  {
    var begun := Step(a, b, s, Begin(w, id));
    OthersLeave(a, b, begun, meanwhile, w);
    if Partitions(b) && PlainPreviews(a) && Inv(a, b, s) {
      StepInv(a, b, s, Begin(w, id));
      ExecInv(a, b, begun, meanwhile);
      if id !in s.cache {
        var t := Exec(a, b, begun, meanwhile);
        FetchedIsTransparent(a, b, t.cache, id);
        StepInv(a, b, t, End(w));
      }
    }
  }

  // ---------------------------------------------------------------------
  // One goroutine
  // ---------------------------------------------------------------------

  function Gots(answers: seq<Answer>): seq<Got>
  {
    seq(|answers|, i requires 0 <= i < |answers| => answers[i].got)
  }

  /** No forget comes while a call is in flight. */
  ghost predicate ForgetsWait(a: Account, b: Backend, s: State, xs: seq<Action>)
    requires Legal(a, b, s, xs)
  {
    xs == [] || (
      && ForgetsWait(a, b, s, xs[..|xs| - 1])
      && (xs[|xs| - 1].Forget? ==> AllIdle(Exec(a, b, s, xs[..|xs| - 1]))))
  }

  /** The calls that were answered, and what is left of the last one. */
  ghost predicate InLine(a: Account, b: Backend, s: State, calls: seq<Call>)
  {
    var t := Run(a, b, calls);
    && |s.busy| == 1 && s.cache == t.cache && Gots(s.answers) == t.answers
    && (s.busy[0].Some? ==> s.busy[0].value !in s.cache)
  }

  lemma {:induction false} GotsMore(answers: seq<Answer>, x: Answer)
    ensures Gots(answers + [x]) == Gots(answers) + [x.got]
  {
  }

  lemma {:induction false} RunMore(a: Account, b: Backend, calls: seq<Call>, id: string)
    ensures var t, f := Run(a, b, calls), Cached(a, b, Run(a, b, calls).cache, id);
      var t' := Run(a, b, calls + [GetCall(id)]);
      t'.cache == f.cache && t'.answers == t.answers + [f.got]
    ensures Run(a, b, calls + [ForgetCall]).cache == map[]
    ensures Run(a, b, calls + [ForgetCall]).answers == Run(a, b, calls).answers
  {
    assert (calls + [GetCall(id)])[..|calls|] == calls && (calls + [ForgetCall])[..|calls|] == calls;
  }

  lemma {:induction false} StepInLine(a: Account, b: Backend, s: State, x: Action, calls: seq<Call>)
    returns (calls': seq<Call>)
    requires InLine(a, b, s, calls) && Enabled(s, x) && (x.Forget? ==> AllIdle(s))
    ensures InLine(a, b, Step(a, b, s, x), calls')
  {
    match x
    case Begin(w, id) =>
      if id in s.cache {
        GotsMore(s.answers, Answer(id, Got(s.cache[id], false), true));
        RunMore(a, b, calls, id);
        calls' := calls + [GetCall(id)];
      } else {
        calls' := calls;
      }
    case End(w) =>
      var id := s.busy[w].value;
      GotsMore(s.answers, Answer(id, Fetched(a, b, s.cache, id).got, false));
      RunMore(a, b, calls, id);
      calls' := calls + [GetCall(id)];
    case Forget =>
      RunMore(a, b, calls, "");
      calls' := calls + [ForgetCall];
  }

  /** With one goroutine, and no forget during a call, the calls come one after the other: a sequential run. */
  lemma {:induction false} OneGoroutineIsSequential(a: Account, b: Backend, xs: seq<Action>)
    returns (calls: seq<Call>)
    requires Legal(a, b, Init(1), xs) && ForgetsWait(a, b, Init(1), xs)
    ensures InLine(a, b, Exec(a, b, Init(1), xs), calls)
    decreases |xs|
  {
    if xs == [] {
      calls := [];
    } else {
      var front := OneGoroutineIsSequential(a, b, xs[..|xs| - 1]);
      calls := StepInLine(a, b, Exec(a, b, Init(1), xs[..|xs| - 1]), xs[|xs| - 1], front);
    }
  }
}
