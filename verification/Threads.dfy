/** The conversations remembered during a sync, against asking the backend every time. */
module Threads {
  import opened Bytes

  /** text and html are empty when the API sends none. */
  datatype Email = Email(id: string, text: string, html: string, preview: string)

  datatype Opened = Opened(text: string, preview: string)

  /**
   The account's keys: which text bodies are envelopes, and what opening one
   gives, None when the account cannot open it.
   */
  datatype Account = Account(isEncrypted: string -> bool, open: string -> Option<Opened>)

  /** The email to serve, and whether an error came with it; Missing has only the error. */
  datatype Got = Got(email: Email, failed: bool) | Missing

  type Backend = string -> Option<seq<Email>>

  function DecryptBody(a: Account, e: Email): Got
  {
    if !a.isEncrypted(e.text) then Got(e, false)
    else
      match a.open(e.text)
      case None => Got(e, true)
      case Some(o) =>
        Got(e.(text := o.preview, html := o.text, preview := if o.preview != "" then o.preview else e.preview), false)
  }

  function Find(thread: seq<Email>, id: string): Option<Email>
  {
    if thread == [] then None
    else if thread[0].id == id then Some(thread[0])
    else Find(thread[1..], id)
  }

  function PickFromThread(a: Account, thread: seq<Email>, id: string): Got
  {
    match Find(thread, id)
    case Some(e) => DecryptBody(a, e)
    case None => if |thread| == 1 then DecryptBody(a, thread[0]) else Missing
  }

  /** The reference: one question to the backend per email. */
  function GetEmail(a: Account, b: Backend, id: string): Got
  {
    match b(id)
    case None => Missing
    case Some(thread) => PickFromThread(a, thread, id)
  }

  // ---------------------------------------------------------------------
  // What the reference serves, field by field
  // ---------------------------------------------------------------------

  /** Email i of a conversation is the one an id names: the first with that id, or the only one there is. */
  predicate Picked(thread: seq<Email>, id: string, i: nat)
  {
    && i < |thread|
    && (forall j | 0 <= j < i :: thread[j].id != id)
    && (thread[i].id == id || |thread| == 1)
  }

  /** Whether the account cannot read an email. */
  predicate Unreadable(a: Account, e: Email)
  {
    a.isEncrypted(e.text) && a.open(e.text).None?
  }

  /**
   How an email is shown: an envelope that opens gives its text as html, and its
   preview as text and, unless it is empty, as preview; anything else is as it came.
   */
  predicate Shown(a: Account, e: Email, s: Email)
  {
    if a.isEncrypted(e.text) && a.open(e.text).Some? then
      var o := a.open(e.text).value;
      && s.id == e.id && s.html == o.text && s.text == o.preview
      && (o.preview != "" ==> s.preview == o.preview) && (o.preview == "" ==> s.preview == e.preview)
    else s == e
  }

  /** An answer for an id: the email it names, shown; an error only when it is unreadable. */
  ghost predicate Answers(a: Account, b: Backend, id: string, got: Got)
  {
    match b(id)
    case None => got.Missing?
    case Some(thread) =>
      if got.Missing? then forall i: nat :: !Picked(thread, id, i)
      else exists i: nat :: Picked(thread, id, i) && Shown(a, thread[i], got.email)
                            && (got.failed ==> Unreadable(a, thread[i]))
  }

  lemma {:induction false} FindPicks(thread: seq<Email>, id: string)
    ensures match Find(thread, id)
      case None => forall i | 0 <= i < |thread| :: thread[i].id != id
      case Some(e) => exists i: nat :: i < |thread| && thread[i] == e && e.id == id && Picked(thread, id, i)
  {
    if thread != [] && thread[0].id == id {
      assert Picked(thread, id, 0);
    } else if thread != [] {
      FindPicks(thread[1..], id);
      if e :| Find(thread[1..], id) == Some(e) {
        var i: nat :| i < |thread[1..]| && thread[1..][i] == e && e.id == id && Picked(thread[1..], id, i);
        forall j | 0 <= j < i + 1
          ensures thread[j].id != id
        {
          assert j > 0 ==> thread[1..][j - 1] == thread[j];
        }
        assert Picked(thread, id, i + 1);
      }
    }
  }

  lemma OnePicked(thread: seq<Email>, id: string, i: nat, j: nat)
    requires Picked(thread, id, i) && Picked(thread, id, j)
    ensures i == j
  {
  }

  /** The reference answers right, and mentions an error exactly when the email is unreadable. */
  lemma {:induction false} GetEmailAnswers(a: Account, b: Backend, id: string)
    ensures Answers(a, b, id, GetEmail(a, b, id))
    ensures b(id).Some? ==> forall i: nat | Picked(b(id).value, id, i) ::
      GetEmail(a, b, id).Got? && (GetEmail(a, b, id).failed <==> Unreadable(a, b(id).value[i]))
  {
    if b(id).Some? {
      var thread := b(id).value;
      FindPicks(thread, id);
      if Find(thread, id).None? && |thread| == 1 {
        assert Picked(thread, id, 0);
      }
      forall i: nat, j: nat | Picked(thread, id, i) && Picked(thread, id, j)
        ensures i == j
      {
        OnePicked(thread, id, i, j);
      }
    }
  }

  /** So does whoever serves the same email. */
  lemma {:induction false} SameEmailAnswers(a: Account, b: Backend, id: string, got: Got)
    requires SameEmail(got, GetEmail(a, b, id))
    ensures Answers(a, b, id, got)
  {
    GetEmailAnswers(a, b, id);
  }

  // ---------------------------------------------------------------------
  // The cached path
  // ---------------------------------------------------------------------

  type Cache = map<string, Email>

  /** Each email opened, or left as it came when it cannot be. */
  function OpenAll(a: Account, thread: seq<Email>, n: nat): seq<Email>
    requires n <= |thread|
  {
    if n == 0 then []
    else
      var e := thread[n - 1];
      var got := PickFromThread(a, thread, e.id);
      OpenAll(a, thread, n - 1) + [if got.Missing? || got.failed then e else got.email]
  }

  function RememberAll(c: Cache, thread: seq<Email>): Cache
  {
    if thread == [] then c
    else
      var last := thread[|thread| - 1];
      RememberAll(c, thread[..|thread| - 1])[last.id := last]
  }

  datatype Fetch = Fetch(got: Got, cache: Cache, asked: bool)

  /** What a call does once it missed: ask, open the conversation, remember it, pick the email. */
  function Fetched(a: Account, b: Backend, c: Cache, id: string): Fetch
  {
    match b(id)
    case None => Fetch(Missing, c, true)
    case Some(thread) =>
      var plain := OpenAll(a, thread, |thread|);
      Fetch(PickFromThread(a, plain, id), RememberAll(c, plain), true)
  }

  /** A whole call that nothing interrupts. */
  function Cached(a: Account, b: Backend, c: Cache, id: string): Fetch
  {
    if id in c then Fetch(Got(c[id], false), c, false) else Fetched(a, b, c, id)
  }

  // ---------------------------------------------------------------------
  // The cache is transparent
  // ---------------------------------------------------------------------

  ghost predicate DistinctIds(thread: seq<Email>)
  {
    forall i, j | 0 <= i < j < |thread| :: thread[i].id != thread[j].id
  }

  ghost predicate InThread(thread: seq<Email>, id: string)
  {
    exists e :: e in thread && e.id == id
  }

  /** Every email of a conversation leads back to that conversation. */
  ghost predicate Partitions(b: Backend)
  {
    forall id, e | b(id).Some? && e in b(id).value ::
      b(e.id) == b(id) && DistinctIds(b(id).value)
  }

  /** A preview is never itself an envelope. */
  ghost predicate PlainPreviews(a: Account)
  {
    forall t | a.isEncrypted(t) && a.open(t).Some? :: !a.isEncrypted(a.open(t).value.preview)
  }

  lemma {:induction false} FindDistinct(thread: seq<Email>, e: Email)
    requires DistinctIds(thread) && e in thread
    ensures Find(thread, e.id) == Some(e)
  {
    if thread[0] != e {
      assert e in thread[1..];
      FindDistinct(thread[1..], e);
    }
  }

  lemma {:induction false} FindExactly(thread: seq<Email>, id: string)
    ensures Find(thread, id).Some? <==> InThread(thread, id)
    ensures Find(thread, id).Some? ==> Find(thread, id).value in thread && Find(thread, id).value.id == id
  {
    if thread != [] {
      FindExactly(thread[1..], id);
    }
  }

  /** What the cache keeps of an email: its opened form, or the email itself. */
  function Kept(a: Account, e: Email): Email
  {
    DecryptBody(a, e).email
  }

  /** Opening what was opened changes nothing and fails as before. */
  lemma OpenTwice(a: Account, e: Email)
    requires PlainPreviews(a)
    ensures Kept(a, e).id == e.id && DecryptBody(a, Kept(a, e)) == DecryptBody(a, e)
  {
  }

  lemma {:induction false} OpenAllIsPointwise(a: Account, thread: seq<Email>, n: nat)
    requires DistinctIds(thread) && n <= |thread|
    ensures |OpenAll(a, thread, n)| == n
    ensures forall i | 0 <= i < n :: OpenAll(a, thread, n)[i] == Kept(a, thread[i])
  {
    if n > 0 {
      OpenAllIsPointwise(a, thread, n - 1);
      FindDistinct(thread, thread[n - 1]);
    }
  }

  lemma {:induction false} FindOpened(a: Account, thread: seq<Email>, plain: seq<Email>, id: string)
    requires PlainPreviews(a) && |plain| == |thread|
    requires forall i | 0 <= i < |thread| :: plain[i] == Kept(a, thread[i])
    ensures Find(plain, id) == if Find(thread, id).Some? then Some(Kept(a, Find(thread, id).value)) else None
  {
    if thread != [] {
      OpenTwice(a, thread[0]);
      FindOpened(a, thread[1..], plain[1..], id);
    }
  }

  /** Picking from the opened conversation is picking from the one the API sent. */
  lemma {:induction false} PickOpened(a: Account, thread: seq<Email>, id: string)
    requires PlainPreviews(a) && DistinctIds(thread)
    ensures PickFromThread(a, OpenAll(a, thread, |thread|), id) == PickFromThread(a, thread, id)
  {
    var plain := OpenAll(a, thread, |thread|);
    OpenAllIsPointwise(a, thread, |thread|);
    FindOpened(a, thread, plain, id);
    if Find(thread, id).Some? {
      OpenTwice(a, Find(thread, id).value);
    } else if |thread| == 1 {
      OpenTwice(a, thread[0]);
    }
  }

  lemma {:induction false} RememberedExactly(c: Cache, thread: seq<Email>, id: string)
    requires DistinctIds(thread)
    ensures id in RememberAll(c, thread) <==> id in c || InThread(thread, id)
    ensures InThread(thread, id) ==> RememberAll(c, thread)[id] in thread && RememberAll(c, thread)[id].id == id
    ensures !InThread(thread, id) && id in c ==> RememberAll(c, thread)[id] == c[id]
  {
    if thread != [] {
      var n := |thread| - 1;
      RememberedExactly(c, thread[..n], id);
      assert InThread(thread, id) <==> InThread(thread[..n], id) || thread[n].id == id by {
        assert forall e :: e in thread <==> e in thread[..n] || e == thread[n];
      }
    }
  }

  /** Email i is the last of a conversation with an id. */
  ghost predicate LastWith(thread: seq<Email>, id: string, i: nat)
  {
    && i < |thread| && thread[i].id == id
    && (forall j | i < j < |thread| :: thread[j].id != id)
  }

  /** Every email of the conversation is found under its id afterwards, the last of equal ids; nothing else changes. */
  lemma {:induction false} LastRemembered(c: Cache, thread: seq<Email>, id: string)
    ensures forall i: nat | LastWith(thread, id, i) ::
      id in RememberAll(c, thread) && RememberAll(c, thread)[id] == thread[i]
    ensures !InThread(thread, id) ==>
      (id in RememberAll(c, thread) <==> id in c) && (id in c ==> RememberAll(c, thread)[id] == c[id])
  {
    if thread != [] {
      var n := |thread| - 1;
      LastRemembered(c, thread[..n], id);
      forall i: nat | LastWith(thread, id, i)
        ensures i == n || (thread[n].id != id && LastWith(thread[..n], id, i))
      {
        assert forall j | 0 <= j < n :: thread[..n][j] == thread[j];
      }
      if !InThread(thread, id) {
        assert thread[n] in thread && forall e | e in thread[..n] :: e in thread;
      }
    }
  }

  /** Whatever is remembered is what the reference would serve, with its whole conversation. */
  ghost predicate Faithful(a: Account, b: Backend, c: Cache)
  {
    forall id | id in c ::
      && b(id).Some? && InThread(b(id).value, id)
      && GetEmail(a, b, id).Got? && c[id] == GetEmail(a, b, id).email
      && (forall e | e in b(id).value :: e.id in c)
  }

  lemma {:induction false} OpenedIds(a: Account, thread: seq<Email>, id: string)
    requires DistinctIds(thread) && PlainPreviews(a)
    ensures DistinctIds(OpenAll(a, thread, |thread|))
    ensures InThread(OpenAll(a, thread, |thread|), id) <==> InThread(thread, id)
  {
    var plain := OpenAll(a, thread, |thread|);
    OpenAllIsPointwise(a, thread, |thread|);
    forall i | 0 <= i < |thread|
      ensures plain[i].id == thread[i].id
    {
      OpenTwice(a, thread[i]);
    }
    if InThread(thread, id) {
      var e :| e in thread && e.id == id;
      var i :| 0 <= i < |thread| && thread[i] == e;
      assert plain[i] in plain;
    }
    if InThread(plain, id) {
      var e :| e in plain && e.id == id;
      var i :| 0 <= i < |thread| && plain[i] == e;
      assert thread[i] in thread;
    }
  }

  lemma EmptyThreadsAreDistinct(b: Backend, id: string)
    requires Partitions(b) && b(id).Some?
    ensures DistinctIds(b(id).value)
  {
    if b(id).value != [] {
      assert b(id).value[0] in b(id).value;
    }
  }

  /** The conversation the backend answers with for x holds k. */
  ghost predicate LeadsTo(b: Backend, x: string, k: string)
  {
    b(x).Some? && InThread(b(x).value, k)
  }

  /** What remembering a conversation leaves at k. */
  ghost predicate ServedAt(a: Account, b: Backend, c: Cache, thread: seq<Email>, k: string)
  {
    var cache := RememberAll(c, OpenAll(a, thread, |thread|));
    && (k in cache <==> k in c || InThread(thread, k))
    && (InThread(thread, k) ==>
         b(k) == Some(thread) && GetEmail(a, b, k).Got? && cache[k] == GetEmail(a, b, k).email)
    && (!InThread(thread, k) && k in c ==> cache[k] == c[k])
  }

  lemma {:induction false} RememberedIsServed(a: Account, b: Backend, c: Cache, id: string, k: string)
    requires Partitions(b) && PlainPreviews(a) && b(id).Some? && DistinctIds(b(id).value)
    ensures ServedAt(a, b, c, b(id).value, k)
  {
    var thread := b(id).value;
    var plain := OpenAll(a, thread, |thread|);
    OpenedIds(a, thread, k);
    RememberedExactly(c, plain, k);
    if InThread(thread, k) {
      KeptIsServed(a, b, id, k, RememberAll(c, plain)[k]);
    }
  }

  lemma {:induction false} RememberedIsFaithful(a: Account, b: Backend, c: Cache, id: string)
    requires Partitions(b) && PlainPreviews(a) && Faithful(a, b, c)
    requires b(id).Some? && DistinctIds(b(id).value)
    ensures var cache := RememberAll(c, OpenAll(a, b(id).value, |b(id).value|));
      Faithful(a, b, cache) && forall k :: k in cache <==> k in c || LeadsTo(b, id, k)
  {
    var thread := b(id).value;
    var cache := RememberAll(c, OpenAll(a, thread, |thread|));
    forall k
      ensures ServedAt(a, b, c, thread, k)
      ensures k in cache <==> k in c || LeadsTo(b, id, k)
    {
      RememberedIsServed(a, b, c, id, k);
    }
    forall k | k in cache
      ensures b(k).Some? && InThread(b(k).value, k)
      ensures GetEmail(a, b, k).Got? && cache[k] == GetEmail(a, b, k).email
      ensures forall e | e in b(k).value :: e.id in cache
    {
      assert ServedAt(a, b, c, thread, k);
      forall e | e in b(k).value
        ensures e.id in cache
      {
        assert ServedAt(a, b, c, thread, e.id);
      }
    }
  }

  /**
   A call that missed answers with exactly what the reference does, whatever was
   remembered in the meantime, and remembers its whole conversation.
   */
  lemma {:induction false} FetchedIsTransparent(a: Account, b: Backend, c: Cache, id: string)
    requires Partitions(b) && PlainPreviews(a) && Faithful(a, b, c)
    ensures Fetched(a, b, c, id).got == GetEmail(a, b, id)
    ensures Faithful(a, b, Fetched(a, b, c, id).cache)
    ensures forall k :: k in Fetched(a, b, c, id).cache <==> k in c || LeadsTo(b, id, k)
  {
    if b(id).Some? {
      EmptyThreadsAreDistinct(b, id);
      PickOpened(a, b(id).value, id);
      RememberedIsFaithful(a, b, c, id);
    }
  }

  /** One call: the email of the reference, its error too unless the cache answered, and the cache stays faithful. */
  lemma CachedIsTransparent(a: Account, b: Backend, c: Cache, id: string)
    requires Partitions(b) && PlainPreviews(a) && Faithful(a, b, c)
    ensures var f, want := Cached(a, b, c, id), GetEmail(a, b, id);
      && (f.got.Missing? <==> want.Missing?)
      && (f.got.Got? ==> f.got.email == want.email && (f.asked ==> f.got.failed == want.failed))
      && (f.asked <==> id !in c)
      && Faithful(a, b, f.cache)
      && (forall k :: k in f.cache <==> k in c || LeadsTo(b, id, k))
  {
    FetchedIsTransparent(a, b, c, id);
    if id in c {
      forall k | LeadsTo(b, id, k)
        ensures k in c
      {
        var e :| e in b(id).value && e.id == k;
      }
    }
  }

  lemma {:induction false} KeptIsServed(a: Account, b: Backend, id: string, k: string, kept: Email)
    requires Partitions(b) && PlainPreviews(a) && b(id).Some? && DistinctIds(b(id).value)
    requires InThread(b(id).value, k) && kept in OpenAll(a, b(id).value, |b(id).value|) && kept.id == k
    ensures b(k) == b(id) && GetEmail(a, b, k).Got? && kept == GetEmail(a, b, k).email
  {
    var thread := b(id).value;
    var plain := OpenAll(a, thread, |thread|);
    OpenAllIsPointwise(a, thread, |thread|);
    var i :| 0 <= i < |thread| && plain[i] == kept;
    OpenTwice(a, thread[i]);
    assert thread[i] in thread;
    FindDistinct(thread, thread[i]);
  }

  // ---------------------------------------------------------------------
  // Runs
  // ---------------------------------------------------------------------

  datatype Call = GetCall(id: string) | ForgetCall

  /** What a run of calls answered, the cache it left and the questions it asked the backend. */
  datatype Trace = Trace(answers: seq<Got>, cache: Cache, asked: seq<string>)

  function Run(a: Account, b: Backend, calls: seq<Call>): Trace
  {
    if calls == [] then Trace([], map[], [])
    else
      var t := Run(a, b, calls[..|calls| - 1]);
      match calls[|calls| - 1]
      case ForgetCall => t.(cache := map[])
      case GetCall(id) =>
        var f := Cached(a, b, t.cache, id);
        Trace(t.answers + [f.got], f.cache, t.asked + if f.asked then [id] else [])
  }

  function Wanted(a: Account, b: Backend, calls: seq<Call>): seq<Got>
  {
    if calls == [] then []
    else
      var last := calls[|calls| - 1];
      Wanted(a, b, calls[..|calls| - 1]) + if last.GetCall? then [GetEmail(a, b, last.id)] else []
  }

  predicate SameEmail(x: Got, y: Got)
  {
    (x.Missing? <==> y.Missing?) && (x.Got? ==> x.email == y.email && (x.failed ==> y.failed))
  }

  /** Any sequence of calls serves what the reference serves; only an error may go unmentioned. */
  lemma {:induction false} CacheIsTransparent(a: Account, b: Backend, calls: seq<Call>)
    requires Partitions(b) && PlainPreviews(a)
    ensures var t, want := Run(a, b, calls), Wanted(a, b, calls);
      && |t.answers| == |want|
      && (forall i | 0 <= i < |want| :: SameEmail(t.answers[i], want[i]))
      && Faithful(a, b, t.cache)
  {
    if calls != [] {
      var front, last := calls[..|calls| - 1], calls[|calls| - 1];
      CacheIsTransparent(a, b, front);
      if last.GetCall? {
        CachedIsTransparent(a, b, Run(a, b, front).cache, last.id);
      }
    }
  }

  // ---------------------------------------------------------------------
  // The error a hit drops
  // ---------------------------------------------------------------------

  /** One call answers with exactly what the reference does, unless it is a hit on an email that fails to open. */
  lemma {:induction false} HitDropsTheErrorExactly(a: Account, b: Backend, c: Cache, id: string)
    requires Partitions(b) && PlainPreviews(a) && Faithful(a, b, c)
    ensures Cached(a, b, c, id).got == GetEmail(a, b, id) <==> id !in c || !GetEmail(a, b, id).failed
  {
    CachedIsTransparent(a, b, c, id);
  }

  /** The calls since the last forget. */
  function Current(calls: seq<Call>): seq<Call>
  {
    if calls == [] || calls[|calls| - 1].ForgetCall? then []
    else Current(calls[..|calls| - 1]) + [calls[|calls| - 1]]
  }

  /** Some call since the last forget asked for an email of the same conversation. */
  ghost predicate Remembered(b: Backend, calls: seq<Call>, id: string)
  {
    exists x :: GetCall(x) in Current(calls) && LeadsTo(b, x, id)
  }

  /** The cache holds what was asked for since the last forget, with its conversations, and nothing else. */
  lemma {:induction false} CacheHoldsExactly(a: Account, b: Backend, calls: seq<Call>, k: string)
    requires Partitions(b) && PlainPreviews(a)
    ensures k in Run(a, b, calls).cache <==> Remembered(b, calls, k)
  {
    if calls != [] && calls[|calls| - 1].GetCall? {
      var front, last := calls[..|calls| - 1], calls[|calls| - 1];
      CacheHoldsExactly(a, b, front, k);
      CacheIsTransparent(a, b, front);
      CachedIsTransparent(a, b, Run(a, b, front).cache, last.id);
      assert last == GetCall(last.id);
      assert forall x :: GetCall(x) in Current(calls) <==> GetCall(x) in Current(front) || x == last.id;
    }
  }

  /**
   Over any run: an answer is the reference's, its error included, unless the email
   fails to open and its conversation was asked for since the last forget.
   */
  lemma {:induction false} RunDropsTheErrorExactly(a: Account, b: Backend, calls: seq<Call>, id: string)
    requires Partitions(b) && PlainPreviews(a)
    ensures var t, want := Run(a, b, calls + [GetCall(id)]), GetEmail(a, b, id);
      && |t.answers| > 0
      && (t.answers[|t.answers| - 1] == want <==> !(want.Got? && want.failed && Remembered(b, calls, id)))
  {
    assert (calls + [GetCall(id)])[..|calls|] == calls;
    CacheIsTransparent(a, b, calls);
    CacheHoldsExactly(a, b, calls, id);
    HitDropsTheErrorExactly(a, b, Run(a, b, calls).cache, id);
  }

  /** An email that cannot be opened, asked for twice: only the first answer says so. */
  lemma {:induction false} SecondAnswerIsSilent()
    ensures var a := Account(_ => true, _ => None);
      var b: Backend := id => if id == "m" then Some([Email("m", "sealed", "", "")]) else None;
      var answers := Run(a, b, [GetCall("m"), GetCall("m")]).answers;
      |answers| == 2 && answers[0].Got? && answers[0].failed && answers[1] == Got(answers[0].email, false)
  {
    var a := Account(_ => true, _ => None);
    var e := Email("m", "sealed", "", "");
    var b: Backend := id => if id == "m" then Some([e]) else None;
    var one := [GetCall("m")];
    assert [GetCall("m"), GetCall("m")][..1] == one && one[..0] == [];
    assert [e][..0] == [];
    assert OpenAll(a, [e], 1) == OpenAll(a, [e], 0) + [e];
    assert RememberAll(map[], [e]) == RememberAll(map[], [])["m" := e];
    assert Run(a, b, []) == Trace([], map[], []);
    assert Run(a, b, one) == Trace([Got(e, true)], map["m" := e], ["m"]);
  }

  /** The id asked for is in the conversation the backend answers with. */
  ghost predicate AnswersToTheId(b: Backend, id: string)
  {
    LeadsTo(b, id, id)
  }

  /** Everything in the conversation an id asked for led to is remembered. */
  ghost predicate Absorbed(b: Backend, t: Trace, i: nat)
  {
    i < |t.asked| && b(t.asked[i]).Some? && forall e | e in b(t.asked[i]).value :: e.id in t.cache
  }

  lemma {:induction false} AskedIsRemembered(a: Account, b: Backend, calls: seq<Call>)
    requires Partitions(b) && PlainPreviews(a)
    requires forall c | c in calls :: c.GetCall? && AnswersToTheId(b, c.id)
    ensures forall i | 0 <= i < |Run(a, b, calls).asked| :: Absorbed(b, Run(a, b, calls), i)
  {
    if calls != [] {
      var front, last := calls[..|calls| - 1], calls[|calls| - 1];
      var t, t' := Run(a, b, front), Run(a, b, calls);
      assert last in calls && forall c | c in front :: c in calls;
      AskedIsRemembered(a, b, front);
      CacheIsTransparent(a, b, front);
      CachedIsTransparent(a, b, t.cache, last.id);
      forall i | 0 <= i < |t'.asked|
        ensures Absorbed(b, t', i)
      {
        assert i < |t.asked| ==> Absorbed(b, t, i) && t'.asked[i] == t.asked[i];
      }
    }
  }

  lemma {:induction false} NotAskedBefore(b: Backend, t: Trace, id: string, i: nat)
    requires Absorbed(b, t, i) && AnswersToTheId(b, id) && id !in t.cache
    ensures b(t.asked[i]) != b(id)
  {
    var e :| e in b(id).value && e.id == id;
  }

  ghost predicate OncePerConversation(b: Backend, asked: seq<string>)
  {
    forall i, j | 0 <= i < j < |asked| :: b(asked[i]) != b(asked[j])
  }

  lemma {:induction false} OnceMore(b: Backend, t: Trace, id: string)
    requires OncePerConversation(b, t.asked) && AnswersToTheId(b, id) && id !in t.cache
    requires forall i | 0 <= i < |t.asked| :: Absorbed(b, t, i)
    ensures OncePerConversation(b, t.asked + [id])
  {
    forall i | 0 <= i < |t.asked|
      ensures b(t.asked[i]) != b(id)
    {
      NotAskedBefore(b, t, id, i);
    }
  }

  /** Between two forgets the backend is asked at most once for each conversation. */
  lemma {:induction false} OneQuestionPerConversation(a: Account, b: Backend, calls: seq<Call>)
    requires Partitions(b) && PlainPreviews(a)
    requires forall c | c in calls :: c.GetCall? && AnswersToTheId(b, c.id)
    ensures OncePerConversation(b, Run(a, b, calls).asked)
  {
    if calls != [] {
      var front, last := calls[..|calls| - 1], calls[|calls| - 1];
      var t := Run(a, b, front);
      assert last in calls && forall c | c in front :: c in calls;
      OneQuestionPerConversation(a, b, front);
      AskedIsRemembered(a, b, front);
      if last.id !in t.cache {
        OnceMore(b, t, last.id);
        assert Run(a, b, calls).asked == t.asked + [last.id];
      } else {
        assert Run(a, b, calls).asked == t.asked + [] == t.asked;
      }
    }
  }
}
