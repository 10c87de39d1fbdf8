/** The mail service's two memories, as the object updates them. */
module MailService {
  import opened Bytes
  import opened Threads
  import Fetches
  import SentCopies

  class MailService {
    const account: Account
    const backend: Backend
    var threads: map<string, Email>
    var busy: seq<Option<string>>       // what each goroutine inside `email` is asking for
    var asked: seq<string>              // the ids GetThread was called with since the last forget
    ghost var ended: seq<string>
    ghost var answers: seq<Fetches.Answer>
    var sentCopies: map<string, string>
    var sentOrder: seq<string>

    constructor (account: Account, backend: Backend, goroutines: nat)
      ensures this.account == account && this.backend == backend
      ensures View() == Fetches.Init(goroutines) && Sent() == SentCopies.NOTHING
    {
      this.account, this.backend := account, backend;
      threads, busy, asked := map[], seq(goroutines, _ => None), [];
      ended, answers := [], [];
      sentCopies, sentOrder := map[], [];
    }

    ghost function View(): Fetches.State
      reads this
    {
      Fetches.State(threads, busy, asked, ended, answers)
    }

    method ForgetThreads()
      modifies this`threads, this`asked, this`ended
      ensures View() == Fetches.Step(account, backend, old(View()), Fetches.Forget)
    {
      threads := map[];
      asked, ended := [], [];
    }

    method RememberThread(thread: seq<Email>)
      modifies this`threads
      ensures threads == RememberAll(old(threads), thread)
    {
      for i := 0 to |thread|
        invariant threads == RememberAll(old(threads), thread[..i])
      {
        assert thread[..i + 1][..i] == thread[..i];
        threads := threads[thread[i].id := thread[i]];
      }
      assert thread[..|thread|] == thread;
    }

    /** The lookup of a call, and on a miss its question; None when the answer is still to come. */
    method BeginEmail(w: nat, id: string) returns (got: Option<Got>)
      requires Fetches.Enabled(View(), Fetches.Begin(w, id))
      modifies this`busy, this`asked, this`answers
      ensures View() == Fetches.Step(account, backend, old(View()), Fetches.Begin(w, id))
      ensures got == if id in threads then Some(Got(threads[id], false)) else None
    {
      if id in threads {
        answers := answers + [Fetches.Answer(id, Got(threads[id], false), true)];
        return Some(Got(threads[id], false));
      }
      busy, asked := busy[w := Some(id)], asked + [id];
      got := None;
    }

    /** The rest of a call that missed, once the backend answered. */
    method EndEmail(w: nat) returns (got: Got)
      requires Fetches.Enabled(View(), Fetches.End(w))
      modifies this`threads, this`busy, this`ended, this`answers
      ensures View() == Fetches.Step(account, backend, old(View()), Fetches.End(w))
      ensures got == Fetched(account, backend, old(threads), old(busy)[w].value).got
    {
      var id := busy[w].value;
      var answer := backend(id);
      if answer.None? {
        got := Missing;
      } else {
        var thread := answer.value;
        var decrypted: seq<Email> := [];
        for i := 0 to |thread|
          invariant decrypted == OpenAll(account, thread, i)
        {
          var one := PickFromThread(account, thread, thread[i].id);
          decrypted := decrypted + [if one.Missing? || one.failed then thread[i] else one.email];
        }
        RememberThread(decrypted);
        got := PickFromThread(account, decrypted, id);
      }
      busy, ended := busy[w := None], ended + [id];
      answers := answers + [Fetches.Answer(id, got, false)];
    }

    /** The next step of some goroutine. */
    method Perform(x: Fetches.Action)
      requires Fetches.Enabled(View(), x)
      modifies this`threads, this`busy, this`asked, this`ended, this`answers
      ensures View() == Fetches.Step(account, backend, old(View()), x)
    {
      match x {
        case Begin(w, id) => var _ := BeginEmail(w, id);
        case End(w) => var _ := EndEmail(w);
        case Forget => ForgetThreads();
      }
    }

    /**
     One call, on goroutine w; meanwhile is what other goroutines do between its
     lookup and the backend's answer, forgets included.
     */
    method EmailOf(w: nat, id: string, meanwhile: seq<Fetches.Action>) returns (got: Got)
      requires Fetches.Enabled(View(), Fetches.Begin(w, id))
      requires var begun := Fetches.Step(account, backend, View(), Fetches.Begin(w, id));
        Fetches.Legal(account, backend, begun, meanwhile) && Fetches.Others(meanwhile, w)
      modifies this`threads, this`busy, this`asked, this`ended, this`answers
      ensures Partitions(backend) && PlainPreviews(account) && Fetches.Inv(account, backend, old(View())) ==>
        var want := GetEmail(account, backend, id);
        && Fetches.Inv(account, backend, View()) && SameEmail(got, want) && Answers(account, backend, id, got)
        && (got == want <==> !(Fetches.Known(backend, old(ended), id) && want.Got? && want.failed))
      ensures View() == Fetches.AfterCall(account, backend, old(View()), w, id, meanwhile)
    {
      ghost var s := View();
      Fetches.CallIsTransparent(account, backend, s, w, id, meanwhile);
      var early := BeginEmail(w, id);
      if early.Some? {
        got := early.value;
        ghost var same := SameEmail(got, GetEmail(account, backend, id));
        if same {
          SameEmailAnswers(account, backend, id, got);
        }
        return;
      }
      ghost var begun := View();
      for i := 0 to |meanwhile|
        invariant Fetches.Legal(account, backend, begun, meanwhile[..i])
        invariant View() == Fetches.Exec(account, backend, begun, meanwhile[..i])
      {
        Fetches.LegalPrefix(account, backend, begun, meanwhile, i + 1);
        assert meanwhile[..i + 1][..i] == meanwhile[..i];
        Perform(meanwhile[i]);
      }
      assert meanwhile[..|meanwhile|] == meanwhile;
      got := EndEmail(w);
      ghost var same := SameEmail(got, GetEmail(account, backend, id));
      if same {
        SameEmailAnswers(account, backend, id, got);
      }
    }

    function Sent(): SentCopies.Sent
      reads this
    {
      SentCopies.Sent(sentCopies, sentOrder)
    }

    method SentCopyID(messageID: string) returns (id: Option<string>)
      ensures id == if messageID != "" && messageID in sentCopies then Some(sentCopies[messageID]) else None
    {
      if messageID == "" || messageID !in sentCopies {
        return None;
      }
      id := Some(sentCopies[messageID]);
    }

    method RememberSentCopy(messageID: string, sentID: string)
      modifies this`sentCopies, this`sentOrder
      ensures Sent() == SentCopies.File(old(Sent()), SentCopies.Filing(messageID, sentID))
      ensures SentCopies.Inv(old(Sent())) ==> SentCopies.Inv(Sent())
    {
      ghost var filing := SentCopies.Filing(messageID, sentID);
      if SentCopies.Inv(Sent()) {
        SentCopies.FileStep(Sent(), filing);
      }
      if messageID == "" || sentID == "" {
        return;
      }
      if messageID !in sentCopies {
        sentOrder := sentOrder + [messageID];
      }
      sentCopies := sentCopies[messageID := sentID];
      while |sentOrder| > SentCopies.SENT_COPIES_KEPT
        invariant SentCopies.Trim(Sent()) == SentCopies.File(old(Sent()), filing)
        decreases |sentOrder|
      {
        sentCopies := sentCopies - {sentOrder[0]};
        sentOrder := sentOrder[1..];
      }
    }
  }
}
