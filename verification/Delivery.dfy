/** From sending to serving: what a recipient's client is shown of a message SendEmail submitted. */
module Delivery {
  import opened Bytes
  import opened Recipients
  import Envelope
  import Threads

  /** How an envelope is carried as a text body, and how opened bytes are read as text. */
  datatype TextForm = TextForm(
    write: Envelope.Envelope -> string,
    parse: string -> Option<Envelope.Envelope>,
    isEnvelope: string -> bool,
    toText: Bytes -> string)

  ghost predicate Faithful(f: TextForm)
  {
    forall e: Envelope.Envelope :: f.isEnvelope(f.write(e)) && f.parse(f.write(e)) == Some(e)
  }

  /** The account that holds a private key for an address. */
  function Holder(c: Envelope.Crypto, f: TextForm, priv: Bytes, address: string): Threads.Account
  {
    Threads.Account(
      f.isEnvelope,
      text =>
        match f.parse(text)
        case None => None
        case Some(envelope) =>
          match Envelope.DecryptEnvelope(c, envelope, priv, address)
          case None => None
          case Some(e) => Some(Threads.Opened(f.toText(e.text), f.toText(e.preview))))
  }

  /**
   An email that carries what SendEmail submitted is served to its addressee, under
   any id that names it, with the body that was sent as its html and the preview as
   its text, and without an error.
   */
  lemma {:induction false} TheAddresseeIsServed(
    c: Envelope.Crypto, f: TextForm, to: seq<string>, cc: seq<string>, rcpt: seq<string>, listings: seq<Listing>,
    serverKey: Bytes, sender: Envelope.Sender, body: Envelope.Email, upload: Envelope.Upload, coins: Envelope.Coins,
    envelope: Envelope.Envelope, a: string, priv: Bytes, backend: Threads.Backend, id: string, i: nat)
    requires Envelope.Sound(c) && Faithful(f) && KeysOf(listings).Some?
    requires Envelope.SealedTo(c, Addresses(to, cc, rcpt), KeysOf(listings).value, serverKey, sender,
                               Envelope.Completed(Envelope.WithAttachments(body, upload), coins), coins, envelope)
    requires a != "" && (Has(to, a) || Has(cc, a) || Has(rcpt, a))
    requires Envelope.ListedKeyOf(c, listings, a, priv)
    requires backend(id).Some? && Threads.Picked(backend(id).value, id, i)
    requires backend(id).value[i].text == f.write(envelope)
    ensures var got := Threads.GetEmail(Holder(c, f, priv, a), backend, id);
      && got.Got? && !got.failed && got.email.id == backend(id).value[i].id
      && got.email.html == f.toText(body.text) && got.email.text == f.toText(body.preview)
  {
    var holder, e := Holder(c, f, priv, a), backend(id).value[i];
    Envelope.TheAddresseeReads(c, to, cc, rcpt, listings, serverKey, sender, body, upload, coins, envelope, a, priv);
    assert holder.open(e.text) == Some(Threads.Opened(f.toText(body.text), f.toText(body.preview)));
    Threads.GetEmailAnswers(holder, backend, id);
    var j: nat :| Threads.Picked(backend(id).value, id, j)
                  && Threads.Shown(holder, backend(id).value[j], Threads.GetEmail(holder, backend, id).email);
    Threads.OnePicked(backend(id).value, id, i, j);
  }
}
