/** Envelopes: one body under a session key, and that key wrapped for each recipient. */
module Envelope {
  import opened Bytes
  import opened Recipients
  import Base64
  import Attachments
  import KeyWrap

  /** What encapsulating for a public key gives: the ciphertext to send, and the shared secret. */
  datatype Capsule = Capsule(ciphertext: Bytes, secret: Bytes)

  /** The primitives, as functions of their random coins. */
  datatype Crypto = Crypto(
    publicOf: Bytes -> Bytes,                          // a private key's public key
    encapsulate: (Bytes, Bytes) -> Option<Capsule>,    // public key, coins
    decapsulate: (Bytes, Bytes) -> Option<Bytes>,      // ciphertext, private key
    blockOf: Bytes -> KeyWrap.BlockCipher,
    seal: (Bytes, Bytes, Bytes) -> Bytes,              // key, coins, plaintext
    open: (Bytes, Bytes) -> Option<Bytes>)

  /** Decryption undoes encryption, the block cipher is a permutation, a sealed text is never empty. */
  ghost predicate Sound(c: Crypto)
  {
    && (forall priv, coins {:trigger c.encapsulate(c.publicOf(priv), coins)} ::
         c.encapsulate(c.publicOf(priv), coins).Some? ==>
           var capsule := c.encapsulate(c.publicOf(priv), coins).value;
           c.decapsulate(capsule.ciphertext, priv) == Some(capsule.secret))
    && (forall key :: KeyWrap.Permutation(c.blockOf(key)))
    && (forall key, coins, p {:trigger c.seal(key, coins, p)} ::
         c.seal(key, coins, p) != [] && c.open(key, c.seal(key, coins, p)) == Some(p))
  }

  /** Primitives that keep no secret, but are sound: the assumption can be met. */
  const TRANSPARENT := Crypto(
    priv => priv,
    (pub, coins) => Some(Capsule(coins, coins)),
    (ciphertext, priv) => Some(ciphertext),
    key => KeyWrap.BlockCipher((b: KeyWrap.Block) => b, (b: KeyWrap.Block) => b),
    (key, coins, p) => [0] + p,
    (key, sealed) => if sealed == [] then None else Some(sealed[1..]))

  lemma SoundCanBe()
    ensures Sound(TRANSPARENT)
  {
    assert forall key :: KeyWrap.Permutation(TRANSPARENT.blockOf(key));
    forall p: Bytes
      ensures ([0] + p)[1..] == p
    {
    }
  }

  const SESSION_KEY_LEN: nat := 32

  datatype WrappedKey = WrappedKey(address: string, encryptedKey: Bytes, hybridCiphertext: Bytes)

  datatype Email = Email(text: Bytes, preview: Bytes, attachmentsKey: Bytes)

  datatype EncryptedEmail = EncryptedEmail(text: Bytes, preview: Bytes, attachmentsKey: Bytes)

  /** Every field but the addresses is base64. */
  datatype Envelope = Envelope(text: Bytes, preview: Bytes, attachmentsKey: Bytes, wrapped: seq<WrappedKey>)

  // ---------------------------------------------------------------------
  // The symmetric part
  // ---------------------------------------------------------------------

  function EncryptEmail(c: Crypto, e: Email, key: Bytes, coins: seq<Bytes>): EncryptedEmail
    requires |coins| == 3
  {
    EncryptedEmail(
      c.seal(key, coins[0], e.text),
      c.seal(key, coins[1], e.preview),
      if e.attachmentsKey == [] then [] else c.seal(key, coins[2], e.attachmentsKey))
  }

  /** An absent ciphertext opens to nothing. */
  function OpenOptional(c: Crypto, key: Bytes, sealed: Bytes): Option<Bytes>
  {
    if sealed == [] then Some([]) else c.open(key, sealed)
  }

  function DecryptEmail(c: Crypto, e: EncryptedEmail, key: Bytes): Option<Email>
  {
    match (OpenOptional(c, key, e.text), OpenOptional(c, key, e.preview), OpenOptional(c, key, e.attachmentsKey))
    case (Some(text), Some(preview), Some(attachmentsKey)) => Some(Email(text, preview, attachmentsKey))
    case _ => None
  }

  lemma DecryptUndoesEncrypt(c: Crypto, e: Email, key: Bytes, coins: seq<Bytes>)
    requires Sound(c) && |coins| == 3
    ensures DecryptEmail(c, EncryptEmail(c, e, key, coins), key) == Some(e)
  {
  }

  // ---------------------------------------------------------------------
  // The wrapped keys
  // ---------------------------------------------------------------------

  function WrapFor(c: Crypto, r: Recipient, sessionKey: Bytes, coins: Bytes): Option<WrappedKey>
  {
    match c.encapsulate(r.publicKey, coins)
    case None => None
    case Some(capsule) =>
      match KeyWrap.ShiftWrap(c.blockOf(capsule.secret), sessionKey)
      case Err(_) => None
      case Ok(encrypted) =>
        Some(WrappedKey(r.address, Base64.Encode(encrypted), Base64.Encode(capsule.ciphertext)))
  }

  function UnwrapWith(c: Crypto, w: WrappedKey, priv: Bytes): Option<Bytes>
  {
    match (Base64.Decode(Attachments.Strip(w.hybridCiphertext)), Base64.Decode(Attachments.Strip(w.encryptedKey)))
    case (Some(ciphertext), Some(encrypted)) =>
      (match c.decapsulate(ciphertext, priv)
       case None => None
       case Some(secret) =>
         match KeyWrap.ShiftUnwrap(c.blockOf(secret), encrypted)
         case Err(_) => None
         case Ok(key) => Some(key))
    case _ => None
  }

  lemma {:induction false} DecodeEncoded(b: Bytes)
    ensures Base64.Decode(Attachments.Strip(Base64.Encode(b))) == Some(b)
  {
    Base64.EncodeHasNoBreaks(b);
    Attachments.StripNothing(Base64.Encode(b));
    Base64.RoundTrip(b);
  }

  /** The holder of the private key recovers the session key wrapped for its public key. */
  lemma UnwrapUndoesWrap(c: Crypto, r: Recipient, priv: Bytes, sessionKey: Bytes, coins: Bytes)
    requires Sound(c) && |sessionKey| == SESSION_KEY_LEN && r.publicKey == c.publicOf(priv)
    requires WrapFor(c, r, sessionKey, coins).Some?
    ensures UnwrapWith(c, WrapFor(c, r, sessionKey, coins).value, priv) == Some(sessionKey)
  {
    var capsule := c.encapsulate(c.publicOf(priv), coins).value;
    var block := c.blockOf(capsule.secret);
    KeyWrap.UnwrapOfWrap(block, sessionKey);
    DecodeEncoded(capsule.ciphertext);
    DecodeEncoded(KeyWrap.ShiftWrap(block, sessionKey).value);
  }

  // ---------------------------------------------------------------------
  // Building and opening
  // ---------------------------------------------------------------------

  /** The random values one envelope uses. */
  datatype Coins = Coins(sessionKey: Bytes, attachmentsKey: Bytes, seals: seq<Bytes>, wraps: seq<Bytes>)

  ghost predicate Enough(coins: Coins, recipients: nat)
  {
    && |coins.sessionKey| == |coins.attachmentsKey| == SESSION_KEY_LEN
    && |coins.seals| == 3 && |coins.wraps| == recipients
  }

  /** What is sealed: a message without attachments still carries a fresh key for them. */
  function Completed(e: Email, coins: Coins): Email
  {
    if e.attachmentsKey == [] then e.(attachmentsKey := coins.attachmentsKey) else e
  }

  ghost predicate WrappedForAll(c: Crypto, recipients: seq<Recipient>, coins: Coins, wrapped: seq<WrappedKey>)
    requires Enough(coins, |recipients|)
  {
    && |wrapped| == |recipients|
    && (forall i | 0 <= i < |recipients| ::
         WrapFor(c, recipients[i], coins.sessionKey, coins.wraps[i]) == Some(wrapped[i]))
  }

  /** The envelope of a completed email, given the wrapped keys. */
  function Envelop(c: Crypto, e: Email, coins: Coins, wrapped: seq<WrappedKey>): Envelope
    requires |coins.seals| == 3
  {
    var encrypted := EncryptEmail(c, e, coins.sessionKey, coins.seals);
    Envelope(Base64.Encode(encrypted.text), Base64.Encode(encrypted.preview),
             Base64.Encode(encrypted.attachmentsKey), wrapped)
  }

  method BuildEnvelope(c: Crypto, email: Email, recipients: seq<Recipient>, coins: Coins)
    returns (envelope: Option<Envelope>)
    requires Enough(coins, |recipients|)
    ensures envelope.None? <==> (
      || recipients == []
      || exists i :: 0 <= i < |recipients| && WrapFor(c, recipients[i], coins.sessionKey, coins.wraps[i]).None?)
    ensures envelope.Some? ==>
      && WrappedForAll(c, recipients, coins, envelope.value.wrapped)
      && envelope.value == Envelop(c, Completed(email, coins), coins, envelope.value.wrapped)
  {
    if |recipients| == 0 {
      return None;
    }
    var wrapped: seq<WrappedKey> := [];
    for i := 0 to |recipients|
      invariant |wrapped| == i
      invariant forall k | 0 <= k < i ::
        WrapFor(c, recipients[k], coins.sessionKey, coins.wraps[k]) == Some(wrapped[k])
    {
      var key := WrapFor(c, recipients[i], coins.sessionKey, coins.wraps[i]);
      if key.None? {
        return None;
      }
      wrapped := wrapped + [key.value];
    }
    envelope := Some(Envelop(c, Completed(email, coins), coins, wrapped));
  }

  /** The first key wrapped for an address, whatever its case. */
  function FirstFor(wrapped: seq<WrappedKey>, address: string): Option<nat>
  {
    if wrapped == [] then None
    else if Lower(wrapped[0].address) == Lower(address) then Some(0)
    else match FirstFor(wrapped[1..], address) { case None => None case Some(i) => Some(i + 1) }
  }

  method FindKeyFor(wrapped: seq<WrappedKey>, address: string) returns (found: Option<WrappedKey>)
    ensures found.None? <==> FirstFor(wrapped, address).None?
    ensures found.Some? ==>
      var i := FirstFor(wrapped, address).value; i < |wrapped| && found == Some(wrapped[i])
  {
    for i := 0 to |wrapped|
      invariant FirstFor(wrapped, address) ==
        match FirstFor(wrapped[i..], address) { case None => None case Some(j) => Some(i + j) }
    {
      assert wrapped[i..][1..] == wrapped[i + 1..];
      if Lower(wrapped[i].address) == Lower(address) {
        return Some(wrapped[i]);
      }
    }
    found := None;
  }

  /** Which position a search ends at, said without searching. */
  predicate IsFirst(wrapped: seq<WrappedKey>, address: string, i: nat)
  {
    && i < |wrapped| && Lower(wrapped[i].address) == Lower(address)
    && forall j | 0 <= j < i :: Lower(wrapped[j].address) != Lower(address)
  }

  lemma {:induction false} FirstExactly(wrapped: seq<WrappedKey>, address: string)
    ensures match FirstFor(wrapped, address)
      case None => forall j | 0 <= j < |wrapped| :: Lower(wrapped[j].address) != Lower(address)
      case Some(i) => IsFirst(wrapped, address, i)
  {
    if wrapped != [] {
      FirstExactly(wrapped[1..], address);
    }
  }

  lemma {:induction false} FirstIsFound(wrapped: seq<WrappedKey>, address: string, i: nat)
    ensures IsFirst(wrapped, address, i) <==> FirstFor(wrapped, address) == Some(i)
  {
    FirstExactly(wrapped, address);
  }

  function SessionKeyFor(c: Crypto, wrapped: seq<WrappedKey>, priv: Bytes, address: string): Option<Bytes>
  {
    FirstExactly(wrapped, address);
    match FirstFor(wrapped, address)
    case None => None
    case Some(i) => UnwrapWith(c, wrapped[i], priv)
  }

  function DecodeOptional(text: Bytes): Option<Bytes>
  {
    if text == [] then Some([]) else Base64.Decode(Attachments.Strip(text))
  }

  function DecryptEnvelope(c: Crypto, e: Envelope, priv: Bytes, address: string): Option<Email>
  {
    match SessionKeyFor(c, e.wrapped, priv, address)
    case None => None
    case Some(key) =>
      match (DecodeOptional(e.text), DecodeOptional(e.preview), DecodeOptional(e.attachmentsKey))
      case (Some(text), Some(preview), Some(attachmentsKey)) =>
        DecryptEmail(c, EncryptedEmail(text, preview, attachmentsKey), key)
      case _ => None
  }

  lemma {:induction false} DecodeOptionalEncoded(b: Bytes)
    ensures DecodeOptional(Base64.Encode(b)) == Some(b)
  {
    DecodeEncoded(b);
    Base64.EncodeInjective(b, []);
  }

  /** Whoever's key is the first wrapped for an address opens the envelope to what was sealed. */
  lemma FirstKeyOpens(c: Crypto, e: Email, recipients: seq<Recipient>, coins: Coins, wrapped: seq<WrappedKey>,
                      i: nat, priv: Bytes, address: string)
    requires Sound(c) && Enough(coins, |recipients|)
    requires WrappedForAll(c, recipients, coins, wrapped) && IsFirst(wrapped, address, i)
    requires recipients[i].publicKey == c.publicOf(priv)
    ensures DecryptEnvelope(c, Envelop(c, e, coins, wrapped), priv, address) == Some(e)
  {
    FirstIsFound(wrapped, address, i);
    UnwrapUndoesWrap(c, recipients[i], priv, coins.sessionKey, coins.wraps[i]);
    EnvelopOpens(c, e, coins, wrapped);
  }

  /** Whoever has the session key reads what an envelope holds. */
  lemma EnvelopOpens(c: Crypto, e: Email, coins: Coins, wrapped: seq<WrappedKey>)
    requires Sound(c) && |coins.seals| == 3
    ensures var envelope := Envelop(c, e, coins, wrapped);
      match (DecodeOptional(envelope.text), DecodeOptional(envelope.preview), DecodeOptional(envelope.attachmentsKey))
      case (Some(text), Some(preview), Some(attachmentsKey)) =>
        DecryptEmail(c, EncryptedEmail(text, preview, attachmentsKey), coins.sessionKey) == Some(e)
      case _ => false
  {
    var encrypted := EncryptEmail(c, e, coins.sessionKey, coins.seals);
    DecodeOptionalEncoded(encrypted.text);
    DecodeOptionalEncoded(encrypted.preview);
    DecodeOptionalEncoded(encrypted.attachmentsKey);
    DecryptUndoesEncrypt(c, e, coins.sessionKey, coins.seals);
  }

  /** The bytes a base64 field stands for. */
  function Field(text: Bytes): Bytes
  {
    var decoded := Base64.Decode(Attachments.Strip(text));
    if decoded.None? then [] else decoded.value
  }

  /**
   What an envelope holds, field by field: under the session key its text opens to
   the text, its preview to the preview and its attachments key to that key; and
   each wrapped key is the session key, wrapped under the secret of its own capsule.
   */
  lemma {:induction false} EnvelopeHolds(c: Crypto, e: Email, recipients: seq<Recipient>, coins: Coins,
                                         envelope: Envelope, i: nat)
    requires Sound(c) && Enough(coins, |recipients|) && i < |recipients|
    requires WrappedForAll(c, recipients, coins, envelope.wrapped)
    requires envelope == Envelop(c, Completed(e, coins), coins, envelope.wrapped)
    ensures c.open(coins.sessionKey, Field(envelope.text)) == Some(e.text)
    ensures c.open(coins.sessionKey, Field(envelope.preview)) == Some(e.preview)
    ensures c.open(coins.sessionKey, Field(envelope.attachmentsKey))
         == Some(if e.attachmentsKey == [] then coins.attachmentsKey else e.attachmentsKey)
    ensures var w, capsule := envelope.wrapped[i], c.encapsulate(recipients[i].publicKey, coins.wraps[i]);
      && capsule.Some? && w.address == recipients[i].address
      && Field(w.hybridCiphertext) == capsule.value.ciphertext
      && KeyWrap.ShiftWrap(c.blockOf(capsule.value.secret), coins.sessionKey) == Ok(Field(w.encryptedKey))
  {
    var encrypted := EncryptEmail(c, Completed(e, coins), coins.sessionKey, coins.seals);
    DecodeEncoded(encrypted.text);
    DecodeEncoded(encrypted.preview);
    DecodeEncoded(encrypted.attachmentsKey);
    var w := envelope.wrapped[i];
    assert WrapFor(c, recipients[i], coins.sessionKey, coins.wraps[i]) == Some(w);
    var capsule := c.encapsulate(recipients[i].publicKey, coins.wraps[i]).value;
    DecodeEncoded(capsule.ciphertext);
    DecodeEncoded(KeyWrap.ShiftWrap(c.blockOf(capsule.secret), coins.sessionKey).value);
  }

  // ---------------------------------------------------------------------
  // Sending
  // ---------------------------------------------------------------------

  datatype Sender = Sender(address: string, publicKey: Bytes)

  /** The recipients in the order SendEmail seals for them: every address, then the sender's own copy. */
  function SealedFor(addresses: seq<string>, keys: map<string, Bytes>, serverKey: Bytes, sender: Sender): seq<Recipient>
  {
    seq(|addresses|, i requires 0 <= i < |addresses| =>
          Recipient(addresses[i], KeyFor(keys, serverKey, addresses[i])))
    + if sender.publicKey == [] then [] else [Recipient(sender.address, sender.publicKey)]
  }

  /** The attachments of a message: their key, once every one of them was uploaded sealed under it. */
  datatype Upload = NoAttachments | Uploaded(key: Bytes) | UploadFailed

  function WithAttachments(body: Email, upload: Upload): Email
  {
    if upload.Uploaded? then body.(attachmentsKey := upload.key) else body
  }

  /** The key directory's answer, if it gave one that decodes. */
  function LookedUp(answer: Option<seq<Listing>>): Option<map<string, Bytes>>
  {
    if answer.None? then None else KeysOf(answer.value)
  }

  /**
   No address; no keys, or one missing; attachments that did not go up; or a key
   nothing can be sealed under.
   */
  ghost predicate Refused(c: Crypto, addresses: seq<string>, keys: Option<map<string, Bytes>>, serverKey: Bytes,
                          sender: Sender, upload: Upload, coins: Coins)
    requires Enough(coins, |addresses| + if sender.publicKey == [] then 0 else 1)
  {
    || addresses == []
    || keys.None?
    || (!AllHaveKeys(keys.value, addresses) && serverKey == [])
    || upload.UploadFailed?
    || exists i :: 0 <= i < |coins.wraps| &&
         WrapFor(c, SealedFor(addresses, keys.value, serverKey, sender)[i], coins.sessionKey, coins.wraps[i]).None?
  }

  datatype Submission = Submission(envelope: Envelope, mode: Mode)

  /**
   answer, upload and reply are what the key directory, the attachment uploads and
   the backend came to; the id of the filed copy is the backend's, None when
   nothing was submitted or the submission failed.
   */
  method SendEmail(c: Crypto, to: seq<string>, cc: seq<string>, envelope: seq<string>,
                   answer: Option<seq<Listing>>, serverKey: Bytes, sender: Sender, body: Email,
                   upload: Upload, coins: Coins, reply: Option<string>)
    returns (submitted: Option<Submission>, sentID: Option<string>)
    requires Enough(coins, |Addresses(to, cc, envelope)| + if sender.publicKey == [] then 0 else 1)
    ensures sentID == if submitted.Some? then reply else None
    ensures submitted.None?
      <==> Refused(c, Addresses(to, cc, envelope), LookedUp(answer), serverKey, sender, upload, coins)
    ensures submitted.Some? ==>
      var addresses, keys := Addresses(to, cc, envelope), LookedUp(answer).value;
      && (submitted.value.mode == INTERNXT <==> AllHaveKeys(keys, addresses))
      && SealedTo(c, addresses, keys, serverKey, sender, Completed(WithAttachments(body, upload), coins), coins,
                  submitted.value.envelope)
  {
    var bcc := ComputeBcc(to, cc, envelope);
    var addresses := UniqueAddresses(to + cc + bcc);
    if |addresses| == 0 || answer.None? {
      return None, None;
    }
    var keys := LookupKeys(answer.value);
    if keys.None? {
      return None, None;
    }
    var paired := SealFor(addresses, keys.value, serverKey);
    if paired.None? {
      return None, None;
    }
    var (recipients, mode) := paired.value;
    if |sender.publicKey| > 0 {
      recipients := recipients + [Recipient(sender.address, sender.publicKey)];
    }
    assert recipients == SealedFor(addresses, keys.value, serverKey, sender);
    if upload.UploadFailed? {
      return None, None;
    }
    var sealed := BuildEnvelope(c, WithAttachments(body, upload), recipients, coins);
    if sealed.None? {
      return None, None;
    }
    submitted, sentID := Some(Submission(sealed.value, mode)), reply;
  }

  /** What SendEmail submits for some addresses. */
  ghost predicate SealedTo(c: Crypto, addresses: seq<string>, keys: map<string, Bytes>, serverKey: Bytes,
                           sender: Sender, e: Email, coins: Coins, envelope: Envelope)
  {
    var recipients := SealedFor(addresses, keys, serverKey, sender);
    && Enough(coins, |recipients|)
    && WrappedForAll(c, recipients, coins, envelope.wrapped)
    && envelope == Envelop(c, e, coins, envelope.wrapped)
  }

  /** The wrapped keys name the addresses in order, and the sender last. */
  lemma WrappedAddresses(c: Crypto, addresses: seq<string>, keys: map<string, Bytes>, serverKey: Bytes,
                         sender: Sender, e: Email, coins: Coins, envelope: Envelope)
    requires SealedTo(c, addresses, keys, serverKey, sender, e, coins, envelope)
    ensures var n := |addresses|;
      && |envelope.wrapped| == n + (if sender.publicKey == [] then 0 else 1)
      && (forall i | 0 <= i < n :: envelope.wrapped[i].address == addresses[i])
      && (sender.publicKey != [] ==> envelope.wrapped[n].address == sender.address)
  {
    var recipients := SealedFor(addresses, keys, serverKey, sender);
    forall i | 0 <= i < |recipients|
      ensures envelope.wrapped[i].address == recipients[i].address
    {
      assert WrapFor(c, recipients[i], coins.sessionKey, coins.wraps[i]) == Some(envelope.wrapped[i]);
    }
  }

  /** The key a wrapped key was made with. */
  function SealingKey(addresses: seq<string>, keys: map<string, Bytes>, serverKey: Bytes, sender: Sender, i: nat): Bytes
  {
    if i < |addresses| then KeyFor(keys, serverKey, addresses[i]) else sender.publicKey
  }

  /** wrapped holds exactly one key for a among its first n. */
  ghost predicate OneKeyFor(wrapped: seq<WrappedKey>, n: nat, a: string)
  {
    && n <= |wrapped|
    && (exists i: nat :: i < n && Lower(wrapped[i].address) == Lower(a) &&
         forall j | 0 <= j < n && j != i :: Lower(wrapped[j].address) != Lower(a))
  }

  /** Among distinct addresses, a search finds the one it looks for. */
  lemma FirstIsTheOne(wrapped: seq<WrappedKey>, addresses: seq<string>, i: nat, a: string)
    requires |addresses| <= |wrapped| && DistinctFold(addresses)
    requires forall j | 0 <= j < |addresses| :: wrapped[j].address == addresses[j]
    requires i < |addresses| && Lower(addresses[i]) == Lower(a)
    ensures IsFirst(wrapped, a, i) && OneKeyFor(wrapped, |addresses|, a)
  {
    forall j | 0 <= j < |addresses| && j != i
      ensures Lower(wrapped[j].address) != Lower(a)
    {
      assert if j < i then Lower(addresses[j]) != Lower(addresses[i]) else Lower(addresses[i]) != Lower(addresses[j]);
    }
  }

  /**
   Each To, Cc and RCPT TO address has exactly one wrapped key apart from the
   sender's own copy, and whoever holds the private key of the address's looked-up
   key opens the message to the same body, preview and attachments key.
   */
  lemma EveryRecipientReads(c: Crypto, to: seq<string>, cc: seq<string>, rcpt: seq<string>, keys: map<string, Bytes>,
                            serverKey: Bytes, sender: Sender, e: Email, coins: Coins, envelope: Envelope,
                            a: string, priv: Bytes)
    requires Sound(c) && SealedTo(c, Addresses(to, cc, rcpt), keys, serverKey, sender, e, coins, envelope)
    requires a != "" && (Has(to, a) || Has(cc, a) || Has(rcpt, a))
    ensures OneKeyFor(envelope.wrapped, |Addresses(to, cc, rcpt)|, a)
    ensures KeyFor(keys, serverKey, a) == c.publicOf(priv) ==> DecryptEnvelope(c, envelope, priv, a) == Some(e)
  {
    var addresses := Addresses(to, cc, rcpt);
    EveryoneOnce(to, cc, rcpt, a);
    var i :| 0 <= i < |addresses| && Lower(addresses[i]) == Lower(a);
    WrappedAddresses(c, addresses, keys, serverKey, sender, e, coins, envelope);
    FirstIsTheOne(envelope.wrapped, addresses, i, a);
    if KeyFor(keys, serverKey, a) == c.publicOf(priv) {
      assert SealingKey(addresses, keys, serverKey, sender, i) == KeyFor(keys, serverKey, a);
      FirstKeyOpens(c, e, SealedFor(addresses, keys, serverKey, sender), coins, envelope.wrapped, i, priv, a);
    }
  }

  /** Which key the sender's own address leads to. */
  lemma SenderIsLed(wrapped: seq<WrappedKey>, addresses: seq<string>, keys: map<string, Bytes>,
                    serverKey: Bytes, sender: Sender) returns (led: nat)
    requires |wrapped| == |addresses| + 1 && wrapped[|addresses|].address == sender.address
    requires forall i | 0 <= i < |addresses| :: wrapped[i].address == addresses[i]
    ensures IsFirst(wrapped, sender.address, led)
    ensures SealingKey(addresses, keys, serverKey, sender, led)
         == if Has(addresses, sender.address) then KeyFor(keys, serverKey, sender.address) else sender.publicKey
  {
    FirstExactly(wrapped, sender.address);
    led := FirstFor(wrapped, sender.address).value;
    if led < |addresses| {
      assert Lower(addresses[led]) == Lower(sender.address);
    }
  }

  /**
   The copy the sender's own address leads to is sealed under the sender's key
   exactly when the sender is no recipient, or its looked-up key is that key; then
   the sender opens it. A sender who writes to itself without a listed key is led
   to the copy sealed for the server.
   */
  lemma SenderReadsExactly(c: Crypto, to: seq<string>, cc: seq<string>, rcpt: seq<string>, keys: map<string, Bytes>,
                           serverKey: Bytes, sender: Sender, e: Email, coins: Coins, envelope: Envelope, priv: Bytes)
    returns (led: nat)
    requires Sound(c) && SealedTo(c, Addresses(to, cc, rcpt), keys, serverKey, sender, e, coins, envelope)
    requires sender.address != "" && sender.publicKey != [] && sender.publicKey == c.publicOf(priv)
    ensures IsFirst(envelope.wrapped, sender.address, led)
    ensures var addressed := Has(to, sender.address) || Has(cc, sender.address) || Has(rcpt, sender.address);
      var own := !addressed || KeyFor(keys, serverKey, sender.address) == sender.publicKey;
      && (SealingKey(Addresses(to, cc, rcpt), keys, serverKey, sender, led) == sender.publicKey <==> own)
      && (own ==> DecryptEnvelope(c, envelope, priv, sender.address) == Some(e))
  {
    var addresses := Addresses(to, cc, rcpt);
    EveryoneOnce(to, cc, rcpt, sender.address);
    WrappedAddresses(c, addresses, keys, serverKey, sender, e, coins, envelope);
    led := SenderIsLed(envelope.wrapped, addresses, keys, serverKey, sender);
    if SealingKey(addresses, keys, serverKey, sender, led) == sender.publicKey {
      var recipients := SealedFor(addresses, keys, serverKey, sender);
      FirstKeyOpens(c, e, recipients, coins, envelope.wrapped, led, priv, sender.address);
    }
  }

  // ---------------------------------------------------------------------
  // Who reads what was submitted
  // ---------------------------------------------------------------------

  /** What an address opens with a private key: the message's text and preview, and the key of its attachments. */
  predicate Reads(c: Crypto, envelope: Envelope, priv: Bytes, a: string, body: Email, upload: Upload, coins: Coins)
  {
    var got := DecryptEnvelope(c, envelope, priv, a);
    && got.Some? && got.value.text == body.text && got.value.preview == body.preview
    && (upload.Uploaded? && upload.key != [] ==> got.value.attachmentsKey == upload.key)
    && (!upload.Uploaded? && body.attachmentsKey == [] ==> got.value.attachmentsKey == coins.attachmentsKey)
  }

  /** The last key the directory listed for an address is the one a private key belongs to. */
  ghost predicate ListedKeyOf(c: Crypto, listings: seq<Listing>, a: string, priv: Bytes)
  {
    exists i: nat :: LastGives(listings, Lower(a), i) && DecodedKey(listings[i]) == Some(c.publicOf(priv))
  }

  /**
   Whom SendEmail's result is for: of every To, Cc and RCPT TO address the holder of
   the key the directory listed last for it reads the message; when none was listed,
   the holder of the server's key does.
   */
  lemma {:induction false} TheAddresseeReads(c: Crypto, to: seq<string>, cc: seq<string>, rcpt: seq<string>,
                                             listings: seq<Listing>, serverKey: Bytes, sender: Sender, body: Email,
                                             upload: Upload, coins: Coins, envelope: Envelope, a: string, priv: Bytes)
    requires Sound(c) && KeysOf(listings).Some?
    requires SealedTo(c, Addresses(to, cc, rcpt), KeysOf(listings).value, serverKey, sender,
                      Completed(WithAttachments(body, upload), coins), coins, envelope)
    requires a != "" && (Has(to, a) || Has(cc, a) || Has(rcpt, a))
    ensures ListedKeyOf(c, listings, a, priv) ==> Reads(c, envelope, priv, a, body, upload, coins)
    ensures !GivenIn(listings, Lower(a)) && serverKey == c.publicOf(priv) ==>
      Reads(c, envelope, priv, a, body, upload, coins)
  {
    if ListedKeyOf(c, listings, a, priv) || (!GivenIn(listings, Lower(a)) && serverKey == c.publicOf(priv)) {
      KeyForExactly(listings, serverKey, a);
      if ListedKeyOf(c, listings, a, priv) {
        var i: nat :| LastGives(listings, Lower(a), i) && DecodedKey(listings[i]) == Some(c.publicOf(priv));
      }
      EveryRecipientReads(c, to, cc, rcpt, KeysOf(listings).value, serverKey, sender,
                          Completed(WithAttachments(body, upload), coins), coins, envelope, a, priv);
    }
  }
}
