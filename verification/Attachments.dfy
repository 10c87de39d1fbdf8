/** Messages whose attachments are declared at their final size before a byte of them is downloaded. */
module Attachments {
  import opened Bytes
  import opened Base64

  const LINE_LENGTH: nat := 76
  const CRLF: Bytes := [13, 10]
  const LETTER_A: byte := 65

  /** A buffer the builders append to. */
  class Buffer {
    var bytes: Bytes

    constructor ()
      ensures bytes == []
    {
      bytes := [];
    }

    method Write(p: Bytes)
      modifies this
      ensures bytes == old(bytes) + p
    {
      bytes := bytes + p;
    }
  }

  // ---------------------------------------------------------------------
  // Base64 lines
  // ---------------------------------------------------------------------

  function Lines(encoded: Bytes): Bytes
  {
    if |encoded| > LINE_LENGTH then encoded[..LINE_LENGTH] + CRLF + Lines(encoded[LINE_LENGTH..])
    else encoded + CRLF
  }

  function LinesLen(n: nat): nat
  {
    if n > LINE_LENGTH then LINE_LENGTH + 2 + LinesLen(n - LINE_LENGTH) else n + 2
  }

  method WriteBase64(buf: Buffer, encoded: Bytes)
    modifies buf
    ensures buf.bytes == old(buf.bytes) + Lines(encoded)
  {
    var left := encoded;
    while |left| > LINE_LENGTH
      invariant buf.bytes + Lines(left) == old(buf.bytes) + Lines(encoded)
    {
      ghost var before := buf.bytes;
      buf.Write(left[..LINE_LENGTH]);
      buf.Write(CRLF);
      assert before + Lines(left) == buf.bytes + Lines(left[LINE_LENGTH..]);
      left := left[LINE_LENGTH..];
    }
    ghost var before := buf.bytes;
    buf.Write(left);
    buf.Write(CRLF);
    assert buf.bytes == before + Lines(left);
  }

  lemma {:induction false} LinesLength(encoded: Bytes)
    ensures |Lines(encoded)| == LinesLen(|encoded|)
  {
    if |encoded| > LINE_LENGTH {
      LinesLength(encoded[LINE_LENGTH..]);
    }
  }

  lemma {:induction false} LinesLenMonotone(m: nat, n: nat)
    ensures m < n ==> LinesLen(m) < LinesLen(n)
  {
    if LINE_LENGTH < m {
      LinesLenMonotone(m - LINE_LENGTH, if n < LINE_LENGTH then 0 else n - LINE_LENGTH);
    } else if LINE_LENGTH < n {
      LinesLenAtLeast(n - LINE_LENGTH);
    }
  }

  lemma {:induction false} LinesLenAtLeast(n: nat)
    ensures LinesLen(n) >= n + 2
  {
    if n > LINE_LENGTH {
      LinesLenAtLeast(n - LINE_LENGTH);
    }
  }

  /** The bytes without carriage returns and line feeds. */
  function Strip(s: Bytes): Bytes
  {
    if s == [] then [] else (if IsBreak(s[0]) then [] else [s[0]]) + Strip(s[1..])
  }

  lemma {:induction false} StripAppend(a: Bytes, b: Bytes)
    ensures Strip(a + b) == Strip(a) + Strip(b)
  {
    if a == [] {
      assert a + b == b;
    } else {
      assert (a + b)[1..] == a[1..] + b;
      StripAppend(a[1..], b);
    }
  }

  lemma {:induction false} StripNothing(s: Bytes)
    requires NoBreaks(s)
    ensures Strip(s) == s
  {
    if s != [] {
      StripNothing(s[1..]);
    }
  }

  /** Stripping the line breaks of base64 lines gives the encoding back. */
  lemma {:induction false} StripLines(encoded: Bytes)
    requires NoBreaks(encoded)
    ensures Strip(Lines(encoded)) == encoded
  {
    assert Strip(CRLF) == [] by { assert CRLF[1..] == [10] && [10][1..] == []; }
    if |encoded| > LINE_LENGTH {
      var line, rest := encoded[..LINE_LENGTH], encoded[LINE_LENGTH..];
      StripNothing(line);
      StripLines(rest);
      StripAppend(line + CRLF, Lines(rest));
      StripAppend(line, CRLF);
    } else {
      StripNothing(encoded);
      StripAppend(encoded, CRLF);
    }
  }

  /** Strip keeps every byte but 13 and 10, in order. */
  lemma {:induction false} StripExactly(s: Bytes, c: byte)
    ensures Strip([]) == [] && Strip(s + [c]) == Strip(s) + if c == 13 || c == 10 then [] else [c]
  {
    StripAppend(s, [c]);
    assert [c][1..] == [];
  }

  /** Byte i of the lines: a break after every 76 characters and at the end, else the next character. */
  predicate LineByte(lines: Bytes, encoded: Bytes, i: nat)
    requires i < |lines|
  {
    if i == |lines| - 1 then lines[i] == 10
    else if i == |lines| - 2 || i % 78 == 76 then lines[i] == 13
    else if i % 78 == 77 then lines[i] == 10
    else i / 78 * 76 + i % 78 < |encoded| && lines[i] == encoded[i / 78 * 76 + i % 78]
  }

  ghost predicate BrokenAt76(lines: Bytes, encoded: Bytes)
  {
    forall i | 0 <= i < |lines| :: LineByte(lines, encoded, i)
  }

  lemma NextLine(i: nat)
    requires i >= 78
    ensures i % 78 == (i - 78) % 78 && i / 78 == (i - 78) / 78 + 1
  {
  }

  lemma {:induction false} LineAt(encoded: Bytes, i: nat)
    requires i < |Lines(encoded)|
    ensures LineByte(Lines(encoded), encoded, i)
  {
    if |encoded| > 76 && i >= 78 {
      var rest, more := Lines(encoded[76..]), encoded[76..];
      LineAt(more, i - 78);
      NextLine(i);
      assert Lines(encoded)[i] == rest[i - 78];
    }
  }

  lemma {:induction false} LinesExactly(encoded: Bytes)
    ensures BrokenAt76(Lines(encoded), encoded)
  {
    forall i | 0 <= i < |Lines(encoded)|
      ensures LineByte(Lines(encoded), encoded, i)
    {
      LineAt(encoded, i);
    }
  }

  ghost predicate BreaksSoon(s: Bytes, i: nat)
    requires i + LINE_LENGTH < |s|
  {
    exists j :: i <= j <= i + LINE_LENGTH && IsBreak(s[j])
  }

  /** No line is longer than 76 characters: among any 77 in a row there is a break. */
  ghost predicate ShortLines(s: Bytes)
  {
    forall i: nat | i + LINE_LENGTH < |s| :: BreaksSoon(s, i)
  }

  lemma {:induction false} LinesAreShort(encoded: Bytes)
    ensures ShortLines(Lines(encoded))
  {
    var s := Lines(encoded);
    if |encoded| > LINE_LENGTH {
      var skipped := LINE_LENGTH + 2;
      var rest := Lines(encoded[LINE_LENGTH..]);
      LinesAreShort(encoded[LINE_LENGTH..]);
      forall i: nat | i + LINE_LENGTH < |s|
        ensures BreaksSoon(s, i)
      {
        if i < skipped {
          assert IsBreak(s[if i <= LINE_LENGTH then LINE_LENGTH else i]);
        } else {
          assert BreaksSoon(rest, i - skipped);
          var j :| i - skipped <= j <= i - skipped + LINE_LENGTH && IsBreak(rest[j]);
          assert s[j + skipped] == rest[j];
        }
      }
    } else {
      forall i: nat | i + LINE_LENGTH < |s|
        ensures BreaksSoon(s, i)
      {
        assert IsBreak(s[if i <= |encoded| then |encoded| else i]);
      }
    }
  }

  /** Two encodings of one length break in the same places. */
  lemma {:induction false} BreaksLineUp(e: Bytes, f: Bytes, i: nat)
    requires |e| == |f| && NoBreaks(e) && NoBreaks(f) && i < LinesLen(|e|)
    ensures |Lines(e)| == |Lines(f)| == LinesLen(|e|)
    ensures Lines(e)[i] != Lines(f)[i] ==> !IsBreak(Lines(e)[i]) && !IsBreak(Lines(f)[i])
  {
    LinesLength(e);
    LinesLength(f);
    if |e| > LINE_LENGTH && i >= LINE_LENGTH + 2 {
      BreaksLineUp(e[LINE_LENGTH..], f[LINE_LENGTH..], i - LINE_LENGTH - 2);
    }
  }

  // ---------------------------------------------------------------------
  // The literal
  // ---------------------------------------------------------------------

  /** header is everything of the part before its base64: it does not depend on the content. */
  datatype Attachment = Attachment(header: Bytes, size: int, blob: string)

  /**
   What the rest of the message comes down to: the whole of it when it has no
   attachments, else what precedes the first attachment (None when it cannot be
   written), what goes between parts, and what closes the last one.
   */
  datatype Email = Email(
    plain: Option<Bytes>, head: Option<Bytes>, separator: Bytes, closing: Bytes, attachments: seq<Attachment>)

  function AttachmentSize(a: Attachment): nat
  {
    if a.size <= 0 then 0 else a.size
  }

  function Repeat(n: nat): Bytes
  {
    seq(n, _ => LETTER_A)
  }

  /** The base64 of an attachment, or as many letters while its bytes are not there. */
  function EncodedOf(a: Attachment, blobs: map<string, Bytes>): Bytes
  {
    if a.blob in blobs then Encode(blobs[a.blob]) else Repeat(EncodedLen(AttachmentSize(a)))
  }

  function Parts(email: Email, blobs: map<string, Bytes>, k: nat): Bytes
    requires k <= |email.attachments|
  {
    if k == 0 then []
    else
      var a := email.attachments[k - 1];
      Parts(email, blobs, k - 1) + email.separator + a.header + Lines(EncodedOf(a, blobs))
  }

  function Literal(email: Email, blobs: map<string, Bytes>): Option<Bytes>
  {
    if email.attachments == [] then email.plain
    else if email.head.None? then None
    else Some(email.head.value + Parts(email, blobs, |email.attachments|) + email.closing)
  }

  /**
   The base64 lines of a part, said without their encoder: what arrived, readable
   from them; else as many letters A as the declared size takes.
   */
  ghost predicate RightBlock(a: Attachment, blobs: map<string, Bytes>, block: Bytes)
  {
    && BrokenAt76(block, Strip(block))
    && if a.blob in blobs then Decode(Strip(block)) == Some(blobs[a.blob])
       else
         && |Strip(block)| == (if a.size <= 0 then 0 else (a.size + 2) / 3 * 4)
         && forall c | c in Strip(block) :: c == 'A' as int
  }

  /** The parts with these blocks, each after a separator and its own header. */
  function Glued(email: Email, blocks: seq<Bytes>, k: nat): Bytes
    requires k <= |blocks| == |email.attachments|
  {
    if k == 0 then []
    else Glued(email, blocks, k - 1) + email.separator + email.attachments[k - 1].header + blocks[k - 1]
  }

  /** A literal that holds the attachments: the head, the parts with right blocks, the closing. */
  ghost predicate HoldsAttachments(email: Email, blobs: map<string, Bytes>, literal: Bytes)
  {
    exists blocks ::
      && |blocks| == |email.attachments| && email.head.Some?
      && literal == email.head.value + Glued(email, blocks, |blocks|) + email.closing
      && forall k | 0 <= k < |blocks| :: RightBlock(email.attachments[k], blobs, blocks[k])
  }

  lemma {:induction false} BlockIsRight(a: Attachment, blobs: map<string, Bytes>)
    ensures RightBlock(a, blobs, Lines(EncodedOf(a, blobs)))
  {
    var encoded := EncodedOf(a, blobs);
    if a.blob in blobs {
      EncodeHasNoBreaks(blobs[a.blob]);
      RoundTrip(blobs[a.blob]);
    }
    StripLines(encoded);
    LinesExactly(encoded);
  }

  function Blocks(email: Email, blobs: map<string, Bytes>): seq<Bytes>
  {
    seq(|email.attachments|, k requires 0 <= k < |email.attachments| => Lines(EncodedOf(email.attachments[k], blobs)))
  }

  lemma {:induction false} PartsAreGlued(email: Email, blobs: map<string, Bytes>, k: nat)
    requires k <= |email.attachments|
    ensures Parts(email, blobs, k) == Glued(email, Blocks(email, blobs), k)
  {
    if k > 0 {
      PartsAreGlued(email, blobs, k - 1);
    }
  }

  lemma {:induction false} LiteralHoldsAttachments(email: Email, blobs: map<string, Bytes>)
    requires email.attachments != [] && email.head.Some?
    ensures Literal(email, blobs).Some? && HoldsAttachments(email, blobs, Literal(email, blobs).value)
  {
    PartsAreGlued(email, blobs, |email.attachments|);
    forall k | 0 <= k < |email.attachments|
      ensures RightBlock(email.attachments[k], blobs, Blocks(email, blobs)[k])
    {
      BlockIsRight(email.attachments[k], blobs);
    }
  }

  method WriteAttachmentPart(buf: Buffer, a: Attachment, blobs: map<string, Bytes>)
    modifies buf
    ensures buf.bytes == old(buf.bytes) + a.header + Lines(EncodedOf(a, blobs))
    ensures RightBlock(a, blobs, Lines(EncodedOf(a, blobs)))
  {
    BlockIsRight(a, blobs);
    buf.Write(a.header);
    if a.blob in blobs {
      WriteBase64(buf, Encode(blobs[a.blob]));
      return;
    }
    WriteBase64(buf, Repeat(EncodedLen(AttachmentSize(a))));
  }

  method BuildLiteralWithAttachments(email: Email, blobs: map<string, Bytes>) returns (literal: Option<Bytes>)
    ensures literal == Literal(email, blobs)
    ensures email.attachments == [] ==> literal == email.plain
    ensures email.attachments != [] && email.head.None? ==> literal.None?
    ensures email.attachments != [] && email.head.Some? ==>
      literal.Some? && HoldsAttachments(email, blobs, literal.value)
  {
    if |email.attachments| == 0 {
      return email.plain;
    }
    if email.head.None? {
      return None;
    }
    var buf := new Buffer();
    buf.Write(email.head.value);
    for k := 0 to |email.attachments|
      invariant fresh(buf)
      invariant buf.bytes == email.head.value + Parts(email, blobs, k)
    {
      ghost var a := email.attachments[k];
      Regroup(email.head.value, Parts(email, blobs, k), email.separator, a.header, Lines(EncodedOf(a, blobs)));
      buf.Write(email.separator);
      WriteAttachmentPart(buf, email.attachments[k], blobs);
    }
    buf.Write(email.closing);
    literal := Some(buf.bytes);
    LiteralHoldsAttachments(email, blobs);
  }

  // ---------------------------------------------------------------------
  // Filling in does not move the message
  // ---------------------------------------------------------------------

  /** The content takes as much base64 as the size the placeholder was made for. */
  predicate Fits(a: Attachment, content: Bytes)
  {
    (|content| + 2) / 3 == (AttachmentSize(a) + 2) / 3
  }

  predicate AllFit(email: Email, blobs: map<string, Bytes>)
  {
    forall a | a in email.attachments && a.blob in blobs :: Fits(a, blobs[a.blob])
  }

  lemma PlaceholderHasNoBreaks(n: nat)
    ensures |Repeat(n)| == n && NoBreaks(Repeat(n))
  {
  }

  lemma EncodedOfFits(a: Attachment, blobs: map<string, Bytes>)
    requires a.blob in blobs ==> Fits(a, blobs[a.blob])
    ensures |EncodedOf(a, blobs)| == EncodedLen(AttachmentSize(a)) && NoBreaks(EncodedOf(a, blobs))
  {
    PlaceholderHasNoBreaks(EncodedLen(AttachmentSize(a)));
    if a.blob in blobs {
      EncodedLength(blobs[a.blob]);
      EncodeHasNoBreaks(blobs[a.blob]);
    }
  }

  /** One attachment's block keeps its length exactly when the content fits. */
  lemma {:induction false} BlockKeepsLength(a: Attachment, content: Bytes)
    ensures |Lines(Encode(content))| == |Lines(Repeat(EncodedLen(AttachmentSize(a))))| <==> Fits(a, content)
  {
    var placeholder := Repeat(EncodedLen(AttachmentSize(a)));
    PlaceholderHasNoBreaks(EncodedLen(AttachmentSize(a)));
    EncodedLength(content);
    LinesLength(Encode(content));
    LinesLength(placeholder);
    LinesLenMonotone(|Encode(content)|, |placeholder|);
    LinesLenMonotone(|placeholder|, |Encode(content)|);
  }

  /** AES-GCM adds a 16-byte tag and a 12-byte nonce. */
  const SEALING_OVERHEAD: nat := 28

  /** An attachment declared at the size of its sealed file gets a placeholder that is always too long. */
  lemma {:induction false} SealedSizeMoves(a: Attachment, content: Bytes)
    requires a.size == |content| + SEALING_OVERHEAD
    ensures !Fits(a, content)
    ensures |Lines(Encode(content))| < |Lines(Repeat(EncodedLen(AttachmentSize(a))))|
  {
    PlaceholderHasNoBreaks(EncodedLen(AttachmentSize(a)));
    EncodedLength(content);
    LinesLength(Encode(content));
    LinesLength(Repeat(EncodedLen(AttachmentSize(a))));
    LinesLenMonotone(|Encode(content)|, EncodedLen(AttachmentSize(a)));
  }

  function BlockLen(a: Attachment): nat
  {
    LinesLen(EncodedLen(AttachmentSize(a)))
  }

  function PartsLen(email: Email, k: nat): nat
    requires k <= |email.attachments|
  {
    if k == 0 then 0
    else
      var a := email.attachments[k - 1];
      PartsLen(email, k - 1) + |email.separator| + |a.header| + BlockLen(a)
  }

  /** Where the base64 of attachment k begins, counted from the first part. */
  function BlockStart(email: Email, k: nat): nat
    requires k < |email.attachments|
  {
    PartsLen(email, k) + |email.separator| + |email.attachments[k].header|
  }

  /** Position i lies in the base64 of a filled-in attachment. */
  ghost predicate InFilledBlock(email: Email, blobs: map<string, Bytes>, i: int)
  {
    exists k :: 0 <= k < |email.attachments| && email.attachments[k].blob in blobs
                && BlockStart(email, k) <= i < BlockStart(email, k) + BlockLen(email.attachments[k])
  }

  lemma {:induction false} PartsLength(email: Email, blobs: map<string, Bytes>, k: nat)
    requires k <= |email.attachments| && AllFit(email, blobs)
    ensures |Parts(email, blobs, k)| == PartsLen(email, k)
  {
    if k > 0 {
      PartsLength(email, blobs, k - 1);
      EncodedOfFits(email.attachments[k - 1], blobs);
      LinesLength(EncodedOf(email.attachments[k - 1], blobs));
    }
  }

  /** Within one block only base64 characters differ. */
  lemma BlockDiffers(a: Attachment, blobs: map<string, Bytes>, i: nat)
    requires (a.blob in blobs ==> Fits(a, blobs[a.blob])) && i < BlockLen(a)
    ensures var filled, empty := Lines(EncodedOf(a, blobs)), Lines(EncodedOf(a, map[]));
      && |filled| == |empty| == BlockLen(a)
      && (filled[i] != empty[i] ==> a.blob in blobs && !IsBreak(filled[i]) && !IsBreak(empty[i]))
  {
    EncodedOfFits(a, blobs);
    EncodedOfFits(a, map[]);
    BreaksLineUp(EncodedOf(a, blobs), EncodedOf(a, map[]), i);
  }

  /** Which part byte i belongs to. */
  lemma PartsGrow(email: Email, blobs: map<string, Bytes>, k: nat)
    requires 0 < k <= |email.attachments| && AllFit(email, blobs)
    ensures |Parts(email, blobs, k)| == PartsLen(email, k) && |Parts(email, blobs, k - 1)| == PartsLen(email, k - 1)
    ensures var a := email.attachments[k - 1]; var block := Lines(EncodedOf(a, blobs));
      && |block| == BlockLen(a) && BlockStart(email, k - 1) + BlockLen(a) == PartsLen(email, k)
      && Parts(email, blobs, k) == Parts(email, blobs, k - 1) + (email.separator + a.header) + block
  {
    var a := email.attachments[k - 1];
    PartsLength(email, blobs, k);
    PartsLength(email, blobs, k - 1);
    EncodedOfFits(a, blobs);
    LinesLength(EncodedOf(a, blobs));
  }

  lemma PartsAt(email: Email, blobs: map<string, Bytes>, k: nat, i: nat)
    requires 0 < k <= |email.attachments| && AllFit(email, blobs) && i < PartsLen(email, k)
    ensures |Parts(email, blobs, k)| == PartsLen(email, k) && |Parts(email, blobs, k - 1)| == PartsLen(email, k - 1)
    ensures var a, before, start := email.attachments[k - 1], PartsLen(email, k - 1), BlockStart(email, k - 1);
      && |Lines(EncodedOf(a, blobs))| == BlockLen(a) && start + BlockLen(a) == PartsLen(email, k)
      && Parts(email, blobs, k)[i] ==
         if i < before then Parts(email, blobs, k - 1)[i]
         else if i < start then (email.separator + a.header)[i - before]
         else Lines(EncodedOf(a, blobs))[i - start]
  {
    var a := email.attachments[k - 1];
    PartsGrow(email, blobs, k);
    InThree(Parts(email, blobs, k - 1), email.separator + a.header, Lines(EncodedOf(a, blobs)), i);
  }

  lemma InThree(front: Bytes, middle: Bytes, block: Bytes, i: nat)
    requires i < |front + middle + block|
    ensures (front + middle + block)[i] ==
      if i < |front| then front[i]
      else if i < |front| + |middle| then middle[i - |front|]
      else block[i - |front| - |middle|]
  {
  }

  lemma {:induction false} PartsDiffer(email: Email, blobs: map<string, Bytes>, k: nat, i: nat)
    requires k <= |email.attachments| && AllFit(email, blobs) && i < PartsLen(email, k)
    ensures |Parts(email, blobs, k)| == |Parts(email, map[], k)| == PartsLen(email, k)
    ensures var filled, empty := Parts(email, blobs, k), Parts(email, map[], k);
      filled[i] != empty[i] ==> InFilledBlock(email, blobs, i) && !IsBreak(filled[i]) && !IsBreak(empty[i])
  {
    var a, start := email.attachments[k - 1], BlockStart(email, k - 1);
    PartsAt(email, blobs, k, i);
    PartsAt(email, map[], k, i);
    if i < PartsLen(email, k - 1) {
      PartsDiffer(email, blobs, k - 1, i);
    } else if i >= start {
      BlockDiffers(a, blobs, i - start);
    }
  }

  /**
   Whatever subset of the attachments has arrived, as long as each fits, the literal
   has the length of the placeholder literal, and differs from it only at base64
   characters of attachments that arrived.
   */
  lemma FillingInMovesNothing(email: Email, blobs: map<string, Bytes>)
    requires AllFit(email, blobs)
    ensures Literal(email, blobs).None? <==> Literal(email, map[]).None?
    ensures Literal(email, blobs).Some? ==>
      var filled, empty := Literal(email, blobs).value, Literal(email, map[]).value;
      && |filled| == |empty|
      && (forall i | 0 <= i < |filled| && filled[i] != empty[i] ::
           && email.head.Some? && InFilledBlock(email, blobs, i - |email.head.value|)
           && !IsBreak(filled[i]) && !IsBreak(empty[i]))
  {
    if email.attachments != [] && email.head.Some? {
      var n, h := |email.attachments|, |email.head.value|;
      PartsLength(email, blobs, n);
      PartsLength(email, map[], n);
      var filled, empty := Literal(email, blobs).value, Literal(email, map[]).value;
      forall i | 0 <= i < |filled| && filled[i] != empty[i]
        ensures InFilledBlock(email, blobs, i - h) && !IsBreak(filled[i]) && !IsBreak(empty[i])
      {
        assert h <= i < h + PartsLen(email, n);
        PartsDiffer(email, blobs, n, i - h);
      }
    }
  }

  /** What lies behind some bytes, and in front of others. */
  ghost predicate LiesAt(s: Bytes, at: int, part: Bytes)
  {
    0 <= at && at + |part| <= |s| && s[at..at + |part|] == part
  }

  /** Byte offsets of attachment k in the parts. */
  lemma {:induction false} PartsHold(email: Email, blobs: map<string, Bytes>, k: nat)
    requires AllFit(email, blobs) && k < |email.attachments|
    ensures var parts, a := Parts(email, blobs, |email.attachments|), email.attachments[k];
      var at, before := BlockStart(email, k), email.separator + a.header;
      && |Lines(EncodedOf(a, blobs))| == BlockLen(a)
      && LiesAt(parts, at - |before|, before) && LiesAt(parts, at, Lines(EncodedOf(a, blobs)))
  {
    var a := email.attachments[k];
    PartsGrow(email, blobs, k + 1);
    PartsExtend(email, blobs, k + 1);
    InThreeSlices(Parts(email, blobs, |email.attachments|), Parts(email, blobs, k), email.separator + a.header,
                  Lines(EncodedOf(a, blobs)));
  }

  lemma InThreeSlices(s: Bytes, front: Bytes, middle: Bytes, block: Bytes)
    requires Begins(s, front + middle + block)
    ensures LiesAt(s, |front|, middle) && LiesAt(s, |front| + |middle|, block)
  {
    var t := front + middle + block;
    var at := |front| + |middle|;
    assert t[|front|..at] == middle && t[at..|t|] == block;
    assert s[..|t|][|front|..at] == s[|front|..at] && s[..|t|][at..|t|] == s[at..|t|];
  }

  lemma {:induction false} LinesLieThere(email: Email, blobs: map<string, Bytes>, k: nat)
    requires AllFit(email, blobs) && k < |email.attachments| && email.head.Some?
    ensures var a, h, parts := email.attachments[k], email.head.value, Parts(email, blobs, |email.attachments|);
      var literal, at, before := h + parts + email.closing, |h| + BlockStart(email, k), email.separator + a.header;
      && Literal(email, blobs) == Some(literal) && |Lines(EncodedOf(a, blobs))| == BlockLen(a)
      && LiesAt(literal, at - |before|, before) && LiesAt(literal, at, Lines(EncodedOf(a, blobs)))
  {
    var a, parts := email.attachments[k], Parts(email, blobs, |email.attachments|);
    var at, before := BlockStart(email, k), email.separator + a.header;
    PartsHold(email, blobs, k);
    LiesBehind(email.head.value, parts, email.closing, at - |before|, before);
    LiesBehind(email.head.value, parts, email.closing, at, Lines(EncodedOf(a, blobs)));
  }

  /**
   Where the contents lie: as long as each fits, the lines of attachment k begin
   BlockStart after the head, right after its header, and are right.
   */
  lemma {:induction false} ContentsLieThere(email: Email, blobs: map<string, Bytes>, k: nat)
    requires AllFit(email, blobs) && k < |email.attachments| && email.head.Some?
    ensures Literal(email, blobs).Some?
    ensures var literal, a := Literal(email, blobs).value, email.attachments[k];
      var at, before := |email.head.value| + BlockStart(email, k), email.separator + a.header;
      && LiesAt(literal, at - |before|, before)
      && exists block :: |block| == BlockLen(a) && LiesAt(literal, at, block) && RightBlock(a, blobs, block)
  {
    BlockIsRight(email.attachments[k], blobs);
    LinesLieThere(email, blobs, k);
  }

  lemma LiesBehind(head: Bytes, s: Bytes, tail: Bytes, at: int, part: Bytes)
    requires LiesAt(s, at, part)
    ensures LiesAt(head + s + tail, |head| + at, part)
  {
    assert (head + s + tail)[|head| + at..|head| + at + |part|] == s[at..at + |part|];
  }

  predicate Begins(s: Bytes, front: Bytes)
  {
    |front| <= |s| && s[..|front|] == front
  }

  lemma BeginsShorter(s: Bytes, x: Bytes, y: Bytes)
    requires Begins(s, x + y)
    ensures Begins(s, x)
  {
    assert s[..|x + y|][..|x|] == s[..|x|];
  }

  lemma PartsNext(email: Email, blobs: map<string, Bytes>, k: nat)
    requires k < |email.attachments|
    ensures var a := email.attachments[k];
      Parts(email, blobs, k + 1)
      == Parts(email, blobs, k) + (email.separator + a.header + Lines(EncodedOf(a, blobs)))
  {
  }

  lemma {:induction false} PartsExtend(email: Email, blobs: map<string, Bytes>, k: nat)
    requires k <= |email.attachments|
    ensures Begins(Parts(email, blobs, |email.attachments|), Parts(email, blobs, k))
    decreases |email.attachments| - k
  {
    if k < |email.attachments| {
      PartsExtend(email, blobs, k + 1);
      var a := email.attachments[k];
      PartsNext(email, blobs, k);
      BeginsShorter(Parts(email, blobs, |email.attachments|), Parts(email, blobs, k),
                    email.separator + a.header + Lines(EncodedOf(a, blobs)));
    }
  }
}
