/** Decoding a base64 part through the reader that drops line breaks. */
module Stripper {
  import opened Bytes
  import opened Base64
  import opened Attachments

  datatype ReadError = Eof | Fault

  /** A reader that fills buffers in pieces of any size; idle counts its empty reads. */
  class InnerReader {
    const faulty: bool
    var rest: Bytes
    var idle: nat

    constructor (faulty: bool, rest: Bytes, idle: nat)
      ensures this.faulty == faulty && this.rest == rest
    {
      this.faulty, this.rest, this.idle := faulty, rest, idle;
    }

    method Read(p: array<byte>) returns (n: nat, error: Option<ReadError>)
      requires p.Length > 0
      modifies this, p
      ensures n <= p.Length && n <= |old(rest)| && p[..n] == old(rest)[..n] && rest == old(rest)[n..]
      ensures error.None? ==> idle <= old(idle) && (n > 0 || idle < old(idle))
      ensures error.Some? ==> (error.value.Eof? && rest == []) || (faulty && error.value.Fault?)
    {
      var interrupted, slack, early: bool := *, *, *;
      n :| n <= |rest| && n <= p.Length && (|rest| > 0 ==> n > 0);
      if (interrupted && faulty) || (slack && idle > 0) {
        n := 0;
      }
      for i := 0 to n
        invariant rest == old(rest) && idle == old(idle)
        invariant p[..i] == rest[..i]
      {
        p[i] := rest[i];
      }
      rest := rest[n..];
      if faulty && interrupted {
        return n, Some(Fault);
      }
      if n == 0 && idle > 0 && slack {
        idle := idle - 1;
        return n, None;
      }
      error := if rest == [] && (early || n == 0) then Some(Eof) else None;
    }
  }

  /** Moves the bytes of p[..read] that are no line breaks to the front. */
  method Compact(p: array<byte>, read: nat) returns (kept: nat)
    requires read <= p.Length
    modifies p
    ensures kept <= read && p[..kept] == Strip(old(p[..read]))
  {
    kept := 0;
    for i := 0 to read
      invariant kept <= i
      invariant p[i..read] == old(p[i..read])
      invariant p[..kept] == Strip(old(p[..i]))
    {
      ghost var front := old(p[..i]);
      assert old(p[..i + 1]) == front + [p[i]];
      StripAppend(front, [p[i]]);
      assert Strip([p[i]]) == if IsBreak(p[i]) then [] else [p[i]];
      if p[i] != 13 && p[i] != 10 {
        p[kept] := p[i];
        kept := kept + 1;
      }
    }
  }

  class NewlineStripper {
    const inner: InnerReader

    constructor (inner: InnerReader)
      ensures this.inner == inner
    {
      this.inner := inner;
    }

    /** Never returns nothing without an error; loses and adds no byte but the line breaks. */
    method Read(p: array<byte>) returns (kept: nat, error: Option<ReadError>)
      requires p.Length > 0
      modifies inner, p
      ensures kept <= p.Length && Strip(old(inner.rest)) == p[..kept] + Strip(inner.rest)
      ensures |inner.rest| <= |old(inner.rest)|
      ensures error.None? ==> kept > 0 && |inner.rest| < |old(inner.rest)|
      ensures error.Some? ==> (error.value.Eof? && inner.rest == []) || (inner.faulty && error.value.Fault?)
      decreases |inner.rest|, inner.idle
    {
      ghost var was := inner.rest;
      var read;
      read, error := inner.Read(p);
      ghost var chunk := p[..read];
      assert was == chunk + inner.rest;
      StripAppend(chunk, inner.rest);
      kept := Compact(p, read);
      if kept == 0 && error.None? {
        assert p[..kept] == [];
        kept, error := Read(p);
      } else {
        StripShrinks(chunk);
      }
    }
  }

  lemma {:induction false} StripShrinks(s: Bytes)
    ensures |Strip(s)| <= |s|
  {
    if s != [] {
      StripShrinks(s[1..]);
    }
  }

  /** Reads a base64 part to its end, through buffers of any size, and decodes it. */
  method DecodePart(inner: InnerReader) returns (content: Option<Bytes>)
    modifies inner
    ensures content.Some? ==> content == Decode(Strip(old(inner.rest)))
    ensures !inner.faulty ==> content == Decode(Strip(old(inner.rest)))
  {
    var stripper := new NewlineStripper(inner);
    var text: Bytes := [];
    var error: Option<ReadError> := None;
    while error.None?
      invariant Strip(old(inner.rest)) == text + Strip(inner.rest)
      invariant error.Some? ==> (error.value.Eof? && inner.rest == []) || (inner.faulty && error.value.Fault?)
      decreases error.None?, |inner.rest|
    {
      var size: nat :| 0 < size <= 4096;
      var p := new byte[size](_ => 0);
      var kept;
      kept, error := stripper.Read(p);
      text := text + p[..kept];
    }
    if error.value.Fault? {
      return None;
    }
    assert text + Strip([]) == text;
    content := Decode(text);
  }

  /** Stripping and decoding what WriteBase64 wrote of some bytes gives those bytes back. */
  lemma {:induction false} LinesDecode(content: Bytes)
    ensures Decode(Strip(Lines(Encode(content)))) == Some(content)
  {
    EncodeHasNoBreaks(content);
    StripLines(Encode(content));
    RoundTrip(content);
  }
}
