/** The base64 of RFC 4648, section 4, with padding. */
module Base64 {
  import opened Bytes

  const PAD: byte := 61

  function Symbol(n: nat): byte
    requires n < 64
  {
    if n < 26 then 65 + n
    else if n < 52 then 71 + n
    else if n < 62 then n - 4
    else if n == 62 then 43
    else 47
  }

  function ValueOf(c: byte): Option<nat>
  {
    if 65 <= c < 91 then Some(c - 65)
    else if 97 <= c < 123 then Some(c - 71)
    else if 48 <= c < 58 then Some(c + 4)
    else if c == 43 then Some(62)
    else if c == 47 then Some(63)
    else None
  }

  lemma SymbolReadBack(n: nat)
    requires n < 64
    ensures ValueOf(Symbol(n)) == Some(n)
  {
  }

  function Encode(b: Bytes): Bytes
  {
    if b == [] then []
    else if |b| == 1 then [Symbol(b[0] / 4), Symbol(b[0] % 4 * 16), PAD, PAD]
    else if |b| == 2 then
      [Symbol(b[0] / 4), Symbol(b[0] % 4 * 16 + b[1] / 16), Symbol(b[1] % 16 * 4), PAD]
    else
      [Symbol(b[0] / 4), Symbol(b[0] % 4 * 16 + b[1] / 16), Symbol(b[1] % 16 * 4 + b[2] / 64), Symbol(b[2] % 64)]
      + Encode(b[3..])
  }

  function EncodedLen(n: nat): nat
  {
    (n + 2) / 3 * 4
  }

  /** Three bytes out of four symbols; the spare bits of a padded quantum are not looked at. */
  function Triple(x: nat, y: nat, z: nat, w: nat): Bytes
    requires x < 64 && y < 64 && z < 64 && w < 64
  {
    [4 * x + y / 16, y % 16 * 16 + z / 4, z % 4 * 64 + w]
  }

  function Decode(t: Bytes): Option<Bytes>
  {
    if t == [] then Some([])
    else if |t| < 4 then None
    else
      match (ValueOf(t[0]), ValueOf(t[1]), ValueOf(t[2]), ValueOf(t[3]))
      case (Some(x), Some(y), Some(z), Some(w)) =>
        (match Decode(t[4..]) case None => None case Some(rest) => Some(Triple(x, y, z, w) + rest))
      case (Some(x), Some(y), Some(z), None) =>
        if t[3] == PAD && |t| == 4 then Some(Triple(x, y, z, 0)[..2]) else None
      case (Some(x), Some(y), None, None) =>
        if t[2] == PAD && t[3] == PAD && |t| == 4 then Some(Triple(x, y, 0, 0)[..1]) else None
      case _ => None
  }

  lemma TripleBack(a: byte, b: byte, c: byte)
    ensures b % 16 * 4 + c / 64 < 64 && a % 4 * 16 + b / 16 < 64
    ensures Triple(a / 4, a % 4 * 16 + b / 16, b % 16 * 4 + c / 64, c % 64) == [a, b, c]
  {
  }

  lemma {:induction false} DecodeQuantum(x: nat, y: nat, z: nat, w: nat, t: Bytes)
    requires x < 64 && y < 64 && z < 64 && w < 64 && Decode(t).Some?
    ensures Decode([Symbol(x), Symbol(y), Symbol(z), Symbol(w)] + t) == Some(Triple(x, y, z, w) + Decode(t).value)
  {
    var s := [Symbol(x), Symbol(y), Symbol(z), Symbol(w)] + t;
    assert s[4..] == t;
    SymbolReadBack(x);
    SymbolReadBack(y);
    SymbolReadBack(z);
    SymbolReadBack(w);
  }

  lemma OneByteRoundTrip(a: byte)
    ensures Decode([Symbol(a / 4), Symbol(a % 4 * 16), PAD, PAD]) == Some([a])
  {
    TripleBack(a, 0, 0);
    SymbolReadBack(a / 4);
    SymbolReadBack(a % 4 * 16);
    assert [a, 0, 0][..1] == [a];
  }

  lemma TwoBytesRoundTrip(a: byte, b: byte)
    ensures Decode([Symbol(a / 4), Symbol(a % 4 * 16 + b / 16), Symbol(b % 16 * 4), PAD]) == Some([a, b])
  {
    TripleBack(a, b, 0);
    SymbolReadBack(a / 4);
    SymbolReadBack(a % 4 * 16 + b / 16);
    SymbolReadBack(b % 16 * 4);
    assert [a, b, 0][..2] == [a, b];
  }

  /** Decoding undoes encoding. */
  lemma {:induction false} ThreeBytesRoundTrip(a: byte, b: byte, c: byte, t: Bytes)
    requires Decode(t).Some?
    ensures Decode([Symbol(a / 4), Symbol(a % 4 * 16 + b / 16), Symbol(b % 16 * 4 + c / 64), Symbol(c % 64)] + t)
         == Some([a, b, c] + Decode(t).value)
  {
    TripleBack(a, b, c);
    DecodeQuantum(a / 4, a % 4 * 16 + b / 16, b % 16 * 4 + c / 64, c % 64, t);
  }

  lemma {:induction false} EncodeQuantum(b: Bytes)
    requires |b| > 2
    ensures Encode(b)
         == [Symbol(b[0] / 4), Symbol(b[0] % 4 * 16 + b[1] / 16), Symbol(b[1] % 16 * 4 + b[2] / 64), Symbol(b[2] % 64)]
            + Encode(b[3..])
  {
  }

  lemma {:induction false} RoundTrip(b: Bytes)
    ensures Decode(Encode(b)) == Some(b)
  {
    if |b| == 1 {
      OneByteRoundTrip(b[0]);
      assert b == [b[0]];
    } else if |b| == 2 {
      TwoBytesRoundTrip(b[0], b[1]);
      assert b == [b[0], b[1]];
    } else if |b| > 2 {
      RoundTrip(b[3..]);
      EncodeQuantum(b);
      ThreeBytesRoundTrip(b[0], b[1], b[2], Encode(b[3..]));
      assert b == [b[0], b[1], b[2]] + b[3..];
    }
  }

  /** No two byte strings encode alike. */
  lemma {:induction false} EncodeInjective(a: Bytes, b: Bytes)
    ensures Encode(a) == Encode(b) <==> a == b
  {
    RoundTrip(a);
    RoundTrip(b);
  }

  lemma {:induction false} EncodedLength(b: Bytes)
    ensures |Encode(b)| == EncodedLen(|b|)
  {
    if |b| > 2 {
      EncodedLength(b[3..]);
    }
  }

  // ---------------------------------------------------------------------
  // The encoding, symbol by symbol
  // ---------------------------------------------------------------------

  /** Table 1 of RFC 4648. */
  const UPPER_CASE := "ABCDEFGHIJKLMNOPQRSTUVWXYZ"
  const LOWER_CASE := "abcdefghijklmnopqrstuvwxyz"
  const DIGITS := "0123456789"
  const ALPHABET := UPPER_CASE + LOWER_CASE + DIGITS + "+/"

  lemma SymbolIsOfTheAlphabet(n: nat)
    requires n < 64
    ensures |ALPHABET| == 64 && Symbol(n) == ALPHABET[n] as int && PAD == '=' as int
  {
    if n < 26 {
      assert ALPHABET[n] == UPPER_CASE[n];
    } else if n < 52 {
      assert ALPHABET[n] == LOWER_CASE[n - 26];
    } else if n < 62 {
      assert ALPHABET[n] == DIGITS[n - 52];
    }
  }

  /** The 24-bit number of quantum i, bytes that are not there being 0. */
  function Quantum(b: Bytes, i: nat): nat
    requires 3 * i < |b|
  {
    var first: nat := b[3 * i];
    var second: nat := if 3 * i + 1 < |b| then b[3 * i + 1] else 0;
    var third: nat := if 3 * i + 2 < |b| then b[3 * i + 2] else 0;
    Joined24(first, second, third)
  }

  /** Six bits of a number, the least significant ones being piece 0. */
  function Piece(n: nat, k: nat): (v: nat)
    ensures v < 64
  {
    if k == 0 then n % 64 else Piece(n / 64, k - 1)
  }

  /** The four pieces of a 24-bit number as symbols, most significant first, the last ones paddings. */
  predicate Spells(q: Bytes, n: nat, paddings: nat)
  {
    && |q| == 4
    && q[0] == Symbol(Piece(n, 3)) && q[1] == Symbol(Piece(n, 2))
    && q[2] == (if paddings == 2 then PAD else Symbol(Piece(n, 1)))
    && q[3] == (if paddings > 0 then PAD else Symbol(Piece(n, 0)))
  }

  function Paddings(length: nat): nat
    requires length > 0
  {
    if length >= 3 then 0 else 3 - length
  }

  function Joined24(first: nat, second: nat, third: nat): nat
  {
    0x1_0000 * first + 0x100 * second + third
  }

  lemma SixBits(first: byte, second: byte, third: byte)
    ensures var n := Joined24(first, second, third);
      && Piece(n, 3) == first / 4 && Piece(n, 2) == first % 4 * 16 + second / 16
      && Piece(n, 1) == second % 16 * 4 + third / 64 && Piece(n, 0) == third % 64
  {
    var n := Joined24(first, second, third);
    assert n / 64 == 0x400 * (first as int) + 4 * (second as int) + third / 64;
    assert n / 64 / 64 == 0x10 * (first as int) + second / 16;
    assert n / 64 / 64 / 64 == first / 4;
    assert Piece(n, 3) == Piece(n / 64, 2) == Piece(n / 64 / 64, 1) == Piece(n / 64 / 64 / 64, 0);
    assert Piece(n, 2) == Piece(n / 64, 1) == Piece(n / 64 / 64, 0);
    assert Piece(n, 1) == Piece(n / 64, 0);
  }

  lemma {:induction false} ShortQuantum(b: Bytes)
    requires 0 < |b| < 3
    ensures |Encode(b)| == 4 && Spells(Encode(b), Quantum(b, 0), 3 - |b|)
  {
    if |b| == 1 {
      SixBits(b[0], 0, 0);
    } else {
      SixBits(b[0], b[1], 0);
    }
  }

  lemma {:induction false} FullQuantum(b: Bytes)
    requires |b| >= 3
    ensures |Encode(b)| >= 4 && Spells(Encode(b)[..4], Quantum(b, 0), 0)
  {
    SixBits(b[0], b[1], b[2]);
    EncodeQuantum(b);
  }

  lemma {:induction false} NextQuantum(b: Bytes, i: nat)
    requires |b| > 3 && 0 < i && 3 * i < |b| && 4 * i <= |Encode(b[3..])|
    ensures Quantum(b[3..], i - 1) == Quantum(b, i)
    ensures |Encode(b)| == 4 + |Encode(b[3..])|
    ensures Encode(b)[4 * i..4 * i + 4] == Encode(b[3..])[4 * i - 4..4 * i]
  {
    EncodeQuantum(b);
  }

  /**
   Four symbols for every three bytes: their 24 bits in six-bit pieces, most
   significant first, with = for the pieces of bytes that are not there.
   */
  lemma {:induction false} EncodeExactly(b: Bytes, i: nat)
    requires 3 * i < |b|
    ensures 4 * i + 4 <= |Encode(b)|
    ensures Spells(Encode(b)[4 * i..4 * i + 4], Quantum(b, i), Paddings(|b| - 3 * i))
  {
    if i > 0 {
      EncodeExactly(b[3..], i - 1);
      NextQuantum(b, i);
    } else if |b| < 3 {
      ShortQuantum(b);
      assert Encode(b)[0..4] == Encode(b);
    } else {
      FullQuantum(b);
    }
  }

  predicate InAlphabet(c: byte)
  {
    exists n :: 0 <= n < 64 && Symbol(n) == c
  }

  lemma ValueExactly(c: byte)
    ensures ValueOf(c).Some? <==> InAlphabet(c)
    ensures ValueOf(c).Some? ==> ValueOf(c).value < 64 && Symbol(ValueOf(c).value) == c
    ensures !InAlphabet(PAD)
  {
    if ValueOf(c).Some? {
      assert Symbol(ValueOf(c).value) == c;
    }
  }

  /** Whole quanta of symbols, of which only the last may end in one or two paddings. */
  ghost predicate WellFormed(t: Bytes)
  {
    && |t| % 4 == 0
    && (forall i | 0 <= i < |t| :: InAlphabet(t[i]) || (t[i] == PAD && i >= |t| - 2))
    && (|t| > 0 && t[|t| - 2] == PAD ==> t[|t| - 1] == PAD)
  }

  lemma WellFormedRest(t: Bytes)
    requires |t| > 4
    ensures WellFormed(t) <==>
      WellFormed(t[4..]) && InAlphabet(t[0]) && InAlphabet(t[1]) && InAlphabet(t[2]) && InAlphabet(t[3])
  {
    if WellFormed(t[4..]) && InAlphabet(t[0]) && InAlphabet(t[1]) && InAlphabet(t[2]) && InAlphabet(t[3]) {
      forall i | 0 <= i < |t|
        ensures InAlphabet(t[i]) || (t[i] == PAD && i >= |t| - 2)
      {
        assert i >= 4 ==> t[4..][i - 4] == t[i];
      }
    }
    if WellFormed(t) {
      forall i | 0 <= i < |t[4..]|
        ensures InAlphabet(t[4..][i]) || (t[4..][i] == PAD && i >= |t[4..]| - 2)
      {
        assert t[4..][i] == t[i + 4];
      }
    }
  }

  /** What decodes is what is well formed. */
  lemma {:induction false} DecodesExactly(t: Bytes)
    ensures Decode(t).Some? <==> WellFormed(t)
  {
    if |t| >= 4 {
      ValueExactly(t[0]);
      ValueExactly(t[1]);
      ValueExactly(t[2]);
      ValueExactly(t[3]);
      if |t| > 4 {
        DecodesExactly(t[4..]);
        WellFormedRest(t);
      }
    }
  }

  /** Four symbols that are no padding decode to the bytes that encode to them. */
  lemma {:induction false} TripleEncodes(x: nat, y: nat, z: nat, w: nat, rest: Bytes)
    requires x < 64 && y < 64 && z < 64 && w < 64
    ensures Encode(Triple(x, y, z, w) + rest) == [Symbol(x), Symbol(y), Symbol(z), Symbol(w)] + Encode(rest)
  {
    var t := Triple(x, y, z, w);
    assert t[0] / 4 == x && t[0] % 4 * 16 + t[1] / 16 == y;
    assert t[1] % 16 * 4 + t[2] / 64 == z && t[2] % 64 == w;
    assert (t + rest)[3..] == rest;
    EncodeQuantum(t + rest);
  }

  /** Text without paddings that decodes is the encoding of what it decodes to. */
  lemma {:induction false} UnpaddedDecodes(t: Bytes)
    requires |t| % 4 == 0 && forall i | 0 <= i < |t| :: InAlphabet(t[i])
    ensures Decode(t).Some? && Encode(Decode(t).value) == t
  {
    if t != [] {
      UnpaddedDecodes(t[4..]);
      ValueExactly(t[0]);
      ValueExactly(t[1]);
      ValueExactly(t[2]);
      ValueExactly(t[3]);
      TripleEncodes(ValueOf(t[0]).value, ValueOf(t[1]).value, ValueOf(t[2]).value, ValueOf(t[3]).value,
                    Decode(t[4..]).value);
      assert t == [t[0], t[1], t[2], t[3]] + t[4..];
    }
  }

  predicate IsBreak(c: byte)
  {
    c == 13 || c == 10
  }

  predicate NoBreaks(t: Bytes)
  {
    forall i | 0 <= i < |t| :: !IsBreak(t[i])
  }

  lemma {:induction false} EncodeHasNoBreaks(b: Bytes)
    ensures NoBreaks(Encode(b))
  {
    if |b| > 2 {
      EncodeHasNoBreaks(b[3..]);
      forall i | 0 <= i < |Encode(b)|
        ensures !IsBreak(Encode(b)[i])
      {
        if i >= 4 {
          assert Encode(b)[i] == Encode(b[3..])[i - 4];
        }
      }
    }
  }
}
