/** Byte strings and the result type every component shares. */
module Bytes {

  type byte = x: int | 0 <= x < 256

  type Bytes = seq<byte>

  datatype Option<+T> = None | Some(value: T)

  datatype Result<+T, +E> = Ok(value: T) | Err(error: E)

  predicate Distinct(s: seq<string>)
  {
    forall i, j | 0 <= i < j < |s| :: s[i] != s[j]
  }

  function Pow2(n: nat): (p: nat)
    ensures p > 0
  {
    if n == 0 then 1 else 2 * Pow2(n - 1)
  }

  /** The exclusive or of two n-bit numbers, low bit first. */
  function XorBits(a: nat, b: nat, n: nat): (r: nat)
    ensures r < Pow2(n)
  {
    if n == 0 then 0
    else (if a % 2 == b % 2 then 0 else 1) + 2 * XorBits(a / 2, b / 2, n - 1)
  }

  lemma {:induction false} XorBitsCancels(a: nat, b: nat, n: nat)
    requires a < Pow2(n)
    ensures XorBits(XorBits(a, b, n), b, n) == a
  {
    if n > 0 {
      var bit, rest := if a % 2 == b % 2 then 0 else 1, XorBits(a / 2, b / 2, n - 1);
      var x := XorBits(a, b, n);
      assert x == bit + 2 * rest && x % 2 == bit && x / 2 == rest;
      XorBitsCancels(a / 2, b / 2, n - 1);
    }
  }

  function Bit(x: nat, k: nat): nat
  {
    if k == 0 then x % 2 else Bit(x / 2, k - 1)
  }

  /** Bit k of the exclusive or is set when the bits of the two numbers differ. */
  lemma {:induction false} XorBitsAt(a: nat, b: nat, n: nat, k: nat)
    requires k < n
    ensures Bit(XorBits(a, b, n), k) == if Bit(a, k) != Bit(b, k) then 1 else 0
  {
    if k > 0 {
      XorBitsAt(a / 2, b / 2, n - 1, k - 1);
    }
  }

  /** The number bytes stand for, the most significant one first. */
  function Number(b: seq<byte>): nat
  {
    if b == [] then 0 else 256 * Number(b[..|b| - 1]) + b[|b| - 1]
  }

  /** A number put together from its low k bits and what is above them. */
  function Joined(high: nat, low: nat, k: nat): nat
  {
    if k == 0 then high else 2 * Joined(high, low / 2, k - 1) + low % 2
  }

  lemma TimesTwice(x: nat, y: nat)
    ensures x * (2 * y) == 2 * (x * y)
  {
  }

  lemma {:induction false} JoinedExactly(high: nat, low: nat, k: nat)
    requires low < Pow2(k)
    ensures Joined(high, low, k) == high * Pow2(k) + low
  {
    if k > 0 {
      JoinedExactly(high, low / 2, k - 1);
      TimesTwice(high, Pow2(k - 1));
    }
  }

  lemma {:induction false} JoinedByte(high: nat, low: byte)
    ensures Joined(high, low, 8) == 256 * high + low
  {
    assert Pow2(8) == 256 by { assert Pow2(4) == 16; }
    JoinedExactly(high, low, 8);
  }

  /** Xoring numbers is xoring their low bits, and what is above them. */
  lemma {:induction false} XorJoined(a: nat, a0: nat, b: nat, b0: nat, k: nat, n: nat)
    ensures XorBits(Joined(a, a0, k), Joined(b, b0, k), k + n) == Joined(XorBits(a, b, n), XorBits(a0, b0, k), k)
  {
    if k > 0 {
      XorJoined(a, a0 / 2, b, b0 / 2, k - 1, n);
    }
  }

  /** The exclusive or of two bytes. */
  function Xor(a: byte, b: byte): byte
  {
    assert Pow2(8) == 256 by { assert Pow2(4) == 16; }
    XorBits(a, b, 8)
  }

  lemma XorCancels(a: byte, b: byte)
    ensures Xor(Xor(a, b), b) == a
  {
    assert Pow2(8) == 256 by { assert Pow2(4) == 16; }
    XorBitsCancels(a, b, 8);
  }

  /** Concatenates a list of byte strings. */
  function Concat<T>(parts: seq<seq<T>>): seq<T>
  {
    if parts == [] then [] else parts[0] + Concat(parts[1..])
  }

  lemma {:induction false} ConcatAppend<T>(xs: seq<seq<T>>, ys: seq<seq<T>>)
    ensures Concat(xs + ys) == Concat(xs) + Concat(ys)
  {
    if xs == [] {
      assert xs + ys == ys;
    } else {
      assert (xs + ys)[1..] == xs[1..] + ys;
      ConcatAppend(xs[1..], ys);
    }
  }

  lemma {:induction false} ConcatOne<T>(xs: seq<seq<T>>, y: seq<T>)
    ensures Concat(xs + [y]) == Concat(xs) + y
  {
    ConcatAppend(xs, [y]);
    assert Concat([y]) == y + Concat([]) == y;
  }

  lemma RegroupThree<T>(o: seq<T>, a: seq<T>, b: seq<T>, c: seq<T>)
    ensures o + a + b + c == o + (a + b + c)
  {
  }

  lemma Regroup<T>(o: seq<T>, a: seq<T>, b: seq<T>, c: seq<T>, d: seq<T>)
    ensures o + a + b + (c + d) == o + (a + b + c + d)
  {
  }
}
