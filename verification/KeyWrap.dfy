/**
 AES Key Wrap (RFC 3394) over an arbitrary 16-byte block permutation.

 The methods run the in-place, indexed form on byte arrays. They are proved
 against the shift-register form of sections 2.2.1 and 2.2.2 of RFC 3394, where
 one loop counts s = 1..6n and the registers move along at every step.
 */
module KeyWrap {
  import opened Bytes

  type Half = h: Bytes | |h| == 8 witness [0, 0, 0, 0, 0, 0, 0, 0]
  type Block = b: Bytes | |b| == 16 witness [0, 0, 0, 0, 0, 0, 0, 0, 0, 0, 0, 0, 0, 0, 0, 0]

  /** One AES key schedule: the block cipher as a pair of functions. */
  datatype BlockCipher = BlockCipher(encrypt: Block -> Block, decrypt: Block -> Block)

  ghost predicate Permutation(w: BlockCipher)
  {
    && (forall b: Block :: w.decrypt(w.encrypt(b)) == b)
    && (forall b: Block :: w.encrypt(w.decrypt(b)) == b)
  }

  datatype WrapError = BadLength(length: nat) | IntegrityCheckFailed

  const INTEGRITY: Half := [0xA6, 0xA6, 0xA6, 0xA6, 0xA6, 0xA6, 0xA6, 0xA6]

  const ROUNDS: nat := 6

  predicate LegalKey(key: Bytes)
  {
    16 <= |key| && |key| % 8 == 0
  }

  predicate LegalWrapping(wrapped: Bytes)
  {
    24 <= |wrapped| && |wrapped| % 8 == 0
  }

  // ---------------------------------------------------------------------
  // The 64-bit counter, folded into the integrity register byte by byte
  // ---------------------------------------------------------------------

  /** byte(t >> 8k): byte k of a counter, the least significant one being byte 0. */
  function CounterByte(t: nat, k: nat): byte
  {
    if k == 0 then t % 256 else CounterByte(t / 256, k - 1)
  }

  /** A xor t, with t written as 64 bits, most significant byte first. */
  function XorCounter(a: Half, t: nat): Half
  {
    seq(8, m requires 0 <= m < 8 => Xor(a[m], CounterByte(t, 7 - m)))
  }

  lemma XorCounterCancels(a: Half, t: nat)
    ensures XorCounter(XorCounter(a, t), t) == a
  {
    var once := XorCounter(a, t);
    forall m | 0 <= m < 8
      ensures XorCounter(once, t)[m] == a[m]
    {
      XorCancels(a[m], CounterByte(t, 7 - m));
    }
  }

  lemma {:induction false} XorOneByte(high: nat, low: byte, t: nat, n: nat)
    ensures XorBits(256 * high + low, t, 8 + n) == 256 * XorBits(high, t / 256, n) + Xor(low, t % 256)
  {
    JoinedByte(high, low);
    JoinedByte(t / 256, t % 256);
    XorJoined(high, low, t / 256, t % 256, 8, n);
    JoinedByte(XorBits(high, t / 256, n), Xor(low, t % 256));
  }

  lemma {:induction false} XorOfNumbers(a: Bytes, t: nat, x: Bytes)
    requires |a| == |x| && forall m | 0 <= m < |a| :: x[m] == Xor(a[m], CounterByte(t, |a| - 1 - m))
    ensures Number(x) == XorBits(Number(a), t, 8 * |a|)
  {
    if a != [] {
      var n := |a| - 1;
      forall m | 0 <= m < n
        ensures x[..n][m] == Xor(a[..n][m], CounterByte(t / 256, n - 1 - m))
      {
      }
      XorOfNumbers(a[..n], t / 256, x[..n]);
      XorOneByte(Number(a[..n]), a[n], t, 8 * n);
    }
  }

  /** As 64-bit numbers, most significant byte first, the low 64 bits of the counter are xored into the register. */
  lemma {:induction false} XorCounterIsXor(a: Half, t: nat)
    ensures Number(XorCounter(a, t)) == XorBits(Number(a), t, 64)
  {
    XorOfNumbers(a, t, XorCounter(a, t));
  }

  // ---------------------------------------------------------------------
  // One step: the integrity register and one 64-bit register, at counter t
  // ---------------------------------------------------------------------

  type Step = (Half, Half, nat) -> (Half, Half)

  function Encrypted(w: BlockCipher, a: Half, r: Half, t: nat): (Half, Half)
  {
    var b := w.encrypt(a + r);
    (XorCounter(b[..8], t), b[8..])
  }

  function Decrypted(w: BlockCipher, a: Half, r: Half, t: nat): (Half, Half)
  {
    var b := w.decrypt(XorCounter(a, t) + r);
    (b[..8], b[8..])
  }

  function Forward(w: BlockCipher): Step
  {
    (a, r, t) => Encrypted(w, a, r, t)
  }

  function Backward(w: BlockCipher): Step
  {
    (a, r, t) => Decrypted(w, a, r, t)
  }

  /** back undoes step at every counter. */
  ghost predicate Undoes(back: Step, step: Step)
  {
    forall a, r, t {:trigger step(a, r, t)} :: back(step(a, r, t).0, step(a, r, t).1, t) == (a, r)
  }

  lemma StepsAreInverse(w: BlockCipher)
    requires Permutation(w)
    ensures Undoes(Backward(w), Forward(w)) && Undoes(Forward(w), Backward(w))
  {
    forall a: Half, r: Half, t: nat
      ensures Decrypted(w, Encrypted(w, a, r, t).0, Encrypted(w, a, r, t).1, t) == (a, r)
    {
      var b := w.encrypt(a + r);
      XorCounterCancels(b[..8], t);
      assert b[..8] + b[8..] == b;
      assert (a + r)[..8] == a && (a + r)[8..] == r;
    }
    forall a: Half, r: Half, t: nat
      ensures Encrypted(w, Decrypted(w, a, r, t).0, Decrypted(w, a, r, t).1, t) == (a, r)
    {
      var x := XorCounter(a, t) + r;
      var b := w.decrypt(x);
      assert b[..8] + b[8..] == b;
      assert x[..8] == XorCounter(a, t) && x[8..] == r;
      XorCounterCancels(a, t);
    }
  }

  // ---------------------------------------------------------------------
  // Sections 2.2.1 and 2.2.2: the shift-register description
  // ---------------------------------------------------------------------

  datatype Registers = Registers(a: Half, r: seq<Half>)

  /** The n 64-bit registers of a byte string. */
  function Halves(bytes: Bytes): (halves: seq<Half>)
    requires |bytes| % 8 == 0
    ensures |halves| == |bytes| / 8
  {
    if bytes == [] then [] else [bytes[..8]] + Halves(bytes[8..])
  }

  lemma {:induction false} HalvesAt(bytes: Bytes, k: nat)
    requires |bytes| % 8 == 0 && 8 * k + 8 <= |bytes|
    ensures Halves(bytes)[k] == bytes[8 * k..8 * k + 8]
  {
    if k > 0 {
      HalvesAt(bytes[8..], k - 1);
      assert bytes[8..][8 * (k - 1)..8 * (k - 1) + 8] == bytes[8 * k..8 * k + 8];
    }
  }

  function ShiftStep(f: Step, g: Registers, t: nat): Registers
    requires g.r != []
  {
    var (a, x) := f(g.a, g.r[0], t);
    Registers(a, g.r[1..] + [x])
  }

  /** The first s steps of section 2.2.1. */
  function ShiftRun(f: Step, g: Registers, s: nat): (h: Registers)
    requires g.r != []
    ensures |h.r| == |g.r|
  {
    if s == 0 then g else ShiftStep(f, ShiftRun(f, g, s - 1), s)
  }

  function UnshiftStep(f: Step, g: Registers, t: nat): Registers
    requires g.r != []
  {
    var n := |g.r|;
    var (a, x) := f(g.a, g.r[n - 1], t);
    Registers(a, [x] + g.r[..n - 1])
  }

  /** Steps s, s-1, .., 1 of section 2.2.2. */
  function UnshiftRun(f: Step, g: Registers, s: nat): (h: Registers)
    requires g.r != []
    ensures |h.r| == |g.r|
    decreases s
  {
    if s == 0 then g else UnshiftRun(f, UnshiftStep(f, g, s), s - 1)
  }

  /** The registers Wrap starts from, and those a wrapped key is taken apart into. */
  function Start(key: Bytes): Registers
    requires |key| % 8 == 0
  {
    Registers(INTEGRITY, Halves(key))
  }

  function Split(wrapped: Bytes): (g: Registers)
    requires LegalWrapping(wrapped)
    ensures |g.r| == |wrapped| / 8 - 1
  {
    Registers(wrapped[..8], Halves(wrapped[8..]))
  }

  /** s = 6n. */
  function Steps(g: Registers): nat
  {
    |g.r| * ROUNDS
  }

  function Join(g: Registers): Bytes
  {
    g.a + Concat(g.r)
  }

  /** The integrity check on what unwrapping arrived at. */
  function Checked(g: Registers): Result<Bytes, WrapError>
  {
    if g.a == INTEGRITY then Ok(Concat(g.r)) else Err(IntegrityCheckFailed)
  }

  function ShiftWrap(w: BlockCipher, key: Bytes): Result<Bytes, WrapError>
  {
    if !LegalKey(key) then Err(BadLength(|key|))
    else Ok(Join(ShiftRun(Forward(w), Start(key), Steps(Start(key)))))
  }

  function ShiftUnwrap(w: BlockCipher, wrapped: Bytes): Result<Bytes, WrapError>
  {
    if !LegalWrapping(wrapped) then Err(BadLength(|wrapped|))
    else Checked(UnshiftRun(Backward(w), Split(wrapped), Steps(Split(wrapped))))
  }

  // ---------------------------------------------------------------------
  // Round trips
  // ---------------------------------------------------------------------

  lemma {:induction false} JoinHalves(bytes: Bytes)
    requires |bytes| % 8 == 0
    ensures Concat(Halves(bytes)) == bytes
  {
    if bytes != [] {
      JoinHalves(bytes[8..]);
      assert Halves(bytes)[1..] == Halves(bytes[8..]);
    }
  }

  lemma {:induction false} SplitConcat(halves: seq<Half>)
    ensures |Concat(halves)| == 8 * |halves|
    ensures Halves(Concat(halves)) == halves
  {
    if halves != [] {
      SplitConcat(halves[1..]);
      assert Concat(halves)[8..] == Concat(halves[1..]);
    }
  }

  lemma UnshiftInvertsShift(f: Step, b: Step, g: Registers, t: nat)
    requires Undoes(b, f) && g.r != []
    ensures UnshiftStep(b, ShiftStep(f, g, t), t) == g
  {
    var h := ShiftStep(f, g, t);
    assert h.r[|h.r| - 1] == f(g.a, g.r[0], t).1 && h.r[..|h.r| - 1] == g.r[1..];
  }

  lemma ShiftInvertsUnshift(f: Step, b: Step, g: Registers, t: nat)
    requires Undoes(f, b) && g.r != []
    ensures ShiftStep(f, UnshiftStep(b, g, t), t) == g
  {
    var n := |g.r|;
    var h := UnshiftStep(b, g, t);
    assert h.r[0] == b(g.a, g.r[n - 1], t).1 && h.r[1..] == g.r[..n - 1];
  }

  lemma {:induction false} UnshiftAfterShift(f: Step, b: Step, h: Registers, s: nat)
    requires Undoes(b, f) && h.r != [] && s > 0
    ensures UnshiftRun(b, ShiftStep(f, h, s), s) == UnshiftRun(b, h, s - 1)
  {
    UnshiftInvertsShift(f, b, h, s);
  }

  lemma {:induction false} UnshiftRunInvertsShiftRun(f: Step, b: Step, g: Registers, s: nat)
    requires Undoes(b, f) && g.r != []
    ensures UnshiftRun(b, ShiftRun(f, g, s), s) == g
  {
    if s > 0 {
      var h := ShiftRun(f, g, s - 1);
      UnshiftRunInvertsShiftRun(f, b, g, s - 1);
      UnshiftAfterShift(f, b, h, s);
    }
  }

  lemma {:induction false} ShiftRunInvertsUnshiftRun(f: Step, b: Step, g: Registers, s: nat)
    requires Undoes(f, b) && g.r != []
    ensures ShiftRun(f, UnshiftRun(b, g, s), s) == g
    decreases s
  {
    if s > 0 {
      ShiftRunInvertsUnshiftRun(f, b, UnshiftStep(b, g, s), s - 1);
      ShiftInvertsUnshift(f, b, g, s);
    }
  }

  lemma SplitOfJoin(g: Registers)
    requires |g.r| >= 2
    ensures LegalWrapping(Join(g)) && |Join(g)| == 8 * |g.r| + 8 && Split(Join(g)) == g
  {
    SplitConcat(g.r);
    assert Join(g)[..8] == g.a && Join(g)[8..] == Concat(g.r);
  }

  lemma JoinOfSplit(wrapped: Bytes)
    requires LegalWrapping(wrapped)
    ensures Join(Split(wrapped)) == wrapped
  {
    JoinHalves(wrapped[8..]);
    assert wrapped[..8] + wrapped[8..] == wrapped;
  }

  lemma CheckedExactly(g: Registers, key: Bytes)
    requires |key| == 8 * |g.r|
    ensures Checked(g) == Ok(key) <==> g == Start(key)
  {
    SplitConcat(g.r);
    JoinHalves(key);
  }

  /** Unwrapping what was wrapped returns the key, for every permutation and every legal length. */
  lemma UnwrapOfWrap(w: BlockCipher, key: Bytes)
    requires Permutation(w) && LegalKey(key)
    ensures ShiftWrap(w, key).Ok?
    ensures |ShiftWrap(w, key).value| == |key| + 8
    ensures ShiftUnwrap(w, ShiftWrap(w, key).value) == Ok(key)
  {
    var f, b, s := Forward(w), Backward(w), Steps(Start(key));
    var g := ShiftRun(f, Start(key), s);
    SplitOfJoin(g);
    StepsAreInverse(w);
    UnshiftRunInvertsShiftRun(f, b, Start(key), s);
    CheckedExactly(Start(key), key);
  }

  /** Whatever unwraps was wrapped from the very key it unwraps to. */
  lemma WrapOfUnwrap(w: BlockCipher, wrapped: Bytes)
    requires Permutation(w) && ShiftUnwrap(w, wrapped).Ok?
    ensures LegalKey(ShiftUnwrap(w, wrapped).value)
    ensures ShiftWrap(w, ShiftUnwrap(w, wrapped).value) == Ok(wrapped)
  {
    var f, b, s := Forward(w), Backward(w), Steps(Split(wrapped));
    var start := UnshiftRun(b, Split(wrapped), s);
    var key := ShiftUnwrap(w, wrapped).value;
    SplitConcat(start.r);
    CheckedExactly(start, key);
    StepsAreInverse(w);
    ShiftRunInvertsUnshiftRun(f, b, Split(wrapped), s);
    JoinOfSplit(wrapped);
  }

  /** Unwrap accepts exactly the image of Wrap. */
  lemma UnwrapAcceptsExactlyWrappings(w: BlockCipher, wrapped: Bytes)
    requires Permutation(w)
    ensures ShiftUnwrap(w, wrapped).Ok? <==> exists key :: ShiftWrap(w, key) == Ok(wrapped)
  {
    if ShiftUnwrap(w, wrapped).Ok? {
      WrapOfUnwrap(w, wrapped);
    }
    if key :| ShiftWrap(w, key) == Ok(wrapped) {
      UnwrapOfWrap(w, key);
    }
  }

  /** And says why it refuses: a length no wrapping has, or else a wrapping of no key. */
  lemma UnwrapRefusesExactly(w: BlockCipher, wrapped: Bytes)
    requires Permutation(w)
    ensures var bad := |wrapped| < 24 || |wrapped| % 8 != 0;
      && (ShiftUnwrap(w, wrapped) == Err(BadLength(|wrapped|)) <==> bad)
      && (ShiftUnwrap(w, wrapped) == Err(IntegrityCheckFailed)
          <==> !bad && !exists key :: ShiftWrap(w, key) == Ok(wrapped))
  {
    UnwrapAcceptsExactlyWrappings(w, wrapped);
  }

  // ---------------------------------------------------------------------
  // The indexed form: register (t-1) mod n is updated where it lies
  // ---------------------------------------------------------------------

  /** Both directions update one register in place; they differ in f and in the order of k. */
  function IndexStep(f: Step, g: Registers, k: nat, t: nat): Registers
    requires k < |g.r|
  {
    var (a, x) := f(g.a, g.r[k], t);
    Registers(a, g.r[k := x])
  }

  /** Steps first+1 .. first+i of one round. */
  function IndexRun(f: Step, g: Registers, first: nat, i: nat): (h: Registers)
    requires i <= |g.r|
    ensures |h.r| == |g.r|
  {
    if i == 0 then g else IndexStep(f, IndexRun(f, g, first, i - 1), i - 1, first + i)
  }

  /** Steps first+i .. first+1 of one round, backwards. */
  function UnindexRun(f: Step, g: Registers, first: nat, i: nat): (h: Registers)
    requires i <= |g.r|
    ensures |h.r| == |g.r|
    decreases i
  {
    if i == 0 then g else UnindexRun(f, IndexStep(f, g, i - 1, first + i), first, i - 1)
  }

  /** g holds in place what the shift registers h hold after k steps of a round. */
  ghost predicate InPlace(g: Registers, h: Registers, k: nat)
  {
    k <= |g.r| && h.a == g.a && h.r == g.r[k..] + g.r[..k]
  }

  lemma RoundEnds(g: Registers, h: Registers)
    ensures InPlace(g, h, |g.r|) <==> g == h
    ensures InPlace(g, h, 0) <==> g == h
  {
    assert g.r[|g.r|..] + g.r[..|g.r|] == g.r == g.r[0..] + g.r[..0];
  }

  lemma StepInPlace(f: Step, g: Registers, h: Registers, k: nat, t: nat)
    requires k < |g.r| && InPlace(g, h, k)
    ensures InPlace(IndexStep(f, g, k, t), ShiftStep(f, h, t), k + 1)
  {
    assert h.r[0] == g.r[k];
  }

  lemma {:induction false} IndexRunShifts(f: Step, start: Registers, g: Registers, first: nat, i: nat)
    requires start.r != [] && g == ShiftRun(f, start, first) && i <= |g.r|
    ensures InPlace(IndexRun(f, g, first, i), ShiftRun(f, start, first + i), i)
  {
    if i == 0 {
      RoundEnds(g, g);
    } else {
      IndexRunShifts(f, start, g, first, i - 1);
      StepInPlace(f, IndexRun(f, g, first, i - 1), ShiftRun(f, start, first + i - 1), i - 1, first + i);
    }
  }

  /** A round done in place is n steps of the shift form. */
  lemma RoundShifts(f: Step, start: Registers, g: Registers, first: nat)
    requires start.r != [] && g == ShiftRun(f, start, first)
    ensures IndexRun(f, g, first, |g.r|) == ShiftRun(f, start, first + |g.r|)
  {
    var n := |g.r|;
    IndexRunShifts(f, start, g, first, n);
    RoundEnds(IndexRun(f, g, first, n), ShiftRun(f, start, first + n));
  }

  lemma UnstepInPlace(f: Step, g: Registers, h: Registers, k: nat, t: nat)
    requires k < |g.r| && InPlace(g, h, k + 1)
    ensures InPlace(IndexStep(f, g, k, t), UnshiftStep(f, h, t), k)
  {
    assert h.r[|h.r| - 1] == g.r[k];
  }

  /** Steps first+i .. first+1 of section 2.2.2. */
  function UnshiftPart(f: Step, h: Registers, first: nat, i: nat): (h': Registers)
    requires h.r != []
    ensures |h'.r| == |h.r|
    decreases i
  {
    if i == 0 then h else UnshiftPart(f, UnshiftStep(f, h, first + i), first, i - 1)
  }

  lemma {:induction false} UnshiftRunParts(f: Step, h: Registers, first: nat, i: nat)
    requires h.r != []
    ensures UnshiftRun(f, h, first + i) == UnshiftRun(f, UnshiftPart(f, h, first, i), first)
    decreases i
  {
    if i > 0 {
      UnshiftRunParts(f, UnshiftStep(f, h, first + i), first, i - 1);
    }
  }

  lemma {:induction false} UnindexRunShifts(f: Step, g: Registers, h: Registers, first: nat, i: nat)
    requires g.r != [] && InPlace(g, h, i)
    ensures UnindexRun(f, g, first, i) == UnshiftPart(f, h, first, i)
    decreases i
  {
    if i == 0 {
      RoundEnds(g, h);
    } else {
      UnstepInPlace(f, g, h, i - 1, first + i);
      UnindexRunShifts(f, IndexStep(f, g, i - 1, first + i), UnshiftStep(f, h, first + i), first, i - 1);
    }
  }

  lemma {:induction false} RoundIsPart(f: Step, g: Registers, first: nat, n: nat)
    requires g.r != [] && n == |g.r|
    ensures UnindexRun(f, g, first, n) == UnshiftPart(f, g, first, n)
  {
    RoundEnds(g, g);
    UnindexRunShifts(f, g, g, first, n);
  }

  /** A backwards round done in place is n steps of the shift form. */
  lemma {:induction false} RoundUnshifts(f: Step, g: Registers, first: nat)
    requires g.r != []
    ensures UnshiftRun(f, g, first + |g.r|) == UnshiftRun(f, UnindexRun(f, g, first, |g.r|), first)
  {
    RoundIsPart(f, g, first, |g.r|);
    UnshiftRunParts(f, g, first, |g.r|);
  }

  /** The double loop of Wrap: rounds 0 .. j-1, each over every register. */
  function IndexRounds(f: Step, g: Registers, j: nat): (h: Registers)
    ensures |h.r| == |g.r|
  {
    if j == 0 then g else IndexRun(f, IndexRounds(f, g, j - 1), |g.r| * (j - 1), |g.r|)
  }

  /** The double loop of Unwrap: rounds j-1 .. 0. */
  function UnindexRounds(f: Step, g: Registers, j: nat): (h: Registers)
    ensures |h.r| == |g.r|
    decreases j
  {
    if j == 0 then g else UnindexRounds(f, UnindexRun(f, g, |g.r| * (j - 1), |g.r|), j - 1)
  }

  /** Rounds of in-place steps, counted by t = n*j + i, are the one loop over s. */
  lemma {:induction false} RoundsAreShifts(f: Step, g: Registers, j: nat)
    requires g.r != []
    ensures IndexRounds(f, g, j) == ShiftRun(f, g, |g.r| * j)
  {
    if j > 0 {
      var n := |g.r|;
      RoundsAreShifts(f, g, j - 1);
      RoundShifts(f, g, IndexRounds(f, g, j - 1), n * (j - 1));
      assert n * (j - 1) + n == n * j;
    }
  }

  lemma {:induction false} RoundsAreUnshifts(f: Step, g: Registers, j: nat)
    requires g.r != []
    ensures UnindexRounds(f, g, j) == UnshiftRun(f, g, |g.r| * j)
    decreases j
  {
    if j > 0 {
      var n := |g.r|;
      RoundUnshifts(f, g, n * (j - 1));
      RoundsAreUnshifts(f, UnindexRun(f, g, n * (j - 1), n), j - 1);
      assert n * (j - 1) + n == n * j;
    }
  }

  function IndexedWrap(w: BlockCipher, key: Bytes): Result<Bytes, WrapError>
  {
    if !LegalKey(key) then Err(BadLength(|key|)) else Ok(Join(IndexRounds(Forward(w), Start(key), ROUNDS)))
  }

  function IndexedUnwrap(w: BlockCipher, wrapped: Bytes): Result<Bytes, WrapError>
  {
    if !LegalWrapping(wrapped) then Err(BadLength(|wrapped|))
    else Checked(UnindexRounds(Backward(w), Split(wrapped), ROUNDS))
  }

  /** The in-place form of Wrap and its shift-register form are the same function. */
  lemma IndexedWrapIsShift(w: BlockCipher, key: Bytes)
    ensures IndexedWrap(w, key) == ShiftWrap(w, key)
  {
    if LegalKey(key) {
      RoundsAreShifts(Forward(w), Start(key), ROUNDS);
    }
  }

  /** And so are the two forms of Unwrap. */
  lemma IndexedUnwrapIsShift(w: BlockCipher, wrapped: Bytes)
    ensures IndexedUnwrap(w, wrapped) == ShiftUnwrap(w, wrapped)
  {
    if LegalWrapping(wrapped) {
      RoundsAreUnshifts(Backward(w), Split(wrapped), ROUNDS);
    }
  }

  // ---------------------------------------------------------------------
  // The two forms, register by register and bit by bit
  // ---------------------------------------------------------------------

  /**
   One step of section 2.2.1, said without its functions: B = AES(K, A | R[1]);
   A = MSB(64, B) xor s; R[i] = R[i+1]; R[n] = LSB(64, B).
   */
  lemma {:induction false} WrapStepIsTheSections(w: BlockCipher, g: Registers, s: nat)
    requires g.r != []
    ensures var h, b, n := ShiftStep(Forward(w), g, s), w.encrypt(g.a + g.r[0]), |g.r|;
      && Number(h.a) == XorBits(Number(b[..8]), s, 64)
      && |h.r| == n && (forall i | 0 <= i < n - 1 :: h.r[i] == g.r[i + 1])
      && h.r[n - 1] == b[8..]
  {
    XorCounterIsXor(w.encrypt(g.a + g.r[0])[..8], s);
  }

  /** One step of section 2.2.2: B = AES-1(K, (A xor s) | R[n]); A = MSB(64, B); R[i] = R[i-1]; R[1] = LSB(64, B). */
  lemma {:induction false} UnwrapStepIsTheSections(w: BlockCipher, g: Registers, s: nat, x: Half)
    requires g.r != [] && Number(x) == XorBits(Number(g.a), s, 64)
    ensures var n := |g.r|; var h, b := UnshiftStep(Backward(w), g, s), w.decrypt(x + g.r[n - 1]);
      && h.a == b[..8]
      && |h.r| == n && (forall i | 0 < i < n :: h.r[i] == g.r[i - 1])
      && h.r[0] == b[8..]
  {
    XorCounterIsXor(g.a, s);
    NumberInjective(x, XorCounter(g.a, s));
  }

  lemma {:induction false} NumberInjective(a: Bytes, b: Bytes)
    requires |a| == |b| && Number(a) == Number(b)
    ensures a == b
  {
    if a != [] {
      var n := |a| - 1;
      assert a[n] == b[n] && Number(a[..n]) == Number(b[..n]);
      NumberInjective(a[..n], b[..n]);
      assert a == a[..n] + [a[n]] && b == b[..n] + [b[n]];
    }
  }

  /** x xor 1 xor 2 .. xor s, in 64 bits. */
  function XorUpTo(x: nat, s: nat): nat
  {
    if s == 0 then x else XorBits(XorUpTo(x, s - 1), s, 64)
  }

  ghost predicate ChangesNothing(w: BlockCipher)
  {
    forall b: Block :: w.encrypt(b) == b
  }

  /** A step that xors the counter into the first register and leaves the other alone. */
  ghost predicate OnlyCounts(f: Step)
  {
    forall a: Half, r: Half, t: nat {:trigger f(a, r, t)} ::
      f(a, r, t).1 == r && Number(f(a, r, t).0) == XorBits(Number(a), t, 64)
  }

  lemma IdentityOnlyCounts(w: BlockCipher)
    requires ChangesNothing(w)
    ensures OnlyCounts(Forward(w))
  {
    forall a: Half, r: Half, t: nat
      ensures Encrypted(w, a, r, t).1 == r && Number(Encrypted(w, a, r, t).0) == XorBits(Number(a), t, 64)
    {
      assert w.encrypt(a + r) == a + r && (a + r)[..8] == a && (a + r)[8..] == r;
      XorCounterIsXor(a, t);
    }
  }

  /** The registers are those of g, and the first is x xor 1 xor 2 .. xor s. */
  ghost predicate Unchanged(g: Registers, h: Registers, x: nat, s: nat)
  {
    h.r == g.r && Number(h.a) == XorUpTo(x, s)
  }

  lemma UnchangedNext(f: Step, g: Registers, h: Registers, k: nat, x: nat, s: nat)
    requires OnlyCounts(f) && Unchanged(g, h, x, s) && k < |g.r|
    ensures Unchanged(g, IndexStep(f, h, k, s + 1), x, s + 1)
  {
    assert h.r[k := h.r[k]] == h.r;
    assert f(h.a, h.r[k], s + 1).1 == h.r[k];
  }

  lemma {:induction false} UnchangedRun(f: Step, g: Registers, h: Registers, x: nat, first: nat, i: nat)
    requires OnlyCounts(f) && Unchanged(g, h, x, first) && i <= |g.r|
    ensures Unchanged(g, IndexRun(f, h, first, i), x, first + i)
  {
    if i > 0 {
      UnchangedRun(f, g, h, x, first, i - 1);
      UnchangedNext(f, g, IndexRun(f, h, first, i - 1), i - 1, x, first + i - 1);
    }
  }

  lemma {:induction false} UnchangedRounds(f: Step, g: Registers, x: nat, j: nat, t: nat)
    requires OnlyCounts(f) && x == Number(g.a) && t == |g.r| * j
    ensures Unchanged(g, IndexRounds(f, g, j), x, t)
  {
    if j > 0 {
      var n, before := |g.r|, IndexRounds(f, g, j - 1);
      var first := n * (j - 1);
      assert first + n == n * j;
      UnchangedRounds(f, g, x, j - 1, first);
      UnchangedRun(f, g, before, x, first, n);
    }
  }

  /**
   What Wrap computes when the block cipher changes nothing: eight bytes that are
   A6A6A6A6A6A6A6A6 xor 1 xor 2 .. xor 6n, and the n halves of the key as they were.
   Keys of any other length are refused.
   */
  lemma {:induction false} WrapUnderTheIdentity(w: BlockCipher, key: Bytes)
    requires ChangesNothing(w)
    ensures if |key| < 16 || |key| % 8 != 0 then ShiftWrap(w, key) == Err(BadLength(|key|))
      else
        && ShiftWrap(w, key).Ok? && |ShiftWrap(w, key).value| == 8 + |key|
        && Number(ShiftWrap(w, key).value[..8]) == XorUpTo(0xA6A6_A6A6_A6A6_A6A6, 6 * (|key| / 8))
        && ShiftWrap(w, key).value[8..] == key
  {
    if LegalKey(key) {
      var f, g, t := Forward(w), Start(key), 6 * (|key| / 8);
      IndexedWrapIsShift(w, key);
      IdentityOnlyCounts(w);
      InitialValue();
      UnchangedRounds(f, g, 0xA6A6_A6A6_A6A6_A6A6, ROUNDS, t);
      JoinHalves(key);
      var h := IndexRounds(f, g, ROUNDS);
      assert ShiftWrap(w, key) == Ok(h.a + key);
      assert (h.a + key)[..8] == h.a && (h.a + key)[8..] == key;
    }
  }

  lemma InitialValue()
    ensures Number(INTEGRITY) == 0xA6A6_A6A6_A6A6_A6A6
  {
    assert INTEGRITY[..0] == [] && INTEGRITY[..8] == INTEGRITY;
    NumberOfFirst(INTEGRITY, 0);
    NumberOfFirst(INTEGRITY, 1);
    NumberOfFirst(INTEGRITY, 2);
    NumberOfFirst(INTEGRITY, 3);
    NumberOfFirst(INTEGRITY, 4);
    NumberOfFirst(INTEGRITY, 5);
    NumberOfFirst(INTEGRITY, 6);
    NumberOfFirst(INTEGRITY, 7);
  }

  lemma NumberOfFirst(b: Bytes, k: nat)
    requires k < |b|
    ensures Number(b[..k + 1]) == 256 * Number(b[..k]) + b[k]
  {
    assert b[..k + 1][..k] == b[..k];
  }

  // ---------------------------------------------------------------------
  // The array code
  // ---------------------------------------------------------------------

  method Copy(dst: array<byte>, at: nat, src: Bytes)
    requires at + |src| <= dst.Length
    modifies dst
    ensures dst[..] == old(dst[..at]) + src + old(dst[at + |src|..])
  {
    for m := 0 to |src|
      invariant dst[..at] == old(dst[..at])
      invariant dst[at..at + m] == src[..m]
      invariant dst[at + m..] == old(dst[at + m..])
    {
      dst[at + m] := src[m];
    }
  }

  /** Folds the counter into a, least significant byte first. */
  method XorInto(a: array<byte>, t: nat)
    requires a.Length == 8
    modifies a
    ensures a[..] == XorCounter(old(a[..]), t)
  {
    for k := 0 to 8
      invariant forall m :: 0 <= m < 8 - k ==> a[m] == old(a[m])
      invariant forall m :: 8 - k <= m < 8 ==> a[m] == Xor(old(a[m]), CounterByte(t, 7 - m))
    {
      a[7 - k] := Xor(a[7 - k], CounterByte(t, k));
    }
  }

  function Held(a: Half, r: Bytes): Registers
    requires |r| % 8 == 0
  {
    Registers(a, Halves(r))
  }

  /** Overwriting eight bytes of r replaces one register. */
  lemma {:induction false} PatchHalf(r: Bytes, k: nat, h: Half, r': Bytes)
    requires |r| % 8 == 0 && 8 * k + 8 <= |r|
    requires r' == r[..8 * k] + h + r[8 * k + 8..]
    ensures |r'| == |r|
    ensures Halves(r') == Halves(r)[k := h]
  {
    forall m | 0 <= m < |r| / 8
      ensures Halves(r')[m] == Halves(r)[k := h][m]
    {
      HalvesAt(r, m);
      HalvesAt(r', m);
      assert m < k ==> 8 * m + 8 <= 8 * k;
      assert m > k ==> 8 * k + 8 <= 8 * m;
    }
  }

  method EncryptRegister(w: BlockCipher, a: array<byte>, r: array<byte>, buf: array<byte>, k: nat, t: nat)
    requires a.Length == 8 && buf.Length == 16 && r.Length % 8 == 0 && 8 * k + 8 <= r.Length
    requires a != r && a != buf && r != buf
    modifies a, r, buf
    ensures Held(a[..], r[..]) == IndexStep(Forward(w), old(Held(a[..], r[..])), k, t)
  {
    ghost var g := Held(a[..], r[..]);
    HalvesAt(r[..], k);
    Copy(buf, 0, a[..]);
    Copy(buf, 8, r[8 * k..8 * k + 8]);
    assert buf[..] == g.a + g.r[k];
    ghost var b := w.encrypt(buf[..]);
    Copy(buf, 0, w.encrypt(buf[..]));
    assert buf[..] == b;
    Copy(a, 0, buf[..8]);
    assert a[..] == b[..8];
    XorInto(a, t);
    PatchHalf(r[..], k, b[8..], r[..8 * k] + b[8..] + r[8 * k + 8..]);
    Copy(r, 8 * k, buf[8..]);
  }

  method DecryptRegister(w: BlockCipher, a: array<byte>, r: array<byte>, buf: array<byte>, k: nat, t: nat)
    requires a.Length == 8 && buf.Length == 16 && r.Length % 8 == 0 && 8 * k + 8 <= r.Length
    requires a != r && a != buf && r != buf
    modifies a, r, buf
    ensures Held(a[..], r[..]) == IndexStep(Backward(w), old(Held(a[..], r[..])), k, t)
  {
    ghost var g := Held(a[..], r[..]);
    HalvesAt(r[..], k);
    XorInto(a, t);
    Copy(buf, 0, a[..]);
    Copy(buf, 8, r[8 * k..8 * k + 8]);
    assert buf[..] == XorCounter(g.a, t) + g.r[k];
    ghost var b := w.decrypt(buf[..]);
    Copy(buf, 0, w.decrypt(buf[..]));
    assert buf[..] == b;
    Copy(a, 0, buf[..8]);
    assert a[..] == b[..8];
    PatchHalf(r[..], k, b[8..], r[..8 * k] + b[8..] + r[8 * k + 8..]);
    Copy(r, 8 * k, buf[8..]);
  }

  lemma IndexRunNext(f: Step, start: Registers, g: Registers, h: Registers, first: nat, i: nat)
    requires 0 < i <= |start.r| && g == IndexRun(f, start, first, i - 1)
    requires h == IndexStep(f, g, i - 1, first + i)
    ensures IndexRun(f, start, first, i) == h
  {
  }

  lemma UnindexRunNext(f: Step, g: Registers, h: Registers, first: nat, i: nat)
    requires i < |g.r| && h == IndexStep(f, g, i, first + i + 1)
    ensures UnindexRun(f, g, first, i + 1) == UnindexRun(f, h, first, i)
  {
  }

  /** The inner loop of Wrap: i = 1..n, with t = first + i. */
  method EncryptRound(w: BlockCipher, a: array<byte>, r: array<byte>, buf: array<byte>, n: nat, first: nat)
    requires a.Length == 8 && buf.Length == 16 && r.Length == 8 * n
    requires a != r && a != buf && r != buf
    modifies a, r, buf
    ensures Held(a[..], r[..]) == IndexRun(Forward(w), old(Held(a[..], r[..])), first, n)
  {
    ghost var f, start := Forward(w), Held(a[..], r[..]);
    for i := 1 to n + 1
      invariant |start.r| == n && Held(a[..], r[..]) == IndexRun(f, start, first, i - 1)
    {
      ghost var g := Held(a[..], r[..]);
      EncryptRegister(w, a, r, buf, i - 1, first + i);
      ghost var h := Held(a[..], r[..]);
      assert h == IndexStep(f, g, i - 1, first + i);
      IndexRunNext(f, start, g, h, first, i);
    }
  }

  /** The inner loop of Unwrap: i = n..1, with t = first + i. */
  method DecryptRound(w: BlockCipher, a: array<byte>, r: array<byte>, buf: array<byte>, n: nat, first: nat)
    requires a.Length == 8 && buf.Length == 16 && r.Length == 8 * n
    requires a != r && a != buf && r != buf
    modifies a, r, buf
    ensures Held(a[..], r[..]) == UnindexRun(Backward(w), old(Held(a[..], r[..])), first, n)
  {
    ghost var f, start := Backward(w), Held(a[..], r[..]);
    for i := n downto 0
      invariant |start.r| == n && UnindexRun(f, Held(a[..], r[..]), first, i) == UnindexRun(f, start, first, n)
    {
      ghost var g := Held(a[..], r[..]);
      DecryptRegister(w, a, r, buf, i, first + i + 1);
      ghost var h := Held(a[..], r[..]);
      assert h == IndexStep(f, g, i, first + i + 1);
      UnindexRunNext(f, g, h, first, i);
    }
  }

  /** The nested loops of Wrap over j and i, with t = n*j + i. */
  method EncryptRounds(w: BlockCipher, a: array<byte>, r: array<byte>, buf: array<byte>, n: nat, rounds: nat)
    requires a.Length == 8 && buf.Length == 16 && r.Length == 8 * n
    requires a != r && a != buf && r != buf
    modifies a, r, buf
    ensures Held(a[..], r[..]) == IndexRounds(Forward(w), old(Held(a[..], r[..])), rounds)
  {
    ghost var f, start, g := Forward(w), Held(a[..], r[..]), Held(a[..], r[..]);
    for j := 0 to rounds
      invariant Held(a[..], r[..]) == g && |g.r| == n && g == IndexRounds(f, start, j)
    {
      EncryptRound(w, a, r, buf, n, n * j);
      g := IndexRun(f, g, n * j, n);
    }
  }

  /** The nested loops of Unwrap, both counting down. */
  method DecryptRounds(w: BlockCipher, a: array<byte>, r: array<byte>, buf: array<byte>, n: nat, rounds: nat)
    requires a.Length == 8 && buf.Length == 16 && r.Length == 8 * n
    requires a != r && a != buf && r != buf
    modifies a, r, buf
    ensures Held(a[..], r[..]) == UnindexRounds(Backward(w), old(Held(a[..], r[..])), rounds)
  {
    ghost var f, start, g := Backward(w), Held(a[..], r[..]), Held(a[..], r[..]);
    for j := rounds downto 0
      invariant Held(a[..], r[..]) == g && |g.r| == n && UnindexRounds(f, g, j) == UnindexRounds(f, start, rounds)
    {
      DecryptRound(w, a, r, buf, n, n * j);
      g := UnindexRun(f, g, n * j, n);
    }
  }

  /** The nested loops and the indexing compute section 2.2.1. */
  method Wrap(w: BlockCipher, key: Bytes) returns (res: Result<Bytes, WrapError>)
    ensures res == ShiftWrap(w, key)
  {
    IndexedWrapIsShift(w, key);
    if |key| < 16 || |key| % 8 != 0 {
      return Err(BadLength(|key|));
    }
    var a, r, buf := new byte[8], new byte[|key|], new byte[16];
    Copy(a, 0, INTEGRITY);
    Copy(r, 0, key);
    assert a[..] == INTEGRITY && r[..] == key;
    EncryptRounds(w, a, r, buf, |key| / 8, ROUNDS);
    res := Ok(a[..] + r[..]);
    JoinHalves(r[..]);
    assert res == Ok(Join(Held(a[..], r[..])));
  }

  lemma CheckedHeld(a: Half, r: Bytes)
    requires |r| % 8 == 0
    ensures Checked(Held(a, r)) == if a != INTEGRITY then Err(IntegrityCheckFailed) else Ok(r)
  {
    JoinHalves(r);
  }

  /** The loops run backwards compute section 2.2.2, and then check the constant. */
  method Unwrap(w: BlockCipher, wrapped: Bytes) returns (res: Result<Bytes, WrapError>)
    ensures res == ShiftUnwrap(w, wrapped)
  {
    IndexedUnwrapIsShift(w, wrapped);
    if |wrapped| < 24 || |wrapped| % 8 != 0 {
      return Err(BadLength(|wrapped|));
    }
    var a, r, buf := new byte[8], new byte[|wrapped| - 8], new byte[16];
    Copy(a, 0, wrapped[..8]);
    Copy(r, 0, wrapped[8..]);
    assert a[..] == wrapped[..8] && r[..] == wrapped[8..];
    ghost var g := Held(a[..], r[..]);
    assert g == Split(wrapped);
    DecryptRounds(w, a, r, buf, |wrapped| / 8 - 1, ROUNDS);
    CheckedHeld(a[..], r[..]);
    res := if a[..] != INTEGRITY then Err(IntegrityCheckFailed) else Ok(r[..]);
    assert res == Checked(UnindexRounds(Backward(w), g, ROUNDS));
  }
}
