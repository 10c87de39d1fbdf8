/**
 The two storage tiers as values: small values as keychain entries, large ones as
 sealed files whose key is another keychain entry. Every operation is the list of
 single writes it makes; an interrupted operation made a prefix of them.
 */
module Tiers {
  import opened Bytes

  /** A file sealed under a data key: it opens under that key and under no other. */
  datatype Sealed = Sealed(dek: Bytes, plaintext: Bytes)

  datatype Tiers = Tiers(keychain: map<string, Bytes>, files: map<string, Sealed>)

  datatype Error = NotFound | Broken

  const KEYCHAIN_MAX_BYTES: nat := 3000
  const DEK_SUFFIX := ".dek"
  const INDEX_KEY := "__index"

  function DekOf(key: string): string
  {
    key + DEK_SUFFIX
  }

  predicate IsDek(key: string)
  {
    |key| >= 4 && key[|key| - 4..] == DEK_SUFFIX
  }

  /** A key a value may be kept under without meeting a data key. */
  predicate Plain(key: string)
  {
    !IsDek(key)
  }

  predicate UserKey(key: string)
  {
    key != "" && key != INDEX_KEY && Plain(key)
  }

  lemma DekIsDek(key: string)
    ensures IsDek(DekOf(key)) && DekOf(key)[..|key|] == key
  {
  }

  lemma DekInjective(a: string, b: string)
    ensures DekOf(a) == DekOf(b) <==> a == b
  {
    DekIsDek(a);
    DekIsDek(b);
  }

  // ---------------------------------------------------------------------
  // Hexadecimal
  // ---------------------------------------------------------------------

  function Digit(n: nat): byte
    requires n < 16
  {
    if n < 10 then 48 + n else 87 + n
  }

  /** Digits are read in either case. */
  function Nibble(d: byte): Option<nat>
  {
    if 48 <= d < 58 then Some(d - 48)
    else if 97 <= d < 103 then Some(d - 87)
    else if 65 <= d < 71 then Some(d - 55)
    else None
  }

  function HexEncode(b: Bytes): Bytes
  {
    if b == [] then [] else [Digit(b[0] / 16), Digit(b[0] % 16)] + HexEncode(b[1..])
  }

  function HexDecode(h: Bytes): (b: Option<Bytes>)
  {
    if h == [] then Some([])
    else if |h| == 1 then None
    else
      match (Nibble(h[0]), Nibble(h[1]), HexDecode(h[2..]))
      case (Some(x), Some(y), Some(rest)) => if 16 * x + y < 256 then Some([16 * x + y] + rest) else None
      case _ => None
  }

  lemma DigitReadBack(n: nat)
    requires n < 16
    ensures Nibble(Digit(n)) == Some(n)
  {
  }

  lemma {:induction false} HexRoundTrip(b: Bytes)
    ensures HexDecode(HexEncode(b)) == Some(b)
  {
    if b != [] {
      var high, low := b[0] / 16, b[0] % 16;
      HexRoundTrip(b[1..]);
      DigitReadBack(high);
      DigitReadBack(low);
      var h := HexEncode(b);
      assert h[0] == Digit(high) && h[1] == Digit(low) && h[2..] == HexEncode(b[1..]);
      assert 16 * high + low == b[0] && [b[0]] + b[1..] == b;
    }
  }

  const HEX_DIGITS := "0123456789abcdef"

  /** Two digits a byte, the high half first, in lower case. */
  lemma {:induction false} HexExactly(b: Bytes, i: nat)
    requires i < |b|
    ensures |HexEncode(b)| == 2 * |b|
    ensures HexEncode(b)[2 * i] == HEX_DIGITS[b[i] / 16] as int
    ensures HexEncode(b)[2 * i + 1] == HEX_DIGITS[b[i] % 16] as int
  {
    if i > 0 {
      HexExactly(b[1..], i - 1);
    } else if |b| > 1 {
      HexExactly(b[1..], 0);
    }
  }

  // ---------------------------------------------------------------------
  // Reading
  // ---------------------------------------------------------------------

  /** A missing data key reads as not found: the error wraps the keychain's. */
  function FileLookup(t: Tiers, key: string): Result<Bytes, Error>
  {
    if key !in t.files || DekOf(key) !in t.keychain then Err(NotFound)
    else
      match HexDecode(t.keychain[DekOf(key)])
      case None => Err(Broken)
      case Some(dek) => if dek == t.files[key].dek then Ok(t.files[key].plaintext) else Err(Broken)
  }

  /** router.Get: the keychain first, then the file. */
  function Lookup(t: Tiers, key: string): Result<Bytes, Error>
  {
    if key in t.keychain then Ok(t.keychain[key]) else FileLookup(t, key)
  }

  /**
   What a key reads as: its keychain entry; without one, its file, when the entry of
   its data key holds the key that file is sealed under; nothing without a file or
   without that entry; an error otherwise.
   */
  lemma LookupExactly(t: Tiers, key: string, value: Bytes)
    ensures var d := key + ".dek";
      && (Lookup(t, key) == Ok(value) <==>
           if key in t.keychain then t.keychain[key] == value
           else key in t.files && d in t.keychain && HexDecode(t.keychain[d]) == Some(t.files[key].dek)
                && t.files[key].plaintext == value)
      && (Lookup(t, key) == Err(NotFound) <==> key !in t.keychain && (key !in t.files || d !in t.keychain))
  {
  }

  // ---------------------------------------------------------------------
  // Writing
  // ---------------------------------------------------------------------

  datatype Write =
    | PutEntry(key: string, value: Bytes)
    | DropEntry(key: string)
    | PutFile(key: string, file: Sealed)
    | DropFile(key: string)

  function Apply(t: Tiers, w: Write): Tiers
  {
    match w
    case PutEntry(k, v) => t.(keychain := t.keychain[k := v])
    case DropEntry(k) => t.(keychain := t.keychain - {k})
    case PutFile(k, f) => t.(files := t.files[k := f])
    case DropFile(k) => t.(files := t.files - {k})
  }

  function ApplyAll(t: Tiers, ws: seq<Write>): Tiers
  {
    if ws == [] then t else Apply(ApplyAll(t, ws[..|ws| - 1]), ws[|ws| - 1])
  }

  lemma {:induction false} ApplyNext(t: Tiers, ws: seq<Write>, n: nat)
    requires n < |ws|
    ensures ApplyAll(t, ws[..n + 1]) == Apply(ApplyAll(t, ws[..n]), ws[n])
  {
    assert ws[..n + 1][..n] == ws[..n];
  }

  lemma {:induction false} ApplyAppend(t: Tiers, ws: seq<Write>, vs: seq<Write>)
    ensures ApplyAll(t, ws + vs) == ApplyAll(ApplyAll(t, ws), vs)
  {
    if vs == [] {
      assert ws + vs == ws;
    } else {
      var n := |vs| - 1;
      assert (ws + vs)[..|ws + vs| - 1] == ws + vs[..n];
      ApplyAppend(t, ws, vs[..n]);
    }
  }

  /** router.Set: the target tier first, then the other one is cleared of the key. */
  function SetWrites(key: string, value: Bytes, dek: Bytes): seq<Write>
  {
    if |value| <= KEYCHAIN_MAX_BYTES then
      [PutEntry(key, value), DropFile(key), DropEntry(DekOf(key))]
    else
      [PutEntry(DekOf(key), HexEncode(dek)), PutFile(key, Sealed(dek, value)), DropEntry(key)]
  }

  function DiskRemoveWrites(key: string): seq<Write>
  {
    [DropFile(key), DropEntry(DekOf(key))]
  }

  function RemoveWrites(key: string): seq<Write>
  {
    [DropEntry(key)] + DiskRemoveWrites(key)
  }

  /** Which keys a write can be seen through. */
  predicate Concerns(w: Write, key: string)
  {
    match w
    case PutEntry(k, _) => k == key || k == DekOf(key)
    case DropEntry(k) => k == key || k == DekOf(key)
    case PutFile(k, _) => k == key
    case DropFile(k) => k == key
  }

  lemma {:induction false} Unconcerned(t: Tiers, ws: seq<Write>, key: string)
    requires forall w | w in ws :: !Concerns(w, key)
    ensures Lookup(ApplyAll(t, ws), key) == Lookup(t, key)
  {
    if ws != [] {
      assert !Concerns(ws[|ws| - 1], key);
      Unconcerned(t, ws[..|ws| - 1], key);
    }
  }

  /** The writes of one key's operation concern no other plain key. */
  lemma OthersUnconcerned(key: string, value: Bytes, dek: Bytes, other: string)
    requires Plain(key) && Plain(other) && other != key
    ensures forall w | w in SetWrites(key, value, dek) :: !Concerns(w, other)
    ensures forall w | w in RemoveWrites(key) :: !Concerns(w, other)
  {
    DekIsDek(key);
    DekIsDek(other);
    DekInjective(key, other);
  }

  // ---------------------------------------------------------------------
  // One Set, whole or interrupted, from any state whatever
  // ---------------------------------------------------------------------

  function AfterSet(t: Tiers, key: string, value: Bytes, dek: Bytes): Tiers
  {
    ApplyAll(t, SetWrites(key, value, dek))
  }

  lemma {:induction false} TwoWrites(t: Tiers, a: Write, b: Write)
    ensures ApplyAll(t, [a, b][..0]) == t
    ensures ApplyAll(t, [a, b][..1]) == Apply(t, a)
    ensures ApplyAll(t, [a, b][..2]) == ApplyAll(t, [a, b]) == Apply(Apply(t, a), b)
  {
    assert [a, b][..0] == [] && [a, b][..2] == [a, b];
    ApplyNext(t, [a, b], 0);
    ApplyNext(t, [a, b], 1);
  }

  lemma {:induction false} ThreeWrites(t: Tiers, a: Write, b: Write, c: Write)
    ensures ApplyAll(t, [a, b, c][..0]) == t
    ensures ApplyAll(t, [a, b, c][..1]) == Apply(t, a)
    ensures ApplyAll(t, [a, b, c][..2]) == Apply(Apply(t, a), b)
    ensures ApplyAll(t, [a, b, c]) == Apply(Apply(Apply(t, a), b), c)
  {
    var ws := [a, b, c];
    assert ws[..0] == [] && ws[..3] == ws;
    ApplyNext(t, ws, 0);
    ApplyNext(t, ws, 1);
    ApplyNext(t, ws, 2);
  }

  lemma {:induction false} SetSteps(t: Tiers, key: string, value: Bytes, dek: Bytes)
    ensures var ws := SetWrites(key, value, dek);
      && |ws| == 3 && ApplyAll(t, ws[..0]) == t && ApplyAll(t, ws[..1]) == Apply(t, ws[0])
      && ApplyAll(t, ws[..2]) == Apply(Apply(t, ws[0]), ws[1])
    ensures AfterSet(t, key, value, dek) ==
      if |value| <= KEYCHAIN_MAX_BYTES then Tiers(t.keychain[key := value] - {DekOf(key)}, t.files - {key})
      else Tiers(t.keychain[DekOf(key) := HexEncode(dek)] - {key}, t.files[key := Sealed(dek, value)])
  {
    var ws := SetWrites(key, value, dek);
    ThreeWrites(t, ws[0], ws[1], ws[2]);
  }

  /** A value lives in one tier: the keychain up to 3000 bytes, else a file with its data key beside it. */
  lemma SetChoosesTheTier(t: Tiers, key: string, value: Bytes, dek: Bytes)
    ensures var t' := AfterSet(t, key, value, dek);
      if |value| <= 3000 then
        && key in t'.keychain && t'.keychain[key] == value
        && key !in t'.files && key + ".dek" !in t'.keychain
      else
        && key !in t'.keychain && key in t'.files && t'.files[key].plaintext == value
        && key + ".dek" in t'.keychain && HexDecode(t'.keychain[key + ".dek"]) == Some(t'.files[key].dek)
  {
    SetSteps(t, key, value, dek);
    HexRoundTrip(dek);
    DekIsLonger(key);
  }

  /** Neither key is the other's data key. */
  predicate Apart(a: string, b: string)
  {
    a != DekOf(b) && b != DekOf(a)
  }

  lemma PlainKeysAreApart(a: string, b: string)
    requires Plain(a) && Plain(b)
    ensures Apart(a, b)
  {
    DekIsDek(a);
    DekIsDek(b);
  }

  /** A Set that went through is read back exactly, and changes no key apart from it, from any state. */
  lemma SetIsReadBackApart(t: Tiers, key: string, value: Bytes, dek: Bytes, other: string)
    requires other == key || Apart(key, other)
    ensures Lookup(AfterSet(t, key, value, dek), other) == if other == key then Ok(value) else Lookup(t, other)
  {
    if other == key {
      SetSteps(t, key, value, dek);
      HexRoundTrip(dek);
      DekIsLonger(key);
    } else {
      DekInjective(key, other);
      Unconcerned(t, SetWrites(key, value, dek), other);
    }
  }

  lemma SetIsReadBack(t: Tiers, key: string, value: Bytes, dek: Bytes, other: string)
    requires Plain(key) && Plain(other)
    ensures Lookup(AfterSet(t, key, value, dek), other) == if other == key then Ok(value) else Lookup(t, other)
  {
    PlainKeysAreApart(key, other);
    SetIsReadBackApart(t, key, value, dek, other);
  }

  /** When a prefix of the writes leaves a file whose data key has just been replaced. */
  predicate Orphans(t: Tiers, key: string, value: Bytes, dek: Bytes, n: nat)
  {
    n == 1 && |value| > KEYCHAIN_MAX_BYTES && key !in t.keychain && key in t.files && t.files[key].dek != dek
  }

  /**
   Exactly what a Set interrupted after n writes leaves to be read: the old value,
   the new value, or an error, and the error only for a large value written over a
   file, between its new data key and its new contents.
   */
  lemma {:induction false} InterruptedSet(t: Tiers, key: string, value: Bytes, dek: Bytes, n: nat)
    requires Plain(key) && n <= 3
    ensures var seen := Lookup(ApplyAll(t, SetWrites(key, value, dek)[..n]), key);
      if n == 0 then seen == Lookup(t, key)
      else if |value| <= KEYCHAIN_MAX_BYTES then seen == Ok(value)
      else if n == 3 then seen == Ok(value)
      else if key in t.keychain then seen == Lookup(t, key)
      else if n == 2 then seen == Ok(value)
      else if key !in t.files then seen == Err(NotFound)
      else if t.files[key].dek == dek then seen == Ok(t.files[key].plaintext)
      else seen == Err(Broken)
  {
    SetSteps(t, key, value, dek);
    var ws := SetWrites(key, value, dek);
    assert ws[..3] == ws;
    HexRoundTrip(dek);
    DekIsDek(key);
  }

  /** A readable value becomes unreadable if and only if the interruption orphans its file. */
  lemma {:induction false} InterruptionLosesExactly(t: Tiers, key: string, value: Bytes, dek: Bytes, n: nat)
    requires Plain(key) && n <= 3 && Lookup(t, key).Ok?
    ensures Lookup(ApplyAll(t, SetWrites(key, value, dek)[..n]), key).Err? <==> Orphans(t, key, value, dek, n)
  {
    InterruptedSet(t, key, value, dek, n);
  }

  /** An interrupted Set changes no other key. */
  lemma {:induction false} InterruptedSetIsLocal(t: Tiers, key: string, value: Bytes, dek: Bytes, n: nat, other: string)
    requires Plain(key) && Plain(other) && other != key && n <= 3
    ensures Lookup(ApplyAll(t, SetWrites(key, value, dek)[..n]), other) == Lookup(t, other)
  {
    var ws := SetWrites(key, value, dek);
    OthersUnconcerned(key, value, dek, other);
    assert forall w | w in ws[..n] :: w in ws;
    Unconcerned(t, ws[..n], other);
  }

  /**
   Setting the data key of a key whose value is in a file makes that value
   unreadable, unless the value set happens to be the data key it replaces.
   */
  lemma {:induction false} DekLikeKeysCollide(t: Tiers, key: string, value: Bytes, dek: Bytes)
    requires key !in t.keychain && key in t.files
    ensures Lookup(AfterSet(t, DekOf(key), value, dek), key).Err?
      <==> |value| > KEYCHAIN_MAX_BYTES || HexDecode(value) != Some(t.files[key].dek)
  {
    DekSet(t, key, value, dek);
    FileReadsUnderItsDek(t, AfterSet(t, DekOf(key), value, dek), key);
  }

  /** A small value takes the place of the data key, a large one drops it. */
  lemma DekSet(t: Tiers, key: string, value: Bytes, dek: Bytes)
    ensures var d, t' := DekOf(key), AfterSet(t, DekOf(key), value, dek);
      && (key in t'.keychain <==> key in t.keychain) && (key in t'.files <==> key in t.files)
      && (key in t.files ==> t'.files[key] == t.files[key])
      && (d in t'.keychain <==> |value| <= KEYCHAIN_MAX_BYTES)
      && (d in t'.keychain ==> t'.keychain[d] == value)
  {
    SetSteps(t, DekOf(key), value, dek);
    DekIsLonger(key);
    DekIsLonger(DekOf(key));
    assert |DekOf(DekOf(key))| == |key| + 8;
  }

  lemma FileReadsUnderItsDek(t: Tiers, t': Tiers, key: string)
    requires key in t.files && key in t'.files && t'.files[key] == t.files[key] && key !in t'.keychain
    ensures Lookup(t', key).Err?
      <==> DekOf(key) !in t'.keychain || HexDecode(t'.keychain[DekOf(key)]) != Some(t.files[key].dek)
  {
  }

  /** Of two keys, a Set of the first never changes how the second reads exactly when they are apart. */
  lemma KeysCollideExactly(a: string, b: string)
    requires a != b
    ensures (forall t, value, dek :: Lookup(AfterSet(t, a, value, dek), b) == Lookup(t, b)) <==> Apart(a, b)
  {
    if Apart(a, b) {
      forall t, value, dek
        ensures Lookup(AfterSet(t, a, value, dek), b) == Lookup(t, b)
      {
        SetIsReadBackApart(t, a, value, dek, b);
      }
    } else if a == DekOf(b) {
      var t := Tiers(map[a := HexEncode([0])], map[b := Sealed([0], [])]);
      DekIsLonger(b);
      HexRoundTrip([0]);
      DekLikeKeysCollide(t, b, [], []);
      assert Lookup(t, b).Ok?;
    } else {
      var value := seq(KEYCHAIN_MAX_BYTES + 1, _ => 0);
      SetSteps(EMPTY, a, value, []);
      DekIsLonger(a);
      assert Lookup(AfterSet(EMPTY, a, value, []), b).Ok?;
    }
  }

  const EMPTY := Tiers(map[], map[])

  lemma DekIsLonger(key: string)
    ensures DekOf(key) != key
  {
    assert |DekOf(key)| == |key| + 4;
  }

  // ---------------------------------------------------------------------
  // The invariant of runs that succeed
  // ---------------------------------------------------------------------

  ghost predicate TidyFile(t: Tiers, k: string)
    requires k in t.files
  {
    && Plain(k) && k !in t.keychain
    && DekOf(k) in t.keychain && HexDecode(t.keychain[DekOf(k)]) == Some(t.files[k].dek)
    && |t.files[k].plaintext| > KEYCHAIN_MAX_BYTES
  }

  ghost predicate TidyEntry(t: Tiers, k: string)
    requires k in t.keychain
  {
    if IsDek(k) then k[..|k| - 4] in t.files else |t.keychain[k]| <= KEYCHAIN_MAX_BYTES
  }

  /** One tier a key, every file with its data key, every data key with its file. */
  ghost predicate Tidy(t: Tiers)
  {
    && (forall k | k in t.files :: TidyFile(t, k))
    && (forall k | k in t.keychain :: TidyEntry(t, k))
  }

  lemma SetKeepsFiles(t: Tiers, key: string, value: Bytes, dek: Bytes, k: string)
    requires Tidy(t) && Plain(key) && k in AfterSet(t, key, value, dek).files
    ensures TidyFile(AfterSet(t, key, value, dek), k)
  {
    SetSteps(t, key, value, dek);
    DekIsDek(key);
    if k == key {
      HexRoundTrip(dek);
    } else {
      assert TidyFile(t, k);
      DekInjective(k, key);
      DekIsDek(k);
    }
  }

  lemma SetKeepsEntries(t: Tiers, key: string, value: Bytes, dek: Bytes, k: string)
    requires Tidy(t) && Plain(key) && k in AfterSet(t, key, value, dek).keychain
    ensures TidyEntry(AfterSet(t, key, value, dek), k)
  {
    SetSteps(t, key, value, dek);
    DekIsDek(key);
    if k in t.keychain {
      assert TidyEntry(t, k);
    }
    DekOfBase(k);
  }

  lemma SetKeepsTidy(t: Tiers, key: string, value: Bytes, dek: Bytes)
    requires Tidy(t) && Plain(key)
    ensures Tidy(AfterSet(t, key, value, dek))
  {
    var t' := AfterSet(t, key, value, dek);
    forall k | k in t'.files
      ensures TidyFile(t', k)
    {
      SetKeepsFiles(t, key, value, dek, k);
    }
    forall k | k in t'.keychain
      ensures TidyEntry(t', k)
    {
      SetKeepsEntries(t, key, value, dek, k);
    }
  }

  lemma DekOfBase(k: string)
    ensures IsDek(k) ==> DekOf(k[..|k| - 4]) == k
  {
  }

  function AfterRemove(t: Tiers, key: string): Tiers
  {
    ApplyAll(t, RemoveWrites(key))
  }

  lemma RemoveSteps(t: Tiers, key: string)
    ensures AfterRemove(t, key) == Tiers(t.keychain - {key} - {DekOf(key)}, t.files - {key})
  {
    ThreeWrites(t, DropEntry(key), DropFile(key), DropEntry(DekOf(key)));
    assert RemoveWrites(key) == [DropEntry(key), DropFile(key), DropEntry(DekOf(key))];
  }

  lemma RemoveKeepsTidy(t: Tiers, key: string)
    requires Tidy(t) && Plain(key)
    ensures Tidy(AfterRemove(t, key))
  {
    RemoveSteps(t, key);
    var t' := AfterRemove(t, key);
    DekIsDek(key);
    forall k | k in t'.files
      ensures TidyFile(t', k)
    {
      assert TidyFile(t, k);
      DekInjective(k, key);
      DekIsDek(k);
    }
    forall k | k in t'.keychain
      ensures TidyEntry(t', k)
    {
      assert TidyEntry(t, k);
      DekOfBase(k);
    }
  }

  lemma RemoveIsReadBack(t: Tiers, key: string, other: string)
    requires Plain(key) && Plain(other)
    ensures Lookup(AfterRemove(t, key), other) == if other == key then Err(NotFound) else Lookup(t, other)
  {
    if other == key {
      RemoveSteps(t, key);
    } else {
      OthersUnconcerned(key, [], [], other);
      Unconcerned(t, RemoveWrites(key), other);
    }
  }

  // ---------------------------------------------------------------------
  // An interrupted Remove
  // ---------------------------------------------------------------------

  /** Both tiers are asked, so either may have dropped its part, and the disk a prefix of its own. */
  ghost predicate RemovedInPart(t: Tiers, key: string, t': Tiers)
  {
    exists entryGone: bool, n: nat :: n <= 2 && t' == PartlyRemoved(t, key, entryGone, n)
  }

  function PartlyRemoved(t: Tiers, key: string, entryGone: bool, n: nat): Tiers
    requires n <= 2
  {
    ApplyAll(if entryGone then Apply(t, DropEntry(key)) else t, DiskRemoveWrites(key)[..n])
  }

  /**
   What an interrupted Remove leaves to be read: the value as before, nothing, or
   what the file held; and no other key reads differently.
   */
  lemma InterruptedRemove(t: Tiers, key: string, entryGone: bool, n: nat, other: string)
    requires Plain(key) && Plain(other) && n <= 2
    ensures Lookup(PartlyRemoved(t, key, entryGone, n), other) ==
      if other != key then Lookup(t, other)
      else if key in t.keychain && !entryGone then Lookup(t, key)
      else if n > 0 then Err(NotFound)
      else FileLookup(t, key)
  {
    var ws := DiskRemoveWrites(key);
    var t1 := if entryGone then Apply(t, DropEntry(key)) else t;
    if other == key {
      DekIsDek(key);
      TwoWrites(t1, ws[0], ws[1]);
      assert ws == [ws[0], ws[1]];
    } else {
      OthersUnconcerned(key, [], [], other);
      assert forall w | w in ws[..n] :: w in RemoveWrites(key);
      Unconcerned(t1, ws[..n], other);
      assert DropEntry(key) in RemoveWrites(key);
    }
  }

  /**
   An interrupted Remove brings a value back that was not to be read before if and
   only if the keychain's entry went while a readable file of another content was
   left beneath it. Where every key lives in one tier that cannot be.
   */
  lemma RemoveUncoversExactly(t: Tiers, key: string, entryGone: bool, n: nat)
    requires Plain(key) && n <= 2
    ensures var seen := Lookup(PartlyRemoved(t, key, entryGone, n), key);
      seen.Ok? && seen != Lookup(t, key) <==>
        entryGone && n == 0 && key in t.keychain && FileLookup(t, key).Ok? && FileLookup(t, key) != Lookup(t, key)
    ensures Tidy(t) ==> Lookup(PartlyRemoved(t, key, entryGone, n), key) in {Lookup(t, key), Err(NotFound)}
  {
    InterruptedRemove(t, key, entryGone, n, key);
    if Tidy(t) && key in t.files {
      assert TidyFile(t, key);
    }
  }

  /** What an interrupted removal, or several, may leave of a key. */
  predicate Remains(t: Tiers, t': Tiers, k: string)
  {
    && Lookup(t', k) in {Lookup(t, k), FileLookup(t, k), Err(NotFound)}
    && FileLookup(t', k) in {FileLookup(t, k), Err(NotFound)}
  }

  predicate Untouched(t: Tiers, t': Tiers, k: string)
  {
    Lookup(t', k) == Lookup(t, k) && FileLookup(t', k) == FileLookup(t, k)
  }

  lemma InterruptedRemoveFile(t: Tiers, key: string, entryGone: bool, n: nat, k: string)
    requires Plain(key) && Plain(k) && n <= 2
    ensures FileLookup(PartlyRemoved(t, key, entryGone, n), k)
         == if k == key && n > 0 then Err(NotFound) else FileLookup(t, k)
  {
    var t1 := if entryGone then Apply(t, DropEntry(key)) else t;
    TwoWrites(t1, DropFile(key), DropEntry(DekOf(key)));
    assert DiskRemoveWrites(key) == [DropFile(key), DropEntry(DekOf(key))];
    DekIsDek(k);
    DekInjective(key, k);
  }

  lemma RemainsAfterRemove(t: Tiers, key: string, t': Tiers, k: string)
    requires Plain(key) && Plain(k) && RemovedInPart(t, key, t')
    ensures if k == key then Remains(t, t', k) else Untouched(t, t', k)
  {
    var entryGone: bool, n: nat :| n <= 2 && t' == PartlyRemoved(t, key, entryGone, n);
    InterruptedRemove(t, key, entryGone, n, k);
    InterruptedRemoveFile(t, key, entryGone, n, k);
  }

  /** Every listed key is as it was or partly gone, and no other plain key has changed. */
  ghost predicate ClearedInPart(t: Tiers, keys: seq<string>, t': Tiers)
  {
    forall k | Plain(k) :: if k in keys then Remains(t, t', k) else Untouched(t, t', k)
  }

  lemma ClearedOneMore(t: Tiers, keys: seq<string>, t1: Tiers, key: string, t2: Tiers)
    requires ClearedInPart(t, keys, t1) && RemovedInPart(t1, key, t2) && Plain(key)
    ensures ClearedInPart(t, keys + [key], t2)
  {
    forall k | Plain(k)
      ensures if k in keys + [key] then Remains(t, t2, k) else Untouched(t, t2, k)
    {
      RemainsAfterRemove(t1, key, t2, k);
    }
  }
}
