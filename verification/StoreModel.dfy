/** The store over the two tiers, with the list of its keys kept inside itself. */
module StoreModel {
  import opened Bytes
  import opened Tiers

  /** The encoding of the index: some pair of functions, the second undoing the first. */
  datatype Codec = Codec(encode: seq<string> -> Bytes, decode: Bytes -> Option<seq<string>>)

  ghost predicate Inverse(c: Codec)
  {
    forall keys: seq<string> :: c.decode(c.encode(keys)) == Some(keys)
  }

  /** A missing index is an empty one. */
  function IndexOf(c: Codec, t: Tiers): Result<seq<string>, Error>
  {
    match Lookup(t, INDEX_KEY)
    case Err(NotFound) => Ok([])
    case Err(Broken) => Err(Broken)
    case Ok(raw) => match c.decode(raw) { case None => Err(Broken) case Some(keys) => Ok(keys) }
  }

  function Without(keys: seq<string>, key: string): seq<string>
  {
    if keys == [] then []
    else
      var last := keys[|keys| - 1];
      Without(keys[..|keys| - 1], key) + if last == key then [] else [last]
  }

  function SaveWrites(c: Codec, keys: seq<string>, dek: Bytes): seq<Write>
  {
    SetWrites(INDEX_KEY, c.encode(keys), dek)
  }

  /** addToIndex: nothing when the index cannot be read, or already lists the key. */
  function AddWrites(c: Codec, t: Tiers, key: string, dek: Bytes): seq<Write>
  {
    var index := IndexOf(c, t);
    if index.Err? || key in index.value then [] else SaveWrites(c, index.value + [key], dek)
  }

  function DropWrites(c: Codec, t: Tiers, key: string, dek: Bytes): seq<Write>
  {
    var index := IndexOf(c, t);
    if index.Err? then [] else SaveWrites(c, Without(index.value, key), dek)
  }

  /** Every write of Store.Set, in order. */
  function FullSet(c: Codec, t: Tiers, key: string, value: Bytes, dek: Bytes, indexDek: Bytes): seq<Write>
  {
    SetWrites(key, value, dek) + AddWrites(c, AfterSet(t, key, value, dek), key, indexDek)
  }

  /** Every write of Store.Remove, when none fails. */
  function FullRemove(c: Codec, t: Tiers, key: string, indexDek: Bytes): seq<Write>
  {
    RemoveWrites(key) + DropWrites(c, AfterRemove(t, key), key, indexDek)
  }

  /** Store.Clear's removals, one key after another. */
  function RemoveEach(t: Tiers, keys: seq<string>): Tiers
  {
    if keys == [] then t else AfterRemove(RemoveEach(t, keys[..|keys| - 1]), keys[|keys| - 1])
  }

  // ---------------------------------------------------------------------
  // The plain map a store stands for
  // ---------------------------------------------------------------------

  function Contents(t: Tiers): map<string, Bytes>
  {
    map k | k in t.keychain.Keys + t.files.Keys && UserKey(k) && Lookup(t, k).Ok? :: Lookup(t, k).value
  }

  lemma ContentsAt(t: Tiers, k: string)
    ensures k in Contents(t) <==> UserKey(k) && Lookup(t, k).Ok?
  {
  }

  /** Nothing is kept under a key that is not the user's, the index's or a data key. */
  ghost predicate NoStrangers(t: Tiers)
  {
    && (forall k | k in t.keychain && Plain(k) :: UserKey(k) || k == INDEX_KEY)
    && (forall k | k in t.files :: UserKey(k) || k == INDEX_KEY)
  }

  ghost predicate Valid(c: Codec, t: Tiers)
  {
    && Inverse(c) && Tidy(t) && NoStrangers(t)
    && IndexOf(c, t).Ok?
    && Distinct(IndexOf(c, t).value)
    && (forall k :: k in IndexOf(c, t).value <==> k in Contents(t))
  }

  lemma IndexIsPlain()
    ensures Plain(INDEX_KEY)
  {
    assert INDEX_KEY[3..] == "ndex";
    assert "ndex"[0] != DEK_SUFFIX[0];
  }

  lemma SetStrangers(t: Tiers, key: string, value: Bytes, dek: Bytes)
    requires NoStrangers(t) && (UserKey(key) || key == INDEX_KEY)
    ensures NoStrangers(AfterSet(t, key, value, dek))
  {
    SetSteps(t, key, value, dek);
    DekIsDek(key);
  }

  /** What saving a list of keys does: the list is read back, and no user's key changes. */
  lemma {:induction false} SaveIndex(c: Codec, t: Tiers, keys: seq<string>, dek: Bytes)
    requires Inverse(c) && Tidy(t) && NoStrangers(t)
    ensures var t' := ApplyAll(t, SaveWrites(c, keys, dek));
      && Tidy(t') && NoStrangers(t') && IndexOf(c, t') == Ok(keys) && Contents(t') == Contents(t)
  {
    var raw := c.encode(keys);
    var t' := AfterSet(t, INDEX_KEY, raw, dek);
    IndexIsPlain();
    SetKeepsTidy(t, INDEX_KEY, raw, dek);
    SetStrangers(t, INDEX_KEY, raw, dek);
    SetIsReadBack(t, INDEX_KEY, raw, dek, INDEX_KEY);
    forall k
      ensures k in Contents(t') <==> k in Contents(t)
      ensures k in Contents(t) ==> Contents(t')[k] == Contents(t)[k]
    {
      ContentsAt(t, k);
      ContentsAt(t', k);
      if UserKey(k) {
        SetIsReadBack(t, INDEX_KEY, raw, dek, k);
      }
    }
    assert Contents(t').Keys == Contents(t).Keys;
  }

  /** Contents that agree key by key with a map are that map. */
  lemma ContentsAre(t: Tiers, m: map<string, Bytes>)
    requires forall k :: k in m <==> UserKey(k) && Lookup(t, k).Ok?
    requires forall k | k in m :: Lookup(t, k) == Ok(m[k])
    ensures Contents(t) == m
  {
    forall k
      ensures k in Contents(t) <==> k in m
      ensures k in m ==> Contents(t)[k] == m[k]
    {
      ContentsAt(t, k);
    }
  }

  lemma SetContents(t: Tiers, key: string, value: Bytes, dek: Bytes)
    requires UserKey(key)
    ensures Contents(AfterSet(t, key, value, dek)) == Contents(t)[key := value]
  {
    forall k | UserKey(k)
      ensures Lookup(AfterSet(t, key, value, dek), k) == if k == key then Ok(value) else Lookup(t, k)
      ensures k in Contents(t) <==> Lookup(t, k).Ok?
    {
      SetIsReadBack(t, key, value, dek, k);
      ContentsAt(t, k);
    }
    ContentsAre(AfterSet(t, key, value, dek), Contents(t)[key := value]);
  }

  lemma RemoveContents(t: Tiers, key: string)
    requires UserKey(key)
    ensures Contents(AfterRemove(t, key)) == Contents(t) - {key}
  {
    forall k | UserKey(k)
      ensures Lookup(AfterRemove(t, key), k) == if k == key then Err(NotFound) else Lookup(t, k)
      ensures k in Contents(t) <==> Lookup(t, k).Ok?
    {
      RemoveIsReadBack(t, key, k);
      ContentsAt(t, k);
    }
    ContentsAre(AfterRemove(t, key), Contents(t) - {key});
  }

  lemma RemoveStrangers(t: Tiers, key: string)
    requires NoStrangers(t)
    ensures NoStrangers(AfterRemove(t, key))
  {
    RemoveSteps(t, key);
  }

  lemma {:induction false} WithoutExactly(keys: seq<string>, key: string)
    requires Distinct(keys)
    ensures Distinct(Without(keys, key))
    ensures forall k :: k in Without(keys, key) <==> k in keys && k != key
  {
    if keys != [] {
      var front, last := keys[..|keys| - 1], keys[|keys| - 1];
      WithoutExactly(front, key);
      assert keys == front + [last];
      assert last !in front;
      var kept := Without(front, key);
      assert last !in kept;
      assert Distinct(kept + [last]);
    }
  }

  /** Dropping a listed key closes the gap it leaves. */
  lemma {:induction false} WithoutClosesTheGap(keys: seq<string>, i: nat)
    requires Distinct(keys) && i < |keys|
    ensures Without(keys, keys[i]) == keys[..i] + keys[i + 1..]
  {
    var n := |keys| - 1;
    if i < n {
      WithoutClosesTheGap(keys[..n], i);
    } else {
      WithoutUnlisted(keys[..n], keys[n]);
    }
  }

  lemma {:induction false} WithoutUnlisted(keys: seq<string>, key: string)
    requires key !in keys
    ensures Without(keys, key) == keys
  {
    if keys != [] {
      WithoutUnlisted(keys[..|keys| - 1], key);
    }
  }

  /** Keys lists a new key last, and a listed one where it was; a Set of a listed key writes no index. */
  lemma {:induction false} SetKeepsTheOrder(c: Codec, t: Tiers, key: string, value: Bytes, dek: Bytes, indexDek: Bytes)
    requires Valid(c, t) && UserKey(key)
    ensures var index, ws := IndexOf(c, t).value, FullSet(c, t, key, value, dek, indexDek);
      && IndexOf(c, ApplyAll(t, ws)) == Ok(if key in index then index else index + [key])
      && |ws| == if key in index then 3 else 6
  {
    var t1 := AfterSet(t, key, value, dek);
    var index := IndexOf(c, t).value;
    KeysKeepIndex(c, t, key, value, dek);
    ApplyAppend(t, SetWrites(key, value, dek), AddWrites(c, t1, key, indexDek));
    if key !in index {
      SetKeepsTidy(t, key, value, dek);
      SetStrangers(t, key, value, dek);
      SaveIndex(c, t1, index + [key], indexDek);
    }
  }

  /** Set on a valid store is map update; Keys then lists the map's domain, each key once. */
  lemma {:induction false} SetRefinesMap(c: Codec, t: Tiers, key: string, value: Bytes, dek: Bytes, indexDek: Bytes)
    requires Valid(c, t) && UserKey(key)
    ensures var t' := ApplyAll(t, FullSet(c, t, key, value, dek, indexDek));
      Valid(c, t') && Contents(t') == Contents(t)[key := value]
  {
    var t1 := AfterSet(t, key, value, dek);
    SetKeepsTidy(t, key, value, dek);
    SetStrangers(t, key, value, dek);
    SetContents(t, key, value, dek);
    KeysKeepIndex(c, t, key, value, dek);
    IndexIsPlain();
    var index := IndexOf(c, t1).value;
    ApplyAppend(t, SetWrites(key, value, dek), AddWrites(c, t1, key, indexDek));
    if key !in index {
      SaveIndex(c, t1, index + [key], indexDek);
    }
  }

  lemma {:induction false} RemoveRefinesMap(c: Codec, t: Tiers, key: string, indexDek: Bytes)
    requires Valid(c, t) && UserKey(key)
    ensures var t' := ApplyAll(t, FullRemove(c, t, key, indexDek));
      Valid(c, t') && Contents(t') == Contents(t) - {key}
  {
    var t1 := AfterRemove(t, key);
    RemoveKeepsTidy(t, key);
    RemoveStrangers(t, key);
    RemoveContents(t, key);
    KeysKeepIndex(c, t, key, [], []);
    var index := IndexOf(c, t1).value;
    WithoutExactly(index, key);
    ApplyAppend(t, RemoveWrites(key), DropWrites(c, t1, key, indexDek));
    SaveIndex(c, t1, Without(index, key), indexDek);
  }

  lemma {:induction false} RemoveEachKey(c: Codec, t: Tiers, keys: seq<string>)
    requires Tidy(t) && NoStrangers(t) && forall k | k in keys :: UserKey(k)
    ensures var t' := RemoveEach(t, keys);
      && Tidy(t') && NoStrangers(t') && (forall k :: k in Contents(t') <==> k in Contents(t) && k !in keys)
  {
    if keys != [] {
      var n := |keys| - 1;
      assert keys[n] in keys && forall k :: k in keys <==> k in keys[..n] || k == keys[n];
      RemoveEachKey(c, t, keys[..n]);
      var t1 := RemoveEach(t, keys[..n]);
      RemoveKeepsTidy(t1, keys[n]);
      RemoveStrangers(t1, keys[n]);
      RemoveContents(t1, keys[n]);
    }
  }

  /** A tidy store without strangers, contents or index is empty: no value, file or data key is left. */
  lemma NothingLeft(t: Tiers)
    requires Tidy(t) && NoStrangers(t) && Contents(t) == map[] && Lookup(t, INDEX_KEY).Err?
    ensures t == Tiers(map[], map[])
  {
    forall k | k in t.files
      ensures k == INDEX_KEY && Lookup(t, k).Ok?
    {
      assert TidyFile(t, k);
      ContentsAt(t, k);
    }
    assert t.files.Keys == {};
    forall k | k in t.keychain
      ensures k == INDEX_KEY && Lookup(t, k).Ok?
    {
      assert TidyEntry(t, k);
      ContentsAt(t, k);
    }
    assert t.keychain.Keys == {};
  }

  /** Clear leaves no value, file, data key or index. */
  lemma {:induction false} ClearLeavesNothing(c: Codec, t: Tiers)
    requires Valid(c, t)
    ensures AfterRemove(RemoveEach(t, IndexOf(c, t).value), INDEX_KEY) == Tiers(map[], map[])
  {
    var keys := IndexOf(c, t).value;
    forall k | k in keys
      ensures UserKey(k)
    {
      ContentsAt(t, k);
    }
    RemoveEachKey(c, t, keys);
    var t1 := RemoveEach(t, keys);
    var t2 := AfterRemove(t1, INDEX_KEY);
    IndexIsPlain();
    RemoveKeepsTidy(t1, INDEX_KEY);
    RemoveSteps(t1, INDEX_KEY);
    RemoveIsReadBack(t1, INDEX_KEY, INDEX_KEY);
    forall k
      ensures k !in Contents(t2)
    {
      ContentsAt(t1, k);
      ContentsAt(t2, k);
      if UserKey(k) {
        RemoveIsReadBack(t1, INDEX_KEY, k);
      }
    }
    assert Contents(t2).Keys == {};
    NothingLeft(t2);
  }

  // ---------------------------------------------------------------------
  // Runs
  // ---------------------------------------------------------------------

  datatype Op =
    | SetOp(key: string, value: Bytes, dek: Bytes, indexDek: Bytes)
    | RemoveOp(key: string, indexDek: Bytes)
    | ClearOp

  function Do(c: Codec, t: Tiers, op: Op): Tiers
  {
    match op
    case SetOp(key, value, dek, indexDek) => ApplyAll(t, FullSet(c, t, key, value, dek, indexDek))
    case RemoveOp(key, indexDek) => ApplyAll(t, FullRemove(c, t, key, indexDek))
    case ClearOp => if IndexOf(c, t).Err? then t else AfterRemove(RemoveEach(t, IndexOf(c, t).value), INDEX_KEY)
  }

  function DoMap(m: map<string, Bytes>, op: Op): map<string, Bytes>
  {
    match op
    case SetOp(key, value, _, _) => m[key := value]
    case RemoveOp(key, _) => m - {key}
    case ClearOp => map[]
  }

  function DoAll(c: Codec, t: Tiers, ops: seq<Op>): Tiers
  {
    if ops == [] then t else Do(c, DoAll(c, t, ops[..|ops| - 1]), ops[|ops| - 1])
  }

  function DoAllMap(m: map<string, Bytes>, ops: seq<Op>): map<string, Bytes>
  {
    if ops == [] then m else DoMap(DoAllMap(m, ops[..|ops| - 1]), ops[|ops| - 1])
  }

  lemma EmptyIsValid(c: Codec)
    requires Inverse(c)
    ensures Valid(c, EMPTY) && Contents(EMPTY) == map[]
  {
    assert Contents(EMPTY).Keys == {};
  }

  /** A reader of the store finds this map: Get agrees with it, and Keys lists its domain without repeats. */
  ghost predicate ActsAs(c: Codec, t: Tiers, m: map<string, Bytes>)
  {
    && (forall k | UserKey(k) :: Lookup(t, k) == if k in m then Ok(m[k]) else Err(NotFound))
    && IndexOf(c, t).Ok? && Distinct(IndexOf(c, t).value)
    && (forall k :: k in IndexOf(c, t).value <==> k in m)
  }

  lemma ValidActsAs(c: Codec, t: Tiers)
    requires Valid(c, t)
    ensures ActsAs(c, t, Contents(t))
  {
    LookupAgrees(t);
  }

  ghost predicate StandsFor(c: Codec, t: Tiers, m: map<string, Bytes>)
  {
    Valid(c, t) && Contents(t) == m
  }

  lemma {:induction false} DoStandsFor(c: Codec, t: Tiers, m: map<string, Bytes>, op: Op)
    requires StandsFor(c, t, m) && (!op.ClearOp? ==> UserKey(op.key))
    ensures StandsFor(c, Do(c, t, op), DoMap(m, op))
  {
    match op
    case SetOp(key, value, dek, indexDek) => SetRefinesMap(c, t, key, value, dek, indexDek);
    case RemoveOp(key, indexDek) => RemoveRefinesMap(c, t, key, indexDek);
    case ClearOp =>
      ClearLeavesNothing(c, t);
      EmptyIsValid(c);
  }

  /**
   Over every sequence of operations that succeed the store is a plain map: it is
   valid, it holds what the map holds, and a reader finds just that.
   */
  lemma {:induction false} StoreRefinesMap(c: Codec, ops: seq<Op>)
    requires Inverse(c)
    requires forall op | op in ops && !op.ClearOp? :: UserKey(op.key)
    ensures var t, m := DoAll(c, EMPTY, ops), DoAllMap(map[], ops);
      StandsFor(c, t, m) && ActsAs(c, t, m)
  {
    if ops == [] {
      EmptyIsValid(c);
    } else {
      var n := |ops| - 1;
      StoreRefinesMap(c, ops[..n]);
      DoStandsFor(c, DoAll(c, EMPTY, ops[..n]), DoAllMap(map[], ops[..n]), ops[n]);
    }
    ValidActsAs(c, DoAll(c, EMPTY, ops));
  }

  /** On a tidy store a user's key reads as its contents, and as not found otherwise. */
  lemma LookupAgrees(t: Tiers)
    requires Tidy(t)
    ensures forall k | UserKey(k) :: Lookup(t, k) == if k in Contents(t) then Ok(Contents(t)[k]) else Err(NotFound)
  {
    forall k | UserKey(k)
      ensures Lookup(t, k) == if k in Contents(t) then Ok(Contents(t)[k]) else Err(NotFound)
    {
      ContentsAt(t, k);
      if k in t.files {
        assert TidyFile(t, k);
      }
    }
  }

  // ---------------------------------------------------------------------
  // A Set that stopped anywhere, index included
  // ---------------------------------------------------------------------

  ghost predicate Stopped(t: Tiers, ws: seq<Write>, t': Tiers)
  {
    exists n :: 0 <= n <= |ws| && t' == ApplyAll(t, ws[..n])
  }

  /**
   What may be read after a Set that failed. The last case needs a new random data
   key equal to that of the file on disk.
   */
  predicate OldNewOrError(t: Tiers, t': Tiers, key: string, value: Bytes, dek: Bytes)
  {
    || Lookup(t', key) == Lookup(t, key)
    || Lookup(t', key) == Ok(value)
    || Lookup(t', key).Err?
    || (key in t.files && t.files[key].dek == dek && Lookup(t', key) == Ok(t.files[key].plaintext))
  }

  /**
   From any state whatever, a Set of a user's key that stopped after any of its
   writes leaves that key reading as before, as the new value or as an error,
   and every other user's key reading as before.
   */
  lemma StoppedSetIsSafe(c: Codec, t: Tiers, key: string, value: Bytes, dek: Bytes, indexDek: Bytes, t': Tiers)
    requires UserKey(key) && Stopped(t, FullSet(c, t, key, value, dek, indexDek), t')
    ensures OldNewOrError(t, t', key, value, dek)
    ensures forall k | UserKey(k) && k != key :: Lookup(t', k) == Lookup(t, k)
  {
    var ws := FullSet(c, t, key, value, dek, indexDek);
    var own := SetWrites(key, value, dek);
    var n :| 0 <= n <= |ws| && t' == ApplyAll(t, ws[..n]);
    SetSteps(t, key, value, dek);
    if n <= 3 {
      assert ws[..n] == own[..n];
      InterruptedSet(t, key, value, dek, n);
      forall k | UserKey(k) && k != key
        ensures Lookup(t', k) == Lookup(t, k)
      {
        InterruptedSetIsLocal(t, key, value, dek, n, k);
      }
    } else {
      var t1 := AfterSet(t, key, value, dek);
      var index := AddWrites(c, t1, key, indexDek);
      assert ws[..n] == own + index[..n - 3];
      ApplyAppend(t, own, index[..n - 3]);
      IndexIsPlain();
      forall k | UserKey(k)
        ensures Lookup(t', k) == if k == key then Ok(value) else Lookup(t, k)
      {
        SetIsReadBack(t, key, value, dek, k);
        InterruptedSetIsLocal(t1, INDEX_KEY, c.encode(IndexOf(c, t1).value + [key]), indexDek, n - 3, k);
      }
    }
  }

  /** And one that went through is read back exactly, from any state whatever. */
  lemma {:induction false} FullSetIsReadBack(c: Codec, t: Tiers, key: string, value: Bytes, dek: Bytes, indexDek: Bytes)
    requires UserKey(key)
    ensures var t' := ApplyAll(t, FullSet(c, t, key, value, dek, indexDek));
      Lookup(t', key) == Ok(value) && forall k | UserKey(k) && k != key :: Lookup(t', k) == Lookup(t, k)
  {
    var t1 := AfterSet(t, key, value, dek);
    var index := AddWrites(c, t1, key, indexDek);
    ApplyAppend(t, SetWrites(key, value, dek), index);
    IndexIsPlain();
    forall k | UserKey(k)
      ensures Lookup(ApplyAll(t1, index), k) == if k == key then Ok(value) else Lookup(t, k)
    {
      SetIsReadBack(t, key, value, dek, k);
      if index != [] {
        SetIsReadBack(t1, INDEX_KEY, c.encode(IndexOf(c, t1).value + [key]), indexDek, k);
      }
    }
  }

  // ---------------------------------------------------------------------
  // The keys a caller may use
  // ---------------------------------------------------------------------

  /** What Set promises of one key on one store: it is read back and listed, and nothing else changes. */
  ghost predicate Behaves(c: Codec, t: Tiers, t': Tiers, key: string, value: Bytes)
    requires IndexOf(c, t).Ok?
  {
    && Lookup(t', key) == Ok(value)
    && (forall k | UserKey(k) && k != key :: Lookup(t', k) == Lookup(t, k))
    && IndexOf(c, t').Ok?
    && (forall k :: k in IndexOf(c, t').value <==> k == key || k in IndexOf(c, t).value)
  }

  /** What a Set leaves when nothing fails, or None when it refuses: the empty key, before any write. */
  function SetOutcome(c: Codec, t: Tiers, key: string, value: Bytes, dek: Bytes, indexDek: Bytes): Option<Tiers>
  {
    if key == "" then None else Some(ApplyAll(t, FullSet(c, t, key, value, dek, indexDek)))
  }

  ghost predicate SetBehaves(c: Codec, key: string)
  {
    forall t, value, dek, indexDek | Valid(c, t) ::
      var outcome := SetOutcome(c, t, key, value, dek, indexDek);
      outcome.Some? && Behaves(c, t, outcome.value, key, value)
  }

  /** Not empty, not the index, and the data key of neither the index nor a user's key. */
  predicate Settable(key: string)
  {
    key != "" && key != INDEX_KEY && (IsDek(key) ==> key[..|key| - 4] != INDEX_KEY && !UserKey(key[..|key| - 4]))
  }

  /** The keys of StoreRefinesMap are the settable ones that do not look like a data key. */
  lemma UserKeysExactly(key: string)
    ensures UserKey(key) <==> Settable(key) && Plain(key)
  {
  }

  lemma SettableIsApart(key: string, k: string)
    requires Settable(key) && (UserKey(k) || k == INDEX_KEY)
    ensures Apart(key, k)
  {
    IndexIsPlain();
    DekIsDek(key);
    DekIsDek(k);
  }

  lemma SettableReads(t: Tiers, key: string, value: Bytes, dek: Bytes, k: string)
    requires Settable(key) && (UserKey(k) || k == key)
    ensures Lookup(AfterSet(t, key, value, dek), k) == if k == key then Ok(value) else Lookup(t, k)
  {
    if k != key {
      SettableIsApart(key, k);
    }
    SetIsReadBackApart(t, key, value, dek, k);
  }

  lemma {:induction false} SettableBehaves(c: Codec, t: Tiers, key: string, value: Bytes, dek: Bytes, indexDek: Bytes)
    requires Valid(c, t) && Settable(key)
    ensures Behaves(c, t, ApplyAll(t, FullSet(c, t, key, value, dek, indexDek)), key, value)
  {
    var t1 := AfterSet(t, key, value, dek);
    var writes := AddWrites(c, t1, key, indexDek);
    var t' := ApplyAll(t1, writes);
    ApplyAppend(t, SetWrites(key, value, dek), writes);
    SettableIsApart(key, INDEX_KEY);
    SetIsReadBackApart(t, key, value, dek, INDEX_KEY);
    var index := IndexOf(c, t).value;
    var raw := c.encode(index + [key]);
    forall k | UserKey(k) || k == key
      ensures Lookup(t', k) == if k == key then Ok(value) else Lookup(t, k)
    {
      SettableReads(t, key, value, dek, k);
      if writes != [] {
        SettableIsApart(k, INDEX_KEY);
        SetIsReadBackApart(t1, INDEX_KEY, raw, indexDek, k);
      }
    }
    if writes != [] {
      SetIsReadBackApart(t1, INDEX_KEY, raw, indexDek, INDEX_KEY);
    }
  }

  /**
   The whole Set of "__index", the addition to the index included: Keys fails when
   the value is no index, and else lists the value's keys and "__index" itself.
   */
  lemma {:induction false} IndexKeyCollides(c: Codec, t: Tiers, value: Bytes, dek: Bytes, indexDek: Bytes)
    requires Inverse(c)
    ensures var t' := ApplyAll(t, FullSet(c, t, INDEX_KEY, value, dek, indexDek));
      match c.decode(value)
      case None => Lookup(t', INDEX_KEY) == Ok(value) && IndexOf(c, t') == Err(Broken)
      case Some(keys) =>
        if INDEX_KEY in keys then Lookup(t', INDEX_KEY) == Ok(value) && IndexOf(c, t') == Ok(keys)
        else Lookup(t', INDEX_KEY) == Ok(c.encode(keys + [INDEX_KEY])) && IndexOf(c, t') == Ok(keys + [INDEX_KEY])
  {
    var t1 := AfterSet(t, INDEX_KEY, value, dek);
    var writes := AddWrites(c, t1, INDEX_KEY, indexDek);
    ApplyAppend(t, SetWrites(INDEX_KEY, value, dek), writes);
    SetIsReadBackApart(t, INDEX_KEY, value, dek, INDEX_KEY);
    if writes != [] {
      var keys := c.decode(value).value;
      SetIsReadBackApart(t1, INDEX_KEY, c.encode(keys + [INDEX_KEY]), indexDek, INDEX_KEY);
    }
  }

  /** Setting the index's data key is undone by the addition to the index that follows. */
  lemma IndexDekIsLost(c: Codec)
    requires Inverse(c)
    ensures !SetBehaves(c, DekOf(INDEX_KEY))
  {
    var key := DekOf(INDEX_KEY);
    EmptyIsValid(c);
    var t1 := AfterSet(EMPTY, key, [], []);
    SetSteps(EMPTY, key, [], []);
    DekIsLonger(INDEX_KEY);
    DekIsLonger(key);
    assert IndexOf(c, t1) == Ok([]);
    var raw := c.encode([key]);
    assert [] + [key] == [key];
    ApplyAppend(EMPTY, SetWrites(key, [], []), SaveWrites(c, [key], [0]));
    SetSteps(t1, INDEX_KEY, raw, [0]);
    var t' := ApplyAll(EMPTY, FullSet(c, EMPTY, key, [], [], [0]));
    assert t' == AfterSet(t1, INDEX_KEY, raw, [0]);
    assert Lookup(t', key) != Ok([]);
    assert t' == SetOutcome(c, EMPTY, key, [], [], [0]).value;
    assert !Behaves(c, EMPTY, t', key, []);
  }

  /** From a store the caller can reach: a large value, and then its data key set. */
  lemma {:induction false} DekLikeKeysBreak(c: Codec, t: Tiers, key: string, value: Bytes, dek: Bytes, indexDek: Bytes)
    requires Valid(c, t) && UserKey(key) && key in t.files
    ensures Lookup(t, key).Ok?
    ensures Lookup(ApplyAll(t, FullSet(c, t, DekOf(key), value, dek, indexDek)), key).Err?
      <==> |value| > KEYCHAIN_MAX_BYTES || HexDecode(value) != Some(t.files[key].dek)
  {
    assert TidyFile(t, key);
    var t1 := AfterSet(t, DekOf(key), value, dek);
    var writes := AddWrites(c, t1, DekOf(key), indexDek);
    ApplyAppend(t, SetWrites(DekOf(key), value, dek), writes);
    DekLikeKeysCollide(t, key, value, dek);
    if writes != [] {
      IndexIsPlain();
      SetIsReadBack(t1, INDEX_KEY, c.encode(IndexOf(c, t1).value + [DekOf(key)]), indexDek, key);
    }
  }

  lemma UserDekBreaks(c: Codec, key: string)
    requires Inverse(c) && UserKey(key)
    ensures !SetBehaves(c, DekOf(key))
  {
    var large := seq(KEYCHAIN_MAX_BYTES + 1, _ => 0);
    EmptyIsValid(c);
    var t := ApplyAll(EMPTY, FullSet(c, EMPTY, key, large, [], []));
    SetRefinesMap(c, EMPTY, key, large, [], []);
    ContentsAt(t, key);
    assert Lookup(t, key) == Ok(large);
    assert key in t.keychain ==> TidyEntry(t, key);
    DekLikeKeysBreak(c, t, key, large, [], []);
    assert !Behaves(c, t, SetOutcome(c, t, DekOf(key), large, [], []).value, DekOf(key), large);
  }

  /** A user's key behaves on every valid store. */
  lemma {:induction false} UserKeysBehave(c: Codec, key: string)
    requires Inverse(c) && UserKey(key)
    ensures SetBehaves(c, key)
  {
    UserKeysExactly(key);
    SettableExactly(c, key);
  }

  /** Set behaves on every valid store exactly for the settable keys. */
  lemma SettableExactly(c: Codec, key: string)
    requires Inverse(c)
    ensures SetBehaves(c, key) <==> Settable(key)
  {
    if Settable(key) {
      forall t, value, dek, indexDek | Valid(c, t)
        ensures Behaves(c, t, SetOutcome(c, t, key, value, dek, indexDek).value, key, value)
      {
        SettableBehaves(c, t, key, value, dek, indexDek);
      }
    } else if key == "" {
      EmptyIsValid(c);
      assert SetOutcome(c, EMPTY, key, [], [], []).None?;
    } else if key == INDEX_KEY {
      EmptyIsValid(c);
      IndexKeyCollides(c, EMPTY, c.encode([]), [], []);
      assert [] + [INDEX_KEY] == [INDEX_KEY] != [];
      assert c.decode(c.encode([])) != c.decode(c.encode([INDEX_KEY]));
      assert !Behaves(c, EMPTY, SetOutcome(c, EMPTY, key, c.encode([]), [], []).value, key, c.encode([]));
    } else {
      DekOfBase(key);
      if key[..|key| - 4] == INDEX_KEY {
        IndexDekIsLost(c);
      } else {
        UserDekBreaks(c, key[..|key| - 4]);
      }
    }
  }

  // ---------------------------------------------------------------------
  // The index after a failure, and what Clear then leaves
  // ---------------------------------------------------------------------

  /** Removing some keys drops this entry: it is one of them, or the data key of one. */
  predicate Dropped(keys: seq<string>, entry: string)
  {
    entry in keys || exists k :: k in keys && entry == DekOf(k)
  }

  lemma {:induction false} RemoveEachExactly(t: Tiers, keys: seq<string>, x: string)
    ensures x in RemoveEach(t, keys).keychain <==> x in t.keychain && !Dropped(keys, x)
    ensures x in RemoveEach(t, keys).files <==> x in t.files && x !in keys
  {
    if keys != [] {
      var front, last := keys[..|keys| - 1], keys[|keys| - 1];
      RemoveEachExactly(t, front, x);
      RemoveSteps(RemoveEach(t, front), last);
      assert forall k :: k in keys <==> k in front || k == last;
    }
  }

  /** What the index lists, and the index itself. */
  function Cleared(c: Codec, t: Tiers): seq<string>
    requires IndexOf(c, t).Ok?
  {
    IndexOf(c, t).value + [INDEX_KEY]
  }

  /** From any state whatever, Clear leaves nothing exactly when the index can be read and lists all that is held. */
  lemma {:induction false} ClearEmptiesExactly(c: Codec, t: Tiers)
    ensures Do(c, t, ClearOp) == EMPTY <==>
      && IndexOf(c, t).Ok?
      && (forall x | x in t.keychain :: Dropped(Cleared(c, t), x))
      && (forall x | x in t.files :: x in Cleared(c, t))
  {
    if IndexOf(c, t).Ok? {
      var keys, end := Cleared(c, t), Do(c, t, ClearOp);
      assert keys[..|keys| - 1] == IndexOf(c, t).value;
      assert end == RemoveEach(t, keys);
      forall x
        ensures x in end.keychain <==> x in t.keychain && !Dropped(keys, x)
        ensures x in end.files <==> x in t.files && x !in keys
      {
        RemoveEachExactly(t, keys, x);
      }
      if end.keychain.Keys == {} && end.files.Keys == {} {
        assert end == EMPTY;
      }
    }
  }

  /** Neither setting nor removing a user's key touches the index. */
  lemma KeysKeepIndex(c: Codec, t: Tiers, key: string, value: Bytes, dek: Bytes)
    requires UserKey(key)
    ensures IndexOf(c, AfterSet(t, key, value, dek)) == IndexOf(c, t)
    ensures IndexOf(c, AfterRemove(t, key)) == IndexOf(c, t)
  {
    IndexIsPlain();
    SetIsReadBack(t, key, value, dek, INDEX_KEY);
    RemoveIsReadBack(t, key, INDEX_KEY);
  }

  /** The coincidence of a new random data key with that of the index's file. */
  predicate SameIndexDek(t: Tiers, indexDek: Bytes)
  {
    INDEX_KEY in t.files && t.files[INDEX_KEY].dek == indexDek
  }

  /**
   What the index reads as after a Set that stopped after n writes: as before, with
   the key added, or not at all; the last exactly when a large list was being written
   over the index's file, after its new data key and before its new contents.
   */
  lemma {:induction false} StoppedSetIndex(c: Codec, t: Tiers, key: string, value: Bytes, dek: Bytes, indexDek: Bytes,
                                           n: nat)
    requires Inverse(c) && UserKey(key) && IndexOf(c, t).Ok? && !SameIndexDek(t, indexDek)
    requires n <= |FullSet(c, t, key, value, dek, indexDek)|
    ensures var t', raw := ApplyAll(t, FullSet(c, t, key, value, dek, indexDek)[..n]),
                           c.encode(IndexOf(c, t).value + [key]);
      if n > 3 && Orphans(AfterSet(t, key, value, dek), INDEX_KEY, raw, indexDek, n - 3)
      then IndexOf(c, t') == Err(Broken)
      else IndexOf(c, t') == IndexOf(c, t) || IndexOf(c, t') == Ok(IndexOf(c, t).value + [key])
  {
    var ws, own := FullSet(c, t, key, value, dek, indexDek), SetWrites(key, value, dek);
    IndexIsPlain();
    if n <= 3 {
      assert ws[..n] == own[..n];
      InterruptedSetIsLocal(t, key, value, dek, n, INDEX_KEY);
    } else {
      var t1 := AfterSet(t, key, value, dek);
      var raw := c.encode(IndexOf(c, t).value + [key]);
      KeysKeepIndex(c, t, key, value, dek);
      assert ws[..n] == own + SetWrites(INDEX_KEY, raw, indexDek)[..n - 3];
      ApplyAppend(t, own, SetWrites(INDEX_KEY, raw, indexDek)[..n - 3]);
      SetKeepsIndexFile(t, key, value, dek);
      StoppedSave(c, t1, IndexOf(c, t).value + [key], indexDek, n - 3);
    }
  }

  lemma SetKeepsIndexFile(t: Tiers, key: string, value: Bytes, dek: Bytes)
    requires UserKey(key)
    ensures var t' := AfterSet(t, key, value, dek);
      && (INDEX_KEY in t'.files <==> INDEX_KEY in t.files)
      && (INDEX_KEY in t.files ==> t'.files[INDEX_KEY] == t.files[INDEX_KEY])
  {
    SetSteps(t, key, value, dek);
  }

  /** Saving a list of keys, stopped after n writes. */
  lemma {:induction false} StoppedSave(c: Codec, t: Tiers, keys: seq<string>, indexDek: Bytes, n: nat)
    requires Inverse(c) && IndexOf(c, t).Ok? && !SameIndexDek(t, indexDek) && n <= 3
    ensures var t', raw := ApplyAll(t, SaveWrites(c, keys, indexDek)[..n]), c.encode(keys);
      if Orphans(t, INDEX_KEY, raw, indexDek, n) then IndexOf(c, t') == Err(Broken)
      else IndexOf(c, t') == IndexOf(c, t) || IndexOf(c, t') == Ok(keys)
  {
    IndexIsPlain();
    InterruptedSet(t, INDEX_KEY, c.encode(keys), indexDek, n);
  }

  lemma {:induction false} RemoveEachKeeps(t: Tiers, keys: seq<string>, k: string)
    requires Plain(k) && k !in keys && forall x | x in keys :: Plain(x)
    ensures Lookup(RemoveEach(t, keys), k) == Lookup(t, k)
  {
    if keys != [] {
      var front, last := keys[..|keys| - 1], keys[|keys| - 1];
      assert last in keys;
      RemoveEachKeeps(t, front, k);
      RemoveIsReadBack(RemoveEach(t, front), last, k);
    }
  }

  /** A new key whose Set stopped before the index is held, is not listed, and outlives Clear. */
  lemma {:induction false} UnlistedOutlivesClear(c: Codec, t: Tiers, key: string, value: Bytes, dek: Bytes)
    requires Valid(c, t) && UserKey(key) && key !in Contents(t)
    ensures var t' := AfterSet(t, key, value, dek);
      && IndexOf(c, t') == IndexOf(c, t) && key !in IndexOf(c, t).value
      && Lookup(Do(c, t', ClearOp), key) == Ok(value)
  {
    var t', keys := AfterSet(t, key, value, dek), Cleared(c, t);
    IndexIsPlain();
    SetIsReadBack(t, key, value, dek, INDEX_KEY);
    SetIsReadBack(t, key, value, dek, key);
    forall x | x in keys
      ensures Plain(x) && x != key
    {
      ContentsAt(t, x);
    }
    assert keys[..|keys| - 1] == IndexOf(c, t').value;
    RemoveEachKeeps(t', keys, key);
  }
}
