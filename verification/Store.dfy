/**
 The credential store object. Every access to a device may fail: a write that
 reports failure may or may not have happened, and a reliable device never fails.
 */
module Store {
  import opened Bytes
  import opened Tiers
  import opened StoreModel

  lemma {:induction false} StoppedWhole(t: Tiers, ws: seq<Write>)
    ensures Stopped(t, ws, ApplyAll(t, ws))
  {
    assert ws[..|ws|] == ws;
  }

  lemma StoppedNowhere(t: Tiers, ws: seq<Write>)
    ensures Stopped(t, ws, t)
  {
    assert ApplyAll(t, ws[..0]) == t;
  }

  /** Stopping in a first part is stopping in the whole. */
  lemma StoppedEarlier(t: Tiers, ws: seq<Write>, more: seq<Write>, t': Tiers)
    requires Stopped(t, ws, t')
    ensures Stopped(t, ws + more, t')
  {
    var n :| 0 <= n <= |ws| && t' == ApplyAll(t, ws[..n]);
    assert (ws + more)[..n] == ws[..n];
  }

  lemma {:induction false} StoppedLater(t: Tiers, ws: seq<Write>, t1: Tiers, more: seq<Write>, t': Tiers)
    requires t1 == ApplyAll(t, ws) && Stopped(t1, more, t')
    ensures Stopped(t, ws + more, t')
  {
    var n :| 0 <= n <= |more| && t' == ApplyAll(t1, more[..n]);
    ApplyAppend(t, ws, more[..n]);
    assert (ws + more)[..|ws| + n] == ws + more[..n];
  }

  class Store {
    const codec: Codec
    const reliable: bool
    var keychain: map<string, Bytes>
    var files: map<string, Sealed>

    constructor (codec: Codec, reliable: bool)
      ensures this.codec == codec && this.reliable == reliable && View() == EMPTY
    {
      this.codec, this.reliable := codec, reliable;
      keychain, files := map[], map[];
    }

    function View(): Tiers
      reads this
    {
      Tiers(keychain, files)
    }

    // -------------------------------------------------------------------
    // The devices
    // -------------------------------------------------------------------

    /** One write. The keychain refuses an entry over its limit. */
    method Perform(w: Write) returns (ok: bool)
      modifies this
      ensures ok ==> View() == Apply(old(View()), w)
      ensures !ok ==> View() == old(View()) || View() == Apply(old(View()), w)
      ensures reliable ==> ok == !(w.PutEntry? && |w.value| > KEYCHAIN_MAX_BYTES)
    {
      if w.PutEntry? && |w.value| > KEYCHAIN_MAX_BYTES {
        return false;
      }
      var refused, dropped: bool := *, *;
      if !reliable && refused {
        return false;
      }
      match w {
        case PutEntry(k, v) => keychain := keychain[k := v];
        case DropEntry(k) => keychain := keychain - {k};
        case PutFile(k, f) => files := files[k := f];
        case DropFile(k) => files := files - {k};
      }
      ok := reliable || !dropped;
    }

    method ReadEntry(key: string) returns (r: Result<Bytes, Error>)
      ensures r == (if key in keychain then Ok(keychain[key]) else Err(NotFound)) || (!reliable && r == Err(Broken))
    {
      var failed: bool := *;
      if !reliable && failed {
        return Err(Broken);
      }
      r := if key in keychain then Ok(keychain[key]) else Err(NotFound);
    }

    // -------------------------------------------------------------------
    // disk
    // -------------------------------------------------------------------

    method DiskGet(key: string) returns (r: Result<Bytes, Error>)
      ensures r == FileLookup(View(), key) || (!reliable && r == Err(Broken))
    {
      var failed: bool := *;
      if !reliable && failed {
        return Err(Broken);
      }
      if key !in files {
        return Err(NotFound);
      }
      var encoded := ReadEntry(DekOf(key));
      if encoded.Err? {
        return Err(encoded.error);
      }
      var dek := HexDecode(encoded.value);
      if dek.None? || dek.value != files[key].dek {
        return Err(Broken);
      }
      r := Ok(files[key].plaintext);
    }

    method DiskSet(key: string, value: Bytes, dek: Bytes) returns (ok: bool)
      requires |value| > KEYCHAIN_MAX_BYTES
      modifies this
      ensures var ws := SetWrites(key, value, dek)[..2];
        && (ok ==> View() == ApplyAll(old(View()), ws))
        && (!ok ==> Stopped(old(View()), ws, View()))
      ensures reliable && |dek| == 32 ==> ok
    {
      ghost var t, ws := View(), SetWrites(key, value, dek)[..2];
      SetSteps(t, key, value, dek);
      assert ws[..0] == [] && ws[..1] == SetWrites(key, value, dek)[..1] && ws[..2] == ws;
      HexLength(dek);
      ok := Perform(PutEntry(DekOf(key), HexEncode(dek)));
      if !ok {
        return;
      }
      ok := Perform(PutFile(key, Sealed(dek, value)));
    }

    method DiskRemove(key: string) returns (ok: bool)
      modifies this
      ensures ok ==> View() == ApplyAll(old(View()), DiskRemoveWrites(key))
      ensures !ok ==> Stopped(old(View()), DiskRemoveWrites(key), View())
      ensures reliable ==> ok
    {
      ghost var t, ws := View(), DiskRemoveWrites(key);
      TwoWrites(t, ws[0], ws[1]);
      ok := Perform(DropFile(key));
      if !ok {
        return;
      }
      ok := Perform(DropEntry(DekOf(key)));
    }

    // -------------------------------------------------------------------
    // router
    // -------------------------------------------------------------------

    method RouterGet(key: string) returns (r: Result<Bytes, Error>)
      ensures r == Lookup(View(), key) || (!reliable && r == Err(Broken))
    {
      r := ReadEntry(key);
      if r.Ok? || r.error != NotFound {
        return;
      }
      r := DiskGet(key);
    }

    method RouterSet(key: string, value: Bytes, dek: Bytes) returns (ok: bool)
      modifies this
      ensures ok ==> View() == AfterSet(old(View()), key, value, dek)
      ensures !ok ==> Stopped(old(View()), SetWrites(key, value, dek), View())
      ensures reliable && |dek| == 32 ==> ok
    {
      ghost var t, ws := View(), SetWrites(key, value, dek);
      if |value| <= KEYCHAIN_MAX_BYTES {
        var first := ws[..1];
        assert ws == first + DiskRemoveWrites(key);
        assert first[..0] == [] && first[..1] == first && ApplyAll(t, first) == Apply(t, ws[0]);
        ok := Perform(PutEntry(key, value));
        if !ok {
          StoppedEarlier(t, first, DiskRemoveWrites(key), View());
          return;
        }
        ok := DiskRemove(key);
        ApplyAppend(t, first, DiskRemoveWrites(key));
        if !ok {
          StoppedLater(t, first, ApplyAll(t, first), DiskRemoveWrites(key), View());
        }
      } else {
        var first := ws[..2];
        assert ws == first + [ws[2]];
        ok := DiskSet(key, value, dek);
        if !ok {
          StoppedEarlier(t, first, [ws[2]], View());
          return;
        }
        assert [ws[2]][..0] == [] && [ws[2]][..1] == [ws[2]];
        ghost var t1 := View();
        ok := Perform(DropEntry(key));
        ApplyAppend(t, first, [ws[2]]);
        assert ApplyAll(t1, [ws[2]]) == Apply(t1, ws[2]);
        if !ok {
          assert Stopped(t1, [ws[2]], View());
          StoppedLater(t, first, t1, [ws[2]], View());
        }
      }
    }

    /** Both tiers are tried, whatever the first one says. */
    method RouterRemove(key: string) returns (ok: bool)
      modifies this
      ensures ok ==> View() == AfterRemove(old(View()), key)
      ensures RemovedInPart(old(View()), key, View())
      ensures reliable ==> ok
    {
      ghost var t := View();
      var fromKeychain := Perform(DropEntry(key));
      ghost var t1 := View();
      var fromDisk := DiskRemove(key);
      ok := fromKeychain && fromDisk;
      RemovalParts(t, t1, View(), key);
      if ok {
        RemovalWhole(t, key);
      }
    }

    // -------------------------------------------------------------------
    // The index, and the store itself
    // -------------------------------------------------------------------

    method Index() returns (r: Result<seq<string>, Error>)
      ensures r == IndexOf(codec, View()) || (!reliable && r == Err(Broken))
    {
      var raw := RouterGet(INDEX_KEY);
      match raw {
        case Err(NotFound) => r := Ok([]);
        case Err(Broken) => r := Err(Broken);
        case Ok(bytes) =>
          var keys := codec.decode(bytes);
          r := if keys.None? then Err(Broken) else Ok(keys.value);
      }
    }

    method SaveIndexKeys(keys: seq<string>, dek: Bytes) returns (ok: bool)
      modifies this
      ensures ok ==> View() == ApplyAll(old(View()), SaveWrites(codec, keys, dek))
      ensures !ok ==> Stopped(old(View()), SaveWrites(codec, keys, dek), View())
      ensures reliable && |dek| == 32 ==> ok
    {
      ok := RouterSet(INDEX_KEY, codec.encode(keys), dek);
    }

    method AddToIndex(key: string, dek: Bytes) returns (ok: bool)
      modifies this
      ensures ok ==> View() == ApplyAll(old(View()), AddWrites(codec, old(View()), key, dek))
      ensures ok ==> IndexOf(codec, old(View())).Ok?
      ensures !ok ==> Stopped(old(View()), AddWrites(codec, old(View()), key, dek), View())
      ensures reliable && |dek| == 32 && IndexOf(codec, old(View())).Ok? ==> ok
    {
      StoppedNowhere(View(), AddWrites(codec, View(), key, dek));
      var keys := Index();
      if keys.Err? {
        return false;
      }
      if key in keys.value {
        return true;
      }
      ok := SaveIndexKeys(keys.value + [key], dek);
    }

    method DropFromIndex(key: string, dek: Bytes) returns (ok: bool)
      modifies this
      ensures ok ==> View() == ApplyAll(old(View()), DropWrites(codec, old(View()), key, dek))
      ensures ok ==> IndexOf(codec, old(View())).Ok?
      ensures !ok ==> Stopped(old(View()), DropWrites(codec, old(View()), key, dek), View())
      ensures reliable && |dek| == 32 && IndexOf(codec, old(View())).Ok? ==> ok
    {
      StoppedNowhere(View(), DropWrites(codec, View(), key, dek));
      var keys := Index();
      if keys.Err? {
        return false;
      }
      var kept := [];
      for i := 0 to |keys.value|
        invariant View() == old(View()) && kept == Without(keys.value[..i], key)
      {
        assert keys.value[..i + 1][..i] == keys.value[..i];
        if keys.value[i] != key {
          kept := kept + [keys.value[i]];
        }
      }
      assert keys.value[..|keys.value|] == keys.value;
      ok := SaveIndexKeys(kept, dek);
    }

    /** The random data keys are parameters; the second seals the index when it is large. */
    method Set(key: string, value: Bytes, dek: Bytes, indexDek: Bytes) returns (ok: bool)
      modifies this
      ensures key == "" ==> !ok && View() == old(View())
      ensures ok ==> View() == ApplyAll(old(View()), FullSet(codec, old(View()), key, value, dek, indexDek))
      ensures !ok && key != "" ==>
        Stopped(old(View()), FullSet(codec, old(View()), key, value, dek, indexDek), View())
      ensures ok && UserKey(key) ==> Lookup(View(), key) == Ok(value) && IndexOf(codec, old(View())).Ok?
      ensures !ok && UserKey(key) ==> OldNewOrError(old(View()), View(), key, value, dek)
      ensures UserKey(key) ==> forall k | UserKey(k) && k != key :: Lookup(View(), k) == Lookup(old(View()), k)
      ensures reliable && |dek| == |indexDek| == 32 && UserKey(key) && Valid(codec, old(View())) ==>
        ok && Valid(codec, View()) && Contents(View()) == Contents(old(View()))[key := value]
    {
      if key == "" {
        return false;
      }
      ghost var t, own := View(), SetWrites(key, value, dek);
      ghost var t1 := AfterSet(t, key, value, dek);
      ghost var index := AddWrites(codec, t1, key, indexDek);
      if UserKey(key) && Valid(codec, t) {
        SetRefinesMap(codec, t, key, value, dek, indexDek);
      }
      ok := RouterSet(key, value, dek);
      if !ok {
        StoppedEarlier(t, own, index, View());
      } else {
        ok := AddToIndex(key, indexDek);
        ApplyAppend(t, own, index);
        if !ok {
          StoppedLater(t, own, t1, index, View());
        }
      }
      if UserKey(key) {
        KeysKeepIndex(codec, t, key, value, dek);
        FullSetIsReadBack(codec, t, key, value, dek, indexDek);
        if !ok {
          StoppedSetIsSafe(codec, t, key, value, dek, indexDek, View());
        }
      }
    }

    method Get(key: string) returns (r: Result<Bytes, Error>)
      ensures r == Lookup(View(), key) || (!reliable && r == Err(Broken))
    {
      r := RouterGet(key);
    }

    method Remove(key: string, indexDek: Bytes) returns (ok: bool)
      modifies this
      ensures ok ==> View() == ApplyAll(old(View()), FullRemove(codec, old(View()), key, indexDek))
      ensures ok && UserKey(key) ==> IndexOf(codec, old(View())).Ok?
      ensures UserKey(key) ==> forall k | UserKey(k) && k != key :: Lookup(View(), k) == Lookup(old(View()), k)
      ensures UserKey(key) ==>
        Lookup(View(), key) in {Lookup(old(View()), key), FileLookup(old(View()), key), Err(NotFound)}
      ensures reliable && |indexDek| == 32 && UserKey(key) && Valid(codec, old(View())) ==>
        ok && Valid(codec, View()) && Contents(View()) == Contents(old(View())) - {key}
    {
      ghost var t := View();
      if UserKey(key) && Valid(codec, t) {
        RemoveRefinesMap(codec, t, key, indexDek);
      }
      ok := RouterRemove(key);
      ghost var t1 := View();
      forall k | UserKey(key) && UserKey(k)
        ensures RemovalReads(t, key, t1, k)
      {
        RemovalIsLocal(t, key, t1, k);
      }
      if ok {
        if UserKey(key) {
          KeysKeepIndex(codec, t, key, [], []);
        }
        ok := DropFromIndex(key, indexDek);
        ApplyAppend(t, RemoveWrites(key), DropWrites(codec, t1, key, indexDek));
        StoppedWhole(t1, DropWrites(codec, t1, key, indexDek));
        forall k | UserKey(k)
          ensures Lookup(View(), k) == Lookup(t1, k)
        {
          IndexWritesAreLocal(codec, t1, View(), key, indexDek, k);
        }
      }
    }

    method Keys() returns (r: Result<seq<string>, Error>)
      ensures r == IndexOf(codec, View()) || (!reliable && r == Err(Broken))
    {
      r := Index();
    }

    method Clear() returns (ok: bool)
      modifies this
      ensures ok ==> IndexOf(codec, old(View())).Ok?
      ensures ok ==> View() == AfterRemove(RemoveEach(old(View()), IndexOf(codec, old(View())).value), INDEX_KEY)
      ensures IndexOf(codec, old(View())).Err? ==> View() == old(View())
      ensures var index := IndexOf(codec, old(View()));
        index.Ok? && AllPlain(index.value) ==> ClearedInPart(old(View()), index.value + [INDEX_KEY], View())
      ensures reliable ==> (ok <==> IndexOf(codec, old(View())).Ok?) && View() == Do(codec, old(View()), ClearOp)
      ensures reliable && Valid(codec, old(View())) ==> ok && View() == EMPTY
    {
      ghost var t := View();
      var keys := Index();
      if keys.Err? {
        return false;
      }
      ok := true;
      for i := 0 to |keys.value|
        invariant ok ==> View() == RemoveEach(t, keys.value[..i])
        invariant AllPlain(keys.value) ==> ClearedInPart(t, keys.value[..i], View())
        invariant reliable ==> ok
      {
        assert keys.value[..i + 1][..i] == keys.value[..i];
        assert keys.value[..i + 1] == keys.value[..i] + [keys.value[i]];
        ghost var t1 := View();
        var removed := RouterRemove(keys.value[i]);
        ok := ok && removed;
        if AllPlain(keys.value) {
          ClearedOneMore(t, keys.value[..i], t1, keys.value[i], View());
        }
      }
      assert keys.value[..|keys.value|] == keys.value;
      ghost var t2 := View();
      var removed := RouterRemove(INDEX_KEY);
      ok := ok && removed;
      if AllPlain(keys.value) {
        IndexIsPlain();
        ClearedOneMore(t, keys.value, t2, INDEX_KEY, View());
      }
      if Valid(codec, t) {
        ClearLeavesNothing(codec, t);
      }
    }
  }

  predicate AllPlain(keys: seq<string>)
  {
    forall k | k in keys :: Plain(k)
  }

  lemma {:induction false} RemovalParts(t: Tiers, t1: Tiers, t2: Tiers, key: string)
    requires t1 == t || t1 == Apply(t, DropEntry(key))
    requires Stopped(t1, DiskRemoveWrites(key), t2) || t2 == ApplyAll(t1, DiskRemoveWrites(key))
    ensures RemovedInPart(t, key, t2)
  {
    var ws := DiskRemoveWrites(key);
    StoppedWhole(t1, ws);
    var n :| 0 <= n <= |ws| && t2 == ApplyAll(t1, ws[..n]);
    assert t2 == PartlyRemoved(t, key, t1 != t, n);
  }

  lemma RemovalWhole(t: Tiers, key: string)
    ensures ApplyAll(Apply(t, DropEntry(key)), DiskRemoveWrites(key)) == AfterRemove(t, key)
  {
    var first := [DropEntry(key)];
    assert first[..0] == [];
    ApplyAppend(t, first, DiskRemoveWrites(key));
  }

  /** How a key reads after a removal that did some of its writes. */
  predicate RemovalReads(t: Tiers, key: string, t': Tiers, k: string)
  {
    if k == key then Lookup(t', k) in {Lookup(t, k), FileLookup(t, k), Err(NotFound)}
    else Lookup(t', k) == Lookup(t, k)
  }

  lemma RemovalIsLocal(t: Tiers, key: string, t': Tiers, k: string)
    requires Plain(key) && Plain(k) && RemovedInPart(t, key, t')
    ensures RemovalReads(t, key, t', k)
  {
    var entryGone: bool, n: nat :| n <= 2 && t' == PartlyRemoved(t, key, entryGone, n);
    InterruptedRemove(t, key, entryGone, n, k);
  }

  lemma IndexWritesAreLocal(c: Codec, t: Tiers, t': Tiers, key: string, dek: Bytes, k: string)
    requires UserKey(k) && Stopped(t, DropWrites(c, t, key, dek), t')
    ensures Lookup(t', k) == Lookup(t, k)
  {
    var ws := DropWrites(c, t, key, dek);
    var n :| 0 <= n <= |ws| && t' == ApplyAll(t, ws[..n]);
    IndexIsPlain();
    if ws != [] {
      InterruptedSetIsLocal(t, INDEX_KEY, c.encode(Without(IndexOf(c, t).value, key)), dek, n, k);
    }
  }

  lemma {:induction false} HexLength(b: Bytes)
    ensures |HexEncode(b)| == 2 * |b|
  {
    if b != [] {
      HexLength(b[1..]);
    }
  }
}
