/** From To, Cc and RCPT TO to the keys a message is sealed under. */
module Recipients {
  import opened Bytes
  import Base64
  import Attachments

  // ---------------------------------------------------------------------
  // Addresses, compared without regard to ASCII case
  // ---------------------------------------------------------------------

  function LowerChar(c: char): char
  {
    if 'A' <= c <= 'Z' then (c as int + 32) as char else c
  }

  function Lower(s: string): string
  {
    seq(|s|, i requires 0 <= i < |s| => LowerChar(s[i]))
  }

  /** Two letters that differ in case alone. */
  predicate CasesOfOne(x: char, y: char)
  {
    ('A' <= x <= 'Z' && y as int == x as int + 32) || ('A' <= y <= 'Z' && x as int == y as int + 32)
  }

  /** Addresses are alike in lower case exactly when they differ at most in the case of their letters. */
  lemma {:induction false} LowerExactly(a: string, b: string)
    ensures Lower(a) == Lower(b) <==>
      |a| == |b| && forall i | 0 <= i < |a| :: a[i] == b[i] || CasesOfOne(a[i], b[i])
  {
    if Lower(a) == Lower(b) {
      assert |Lower(a)| == |a| && |Lower(b)| == |b|;
      forall i | 0 <= i < |a|
        ensures a[i] == b[i] || CasesOfOne(a[i], b[i])
      {
        assert LowerChar(a[i]) == Lower(a)[i] == Lower(b)[i] == LowerChar(b[i]);
      }
    }
    if |a| == |b| && forall i | 0 <= i < |a| :: a[i] == b[i] || CasesOfOne(a[i], b[i]) {
      forall i | 0 <= i < |a|
        ensures Lower(a)[i] == Lower(b)[i]
      {
      }
    }
  }

  predicate HasKey(list: seq<string>, key: string)
  {
    exists i :: 0 <= i < |list| && Lower(list[i]) == key
  }

  /** Some address of the list is the same as a, whatever the case. */
  predicate Has(list: seq<string>, a: string)
  {
    HasKey(list, Lower(a))
  }

  function BccFrom(to: seq<string>, cc: seq<string>, envelope: seq<string>): seq<string>
  {
    if envelope == [] then []
    else
      var last := envelope[|envelope| - 1];
      var front := BccFrom(to, cc, envelope[..|envelope| - 1]);
      if Has(to + cc, last) then front else front + [last]
  }

  /** The first spelling of each address, in order; empty addresses are dropped. */
  function Unique(list: seq<string>): seq<string>
  {
    if list == [] then []
    else
      var last := list[|list| - 1];
      var front := Unique(list[..|list| - 1]);
      if last == "" || Has(front, last) then front else front + [last]
  }

  /** The addresses a message is sealed for. */
  function Addresses(to: seq<string>, cc: seq<string>, envelope: seq<string>): seq<string>
  {
    Unique(to + cc + BccFrom(to, cc, envelope))
  }

  method ComputeBcc(to: seq<string>, cc: seq<string>, envelope: seq<string>) returns (bcc: seq<string>)
    ensures bcc == BccFrom(to, cc, envelope)
  {
    var addressed: set<string> := {};
    for i := 0 to |to + cc|
      invariant forall k :: k in addressed <==> HasKey((to + cc)[..i], k)
    {
      assert (to + cc)[..i + 1] == (to + cc)[..i] + [(to + cc)[i]];
      KeysGrow((to + cc)[..i], (to + cc)[i]);
      addressed := addressed + {Lower((to + cc)[i])};
    }
    assert (to + cc)[..|to + cc|] == to + cc;
    bcc := [];
    for i := 0 to |envelope|
      invariant bcc == BccFrom(to, cc, envelope[..i])
    {
      assert envelope[..i + 1][..i] == envelope[..i];
      if Lower(envelope[i]) !in addressed {
        bcc := bcc + [envelope[i]];
      }
    }
    assert envelope[..|envelope|] == envelope;
  }

  method UniqueAddresses(list: seq<string>) returns (addresses: seq<string>)
    ensures addresses == Unique(list)
  {
    var seen: set<string> := {};
    addresses := [];
    for i := 0 to |list|
      invariant addresses == Unique(list[..i])
      invariant forall k :: k in seen <==> HasKey(addresses, k)
    {
      KeysGrow(addresses, list[i]);
      assert list[..i + 1][..i] == list[..i];
      var key := Lower(list[i]);
      assert key == "" <==> list[i] == "";
      if key != "" && key !in seen {
        seen := seen + {key};
        addresses := addresses + [list[i]];
      }
    }
    assert list[..|list|] == list;
  }

  ghost predicate DistinctFold(list: seq<string>)
  {
    forall i, j | 0 <= i < j < |list| :: Lower(list[i]) != Lower(list[j])
  }

  lemma {:induction false} UniqueExactly(list: seq<string>, a: string)
    ensures DistinctFold(Unique(list)) && "" !in Unique(list)
    ensures a != "" ==> (Has(Unique(list), a) <==> Has(list, a))
  {
    if list != [] {
      var n := |list| - 1;
      UniqueExactly(list[..n], a);
      UniqueExactly(list[..n], list[n]);
      HasSplit(list[..n], list[n], a);
      assert list[..n] + [list[n]] == list;
      HasSplit(Unique(list[..n]), list[n], a);
      assert a != "" ==> Lower(a) != Lower("");
      SameHas(Unique(list[..n]), list[n], a);
    }
  }

  /** list[i] is the first spelling of its address, and not empty. */
  predicate FirstSpelling(list: seq<string>, i: nat)
    requires i < |list|
  {
    list[i] != "" && forall j | 0 <= j < i :: Lower(list[j]) != Lower(list[i])
  }

  /** Of each address the first spelling is kept, in order. */
  lemma {:induction false} UniqueKeepsFirst(front: seq<string>, a: string)
    ensures Unique([]) == []
    ensures Unique(front + [a]) == Unique(front) + if FirstSpelling(front + [a], |front|) then [a] else []
  {
    assert (front + [a])[..|front|] == front;
    UniqueExactly(front, a);
    if Has(front, a) {
      var i :| 0 <= i < |front| && Lower(front[i]) == Lower(a);
      assert (front + [a])[i] == front[i];
    } else {
      forall j | 0 <= j < |front|
        ensures Lower((front + [a])[j]) != Lower(a)
      {
        assert Lower(front[j]) != Lower(a);
      }
    }
  }

  lemma KeySplit(front: seq<string>, last: string, key: string)
    ensures HasKey(front + [last], key) <==> HasKey(front, key) || Lower(last) == key
  {
    var list := front + [last];
    if HasKey(front, key) {
      var i :| 0 <= i < |front| && Lower(front[i]) == key;
      assert list[i] == front[i];
    }
    assert list[|front|] == last;
    if HasKey(list, key) {
      var i :| 0 <= i < |list| && Lower(list[i]) == key;
      if i < |front| {
        assert front[i] == list[i];
      }
    }
  }

  lemma KeysGrow(front: seq<string>, last: string)
    ensures forall key :: HasKey(front + [last], key) <==> HasKey(front, key) || Lower(last) == key
  {
    forall key
      ensures HasKey(front + [last], key) <==> HasKey(front, key) || Lower(last) == key
    {
      KeySplit(front, last, key);
    }
  }

  lemma HasSplit(front: seq<string>, last: string, a: string)
    ensures Has(front + [last], a) <==> Has(front, a) || Lower(last) == Lower(a)
  {
    KeySplit(front, last, Lower(a));
  }

  lemma SameHas(list: seq<string>, a: string, b: string)
    ensures Lower(a) == Lower(b) ==> (Has(list, a) <==> Has(list, b))
  {
  }

  lemma {:induction false} BccExactly(to: seq<string>, cc: seq<string>, envelope: seq<string>, a: string)
    ensures Has(BccFrom(to, cc, envelope), a) <==> Has(envelope, a) && !Has(to + cc, a)
  {
    if envelope != [] {
      var n := |envelope| - 1;
      BccExactly(to, cc, envelope[..n], a);
      assert envelope[..n] + [envelope[n]] == envelope;
      HasSplit(envelope[..n], envelope[n], a);
      HasSplit(BccFrom(to, cc, envelope[..n]), envelope[n], a);
      SameHas(to + cc, envelope[n], a);
    }
  }

  lemma {:induction false} HasAppend(x: seq<string>, y: seq<string>, a: string)
    ensures Has(x + y, a) <==> Has(x, a) || Has(y, a)
  {
    if y == [] {
      assert x + y == x;
    } else {
      var n := |y| - 1;
      HasAppend(x, y[..n], a);
      assert x + y == (x + y[..n]) + [y[n]] && y == y[..n] + [y[n]];
      HasSplit(x + y[..n], y[n], a);
      HasSplit(y[..n], y[n], a);
    }
  }

  /** To comes before Cc, and both before the rest of the envelope. */
  lemma {:induction false} AddressesInOrder(to: seq<string>, cc: seq<string>, envelope: seq<string>)
    ensures Unique(to) <= Unique(to + cc) <= Addresses(to, cc, envelope)
  {
    UniqueGrows(to, cc);
    UniqueGrows(to + cc, BccFrom(to, cc, envelope));
  }

  lemma {:induction false} UniqueGrows(front: seq<string>, more: seq<string>)
    ensures Unique(front) <= Unique(front + more)
  {
    if more == [] {
      assert front + more == front;
    } else {
      var n := |more| - 1;
      UniqueGrows(front, more[..n]);
      assert (front + more)[..|front| + n] == front + more[..n];
    }
  }

  /** Of the envelope's recipients those stay, in order, whom neither To nor Cc names. */
  lemma {:induction false} BccKeepsOrder(to: seq<string>, cc: seq<string>, front: seq<string>, a: string)
    ensures BccFrom(to, cc, []) == []
    ensures BccFrom(to, cc, front + [a]) == BccFrom(to, cc, front) + if Has(to, a) || Has(cc, a) then [] else [a]
  {
    assert (front + [a])[..|front|] == front;
    HasAppend(to, cc, a);
  }

  /** Everyone addressed anywhere, and nobody else, is sealed for exactly once. */
  lemma EveryoneOnce(to: seq<string>, cc: seq<string>, envelope: seq<string>, a: string)
    ensures DistinctFold(Addresses(to, cc, envelope))
    ensures a != "" ==>
      (Has(Addresses(to, cc, envelope), a) <==> Has(to, a) || Has(cc, a) || Has(envelope, a))
  {
    var bcc := BccFrom(to, cc, envelope);
    UniqueExactly(to + cc + bcc, a);
    HasAppend(to + cc, bcc, a);
    HasAppend(to, cc, a);
    BccExactly(to, cc, envelope, a);
  }

  // ---------------------------------------------------------------------
  // Keys
  // ---------------------------------------------------------------------

  /** A line of the key directory's answer; no key and an empty one are alike. */
  datatype Listing = Listing(address: string, publicKey: Bytes)

  /** Every listed key decoded, under the lower-case address; None when one does not decode. */
  function KeysOf(listings: seq<Listing>): Option<map<string, Bytes>>
  {
    if listings == [] then Some(map[])
    else
      var last := listings[|listings| - 1];
      match KeysOf(listings[..|listings| - 1])
      case None => None
      case Some(keys) =>
        if last.publicKey == [] then Some(keys)
        else
          match Base64.Decode(Attachments.Strip(last.publicKey))
          case None => None
          case Some(key) => Some(keys[Lower(last.address) := key])
  }

  /** A listing gives the address k, in lower case, a key. */
  predicate Gives(l: Listing, k: string)
  {
    l.publicKey != [] && Lower(l.address) == k
  }

  function DecodedKey(l: Listing): Option<Bytes>
  {
    Base64.Decode(Attachments.Strip(l.publicKey))
  }

  /** The last listing that gives k a key. */
  ghost predicate LastGives(listings: seq<Listing>, k: string, i: nat)
  {
    && i < |listings| && Gives(listings[i], k)
    && (forall j | i < j < |listings| :: !Gives(listings[j], k))
  }

  ghost predicate GivenIn(listings: seq<Listing>, k: string)
  {
    exists l :: l in listings && Gives(l, k)
  }

  /** The lookup fails exactly when some listed key does not decode. */
  lemma {:induction false} LookupFailsExactly(listings: seq<Listing>)
    ensures KeysOf(listings).None? <==> exists l :: l in listings && l.publicKey != [] && DecodedKey(l).None?
  {
    if listings != [] {
      var n := |listings| - 1;
      LookupFailsExactly(listings[..n]);
      assert forall l :: l in listings <==> l in listings[..n] || l == listings[n];
    }
  }

  /** An address has a key exactly when some listing gives it one. */
  lemma {:induction false} KeysExactly(listings: seq<Listing>, k: string)
    requires KeysOf(listings).Some?
    ensures k in KeysOf(listings).value <==> GivenIn(listings, k)
  {
    if listings != [] {
      var n := |listings| - 1;
      KeysExactly(listings[..n], k);
      if l :| l in listings && Gives(l, k) {
        assert l in listings[..n] || l == listings[n];
      }
      if l :| l in listings[..n] && Gives(l, k) {
        assert l in listings;
      }
      assert listings[n] in listings;
    }
  }

  /** And it is the last one given. */
  lemma {:induction false} LastKeyCounts(listings: seq<Listing>, k: string) returns (i: nat)
    requires KeysOf(listings).Some? && k in KeysOf(listings).value
    ensures LastGives(listings, k, i) && DecodedKey(listings[i]) == Some(KeysOf(listings).value[k])
  {
    var n := |listings| - 1;
    if Gives(listings[n], k) {
      i := n;
    } else {
      i := LastKeyCounts(listings[..n], k);
      forall j | i < j < |listings|
        ensures !Gives(listings[j], k)
      {
        assert j < n ==> listings[..n][j] == listings[j];
      }
    }
  }

  method LookupKeys(listings: seq<Listing>) returns (keys: Option<map<string, Bytes>>)
    ensures keys == KeysOf(listings)
  {
    var found: map<string, Bytes> := map[];
    for i := 0 to |listings|
      invariant KeysOf(listings[..i]) == Some(found)
    {
      assert listings[..i + 1][..i] == listings[..i];
      if listings[i].publicKey != [] {
        var decoded := Base64.Decode(Attachments.Strip(listings[i].publicKey));
        if decoded.None? {
          KeysFail(listings, i + 1);
          return None;
        }
        found := found[Lower(listings[i].address) := decoded.value];
      }
    }
    assert listings[..|listings|] == listings;
    keys := Some(found);
  }

  lemma {:induction false} KeysFail(listings: seq<Listing>, i: nat)
    requires i <= |listings| && KeysOf(listings[..i]).None?
    ensures KeysOf(listings).None?
    decreases |listings| - i
  {
    if i < |listings| {
      assert listings[..i + 1][..i] == listings[..i];
      KeysFail(listings, i + 1);
    } else {
      assert listings[..i] == listings;
    }
  }

  datatype Recipient = Recipient(address: string, publicKey: Bytes)

  datatype Mode = INTERNXT | EXTERNAL

  /** The key an address is sealed under: its own, else the server's. */
  function KeyFor(keys: map<string, Bytes>, serverKey: Bytes, address: string): Bytes
  {
    if Lower(address) in keys then keys[Lower(address)] else serverKey
  }

  /** An address is sealed under the last key the directory listed for it; under the server's when it listed none. */
  lemma {:induction false} KeyForExactly(listings: seq<Listing>, serverKey: Bytes, a: string)
    requires KeysOf(listings).Some?
    ensures forall i: nat | LastGives(listings, Lower(a), i) ::
      DecodedKey(listings[i]) == Some(KeyFor(KeysOf(listings).value, serverKey, a))
    ensures !GivenIn(listings, Lower(a)) ==> KeyFor(KeysOf(listings).value, serverKey, a) == serverKey
  {
    KeysExactly(listings, Lower(a));
    forall i: nat | LastGives(listings, Lower(a), i)
      ensures DecodedKey(listings[i]) == Some(KeyFor(KeysOf(listings).value, serverKey, a))
    {
      assert listings[i] in listings;
      var j := LastKeyCounts(listings, Lower(a));
      assert i == j;
    }
  }

  predicate AllHaveKeys(keys: map<string, Bytes>, addresses: seq<string>)
  {
    forall i | 0 <= i < |addresses| :: Lower(addresses[i]) in keys
  }

  /** Every address has its own key exactly when some listing gives it one, in any case. */
  lemma {:induction false} AllHaveKeysExactly(listings: seq<Listing>, addresses: seq<string>)
    requires KeysOf(listings).Some?
    ensures AllHaveKeys(KeysOf(listings).value, addresses)
      <==> forall i | 0 <= i < |addresses| :: GivenIn(listings, Lower(addresses[i]))
  {
    forall i | 0 <= i < |addresses|
      ensures Lower(addresses[i]) in KeysOf(listings).value <==> GivenIn(listings, Lower(addresses[i]))
    {
      KeysExactly(listings, Lower(addresses[i]));
    }
  }

  /** Pairs each address with its key; None when one has no key and there is no server key. */
  method SealFor(addresses: seq<string>, keys: map<string, Bytes>, serverKey: Bytes)
    returns (result: Option<(seq<Recipient>, Mode)>)
    ensures result.None? <==> !AllHaveKeys(keys, addresses) && serverKey == []
    ensures result.Some? ==>
      && |result.value.0| == |addresses|
      && (forall i | 0 <= i < |addresses| ::
           result.value.0[i] == Recipient(addresses[i], KeyFor(keys, serverKey, addresses[i])))
      && (result.value.1 == INTERNXT <==> AllHaveKeys(keys, addresses))
  {
    var recipients: seq<Recipient> := [];
    var allInternxt := true;
    for i := 0 to |addresses|
      invariant |recipients| == i
      invariant forall k | 0 <= k < i ::
        recipients[k] == Recipient(addresses[k], KeyFor(keys, serverKey, addresses[k]))
      invariant allInternxt <==> forall k | 0 <= k < i :: Lower(addresses[k]) in keys
      invariant allInternxt || serverKey != []
    {
      var key := Lower(addresses[i]);
      if key in keys {
        recipients := recipients + [Recipient(addresses[i], keys[key])];
      } else {
        if |serverKey| == 0 {
          return None;
        }
        recipients := recipients + [Recipient(addresses[i], serverKey)];
        allInternxt := false;
      }
    }
    result := Some((recipients, if allInternxt then INTERNXT else EXTERNAL));
  }
}
