/** HSET, HSETNX, HGET, HDEL and the O(1) member count shared with SCARD and LLEN. */
module HashCommands {
  import opened Prelude
  import opened Redis
  import opened Table
  import opened Storage
  import opened Seam
  import opened Members

  lemma PairMapKeys(pairs: seq<Bytes>)
    requires |pairs| % 2 == 0
    ensures PairMap(pairs).Keys == ToSet(Evens(pairs))
  {
    if pairs != [] {
      var n := |pairs| / 2;
      PairMapKeys(pairs[..2 * n - 2]);
      assert Evens(pairs) == Evens(pairs[..2 * n - 2]) + [pairs[2 * n - 2]];
    }
  }

  /** The fields of the write, built pair by pair as the handler does. */
  method SplitHashPairs(rest: seq<Bytes>) returns (fields: seq<Bytes>, values: seq<Bytes>, hfields: map<Bytes, Bytes>)
    requires |rest| % 2 == 0
    ensures fields == Evens(rest) && values == Odds(rest) && hfields == PairMap(rest)
  {
    fields, values, hfields := [], [], map[];
    var i := 0;
    while i + 1 < |rest|
      invariant 0 <= i <= |rest| && i % 2 == 0
      invariant fields == Evens(rest[..i]) && values == Odds(rest[..i]) && hfields == PairMap(rest[..i])
    {
      fields, values := fields + [rest[i]], values + [rest[i + 1]];
      hfields := hfields[rest[i] := rest[i + 1]];
      assert rest[..i + 2][..i] == rest[..i];
      i := i + 2;
    }
    assert rest[..i] == rest;
  }

  method HandleHSet(st: Store, now: int, k: Bytes, rest: seq<Bytes>) returns (reply: Reply)
    requires Inv(st.parts) && |rest| > 0
    modifies st
    ensures Done(st, now, reply, HSet(old(View(st.parts, now)), now, k, rest))
  {
    if |rest| % 2 != 0 {
      return Error(OddArguments);
    }
    var fields, values, hfields := SplitHashPairs(rest);
    if !Fits(k, fields, values) {
      return Error(TooLarge);
    }
    PairMapKeys(rest);
    assert fields[0] in hfields;
    reply := StoreFields(st, now, k, hfields);
  }

  /** Claim the hash, write the fields and settle the count. */
  method StoreFields(st: Store, now: int, k: Bytes, hfields: map<Bytes, Bytes>) returns (reply: Reply)
    requires Inv(st.parts) && hfields != map[] && NamesFit(hfields)
    modifies st
    ensures Inv(st.parts)
    ensures var db := old(View(st.parts, now));
            if Wrong(db, k, HashT) then View(st.parts, now) == db && reply == Error(WrongType)
            else
              var h := HashAt(db, k);
              View(st.parts, now) == Keep(db, now, k, Hash(h + hfields)) && reply == Int(|h + hfields| - |h|)
  {
    Observe(st.parts, k, now);
    var ok := EnsureTypeExpiring(st, now, k, HashT);
    if !ok {
      return Error(WrongType);
    }
    GrowRefines(old(st.parts), k, now, HashT, hfields);
    ghost var claimed := st.parts;
    var added := st.HSet(k, hfields);
    Rewritten(old(st.parts), claimed, st.parts, k);
    Settle(st, k, HashT, added, old(st.parts));
    assert st.parts == old(st.parts)[k := Grown(Claimed(old(st.Row(k)), HashT, now), hfields)];
    return Int(added);
  }

  method HandleHSetNX(st: Store, now: int, k: Bytes, f: Bytes, v: Bytes) returns (reply: Reply)
    requires Inv(st.parts)
    modifies st
    ensures Done(st, now, reply, HSetNX(old(View(st.parts, now)), now, k, f, v))
  {
    if !Fits(k, [f], [v]) {
      return Error(TooLarge);
    }
    assert |[f][0]| <= MAX_MEMBER;
    reply := StoreNewField(st, now, k, f, v);
  }

  method StoreNewField(st: Store, now: int, k: Bytes, f: Bytes, v: Bytes) returns (reply: Reply)
    requires Inv(st.parts) && |f| <= MAX_MEMBER
    modifies st
    ensures Inv(st.parts)
    ensures var db := old(View(st.parts, now));
            var h := HashAt(db, k);
            if Wrong(db, k, HashT) then View(st.parts, now) == db && reply == Error(WrongType)
            else if f in h then View(st.parts, now) == db && reply == Int(0)
            else View(st.parts, now) == Keep(db, now, k, Hash(h[f := v])) && reply == Int(1)
  {
    Observe(st.parts, k, now);
    var ok := EnsureTypeExpiring(st, now, k, HashT);
    if !ok {
      return Error(WrongType);
    }
    ghost var claimed, h := st.parts, st.Row(k).members;
    assert h == HashAt(old(View(st.parts, now)), k);
    var created := st.HSetNX(k, f, v);
    if !created {
      assert st.parts == old(st.parts);
      return Int(0);
    }
    OneFieldWritten(h, f, v);
    GrowRefines(old(st.parts), k, now, HashT, map[f := v]);
    Rewritten(old(st.parts), claimed, st.parts, k);
    Settle(st, k, HashT, 1, old(st.parts));
    return Int(1);
  }

  method HandleHGet(st: Store, now: int, k: Bytes, f: Bytes) returns (reply: Reply)
    requires Inv(st.parts)
    ensures reply == HGet(View(st.parts, now), k, f)
  {
    Observe(st.parts, k, now);
    var s := LoadMetaState(st, now, k, HashT);
    if s.WrongKind? {
      return Error(WrongType);
    }
    if s.Absent? {
      return Nil;
    }
    if |f| > MAX_MEMBER {
      return Nil;
    }
    var v := st.HGet(k, f);
    return if v.None? then Nil else Bulk(v.value);
  }

  /** Delete members of a collection and settle its count: the tail of HDEL and SREM. */
  method DeleteNames(st: Store, now: int, k: Bytes, t: KeyType, names: set<Bytes>) returns (removed: int)
    requires Inv(st.parts) && LiveAs(st.Row(k), now, t) && HasMembers(t)
    modifies st
    ensures Inv(st.parts)
    ensures removed == |old(st.Row(k)).members.Keys * names|
    ensures View(st.parts, now) ==
            Keep(old(View(st.parts, now)), now, k, MembersValue(t, old(st.Row(k)).members - names))
  {
    ShrinkRefines(st.parts, k, now, t, names);
    removed := st.HDel(k, names);
    Settle(st, k, t, -removed, old(st.parts));
    assert st.parts == old(st.parts)[k := Shrunk(old(st.Row(k)), names)];
  }

  method HandleHDel(st: Store, now: int, k: Bytes, fs: seq<Bytes>) returns (reply: Reply)
    requires Inv(st.parts)
    modifies st
    ensures Done(st, now, reply, HDel(old(View(st.parts, now)), now, k, fs))
  {
    Observe(st.parts, k, now);
    var s := LoadMetaState(st, now, k, HashT);
    if s.WrongKind? {
      return Error(WrongType);
    }
    if s.Absent? {
      return Int(0);
    }
    ghost var h := st.Row(k).members;
    OnlyStorableMatter(h, fs);
    assert HashAt(View(st.parts, now), k) == h;
    assert MembersValue(HashT, h - Storable(fs)) == Hash(h - ToSet(fs));
    var removed := DeleteNames(st, now, k, HashT, Storable(fs));
    return Int(removed);
  }

  method HandleCard(st: Store, now: int, t: KeyType, k: Bytes) returns (reply: Reply)
    requires Inv(st.parts)
    ensures reply == Card(View(st.parts, now), t, k)
  {
    Observe(st.parts, k, now);
    NonEmptyKeys(st.Row(k).members);
    var s := LoadMetaState(st, now, k, t);
    if s.WrongKind? {
      return Error(WrongType);
    }
    return Int(if s.Absent? then 0 else s.meta.cnt);
  }
}
