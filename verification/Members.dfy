/** Hash fields and set members share one part of the sort-key space: writing and deleting them. */
module Members {
  import opened Prelude
  import opened Redis
  import opened Table
  import opened Seam

  lemma OneFieldWritten(h: map<Bytes, Bytes>, f: Bytes, v: Bytes)
    ensures h[f := v] == h + map[f := v]
    ensures |map[f := v].Keys - h.Keys| == if f in h then 0 else 1
  {
    assert map[f := v].Keys - h.Keys == if f in h then {} else {f};
  }

  lemma DifferenceSize(a: map<Bytes, Bytes>, s: set<Bytes>)
    ensures |a - s| == |a| - |a.Keys * s|
    ensures (a - s).Keys == a.Keys - s
  {
  }

  lemma UnionFits(a: map<Bytes, Bytes>, b: map<Bytes, Bytes>)
    requires NamesFit(a) && NamesFit(b) && b != map[]
    ensures NamesFit(a + b) && |a + b| >= 1
  {
  }

  predicate HasMembers(t: KeyType) {
    t == HashT || t == SetT
  }

  function MembersValue(t: KeyType, members: map<Bytes, Bytes>): Value {
    if t == HashT then Hash(members) else Redis.Set(members.Keys)
  }

  /** A member write followed by adding the number of new members to the count. */
  function Grown(p: Partition, fields: map<Bytes, Bytes>): Partition
    requires p.meta.Some?
  {
    Adjusted(p.(members := p.members + fields), |fields.Keys - p.members.Keys|)
  }

  lemma GrownIsSound(p: Partition, t: KeyType, fields: map<Bytes, Bytes>)
    requires HasMembers(t) && fields != map[] && NamesFit(fields)
    requires p == Fresh(t) || (PartOk(p) && p.meta.Some? && p.meta.value.t == t)
    ensures var q := Grown(p, fields);
            && PartOk(q) && q.meta.Some? && q.meta.value.t == t && q.meta.value.exp == p.meta.value.exp
            && q.members == p.members + fields
  {
    UnionSize(p.members, fields);
    UnionFits(p.members, fields);
    var n := |fields.Keys - p.members.Keys|;
    AddedToCount(p.(members := p.members + fields), n);
    assert p.meta.value.cnt == |p.members| && p.value.None? && p.elems == [];
    hide NamesFit, Adjusted;
  }

  lemma AddedToCount(p: Partition, delta: int)
    requires p.meta.Some? && delta >= 0
    ensures Adjusted(p, delta) == p.(meta := Some(p.meta.value.(cnt := p.meta.value.cnt + delta)))
  {
  }

  /** Claim the key, write members, settle the count: the keyspace gains exactly those members. */
  lemma GrowRefines(parts: Parts, k: Bytes, now: int, t: KeyType, fields: map<Bytes, Bytes>)
    requires Inv(parts) && HasMembers(t) && fields != map[] && NamesFit(fields)
    requires Live(At(parts, k), now) ==> At(parts, k).meta.value.t == t
    ensures var p := Claimed(At(parts, k), t, now);
            var after := parts[k := Grown(p, fields)];
            && Inv(after)
            && View(after, now) == Keep(View(parts, now), now, k, MembersValue(t, p.members + fields))
            && |fields.Keys - p.members.Keys| == |p.members + fields| - |p.members|
  {
    var p := Claimed(At(parts, k), t, now);
    Observe(parts, k, now);
    GrownIsSound(p, t, fields);
    UnionSize(p.members, fields);
    Commit(parts, k, Grown(p, fields), now);
  }

  /** Deleting members followed by subtracting the number removed from the count. */
  function Shrunk(p: Partition, names: set<Bytes>): Partition
    requires p.meta.Some?
  {
    Adjusted(p.(members := p.members - names), -|p.members.Keys * names|)
  }

  lemma ShrunkIsSound(p: Partition, names: set<Bytes>)
    requires PartOk(p) && p.meta.Some? && HasMembers(p.meta.value.t)
    ensures var q := Shrunk(p, names);
            && PartOk(q)
            && (p.members - names == map[] ==> q == NOTHING)
            && (p.members - names != map[] ==>
                  q.meta.Some? && q.meta.value.t == p.meta.value.t && q.meta.value.exp == p.meta.value.exp
                  && q.members == p.members - names)
  {
  }

  /** The names small enough to be stored, which are the only ones that can be present. */
  function Storable(names: seq<Bytes>): set<Bytes> {
    set x | x in names && |x| <= MAX_MEMBER
  }

  lemma OnlyStorableMatter(members: map<Bytes, Bytes>, names: seq<Bytes>)
    requires NamesFit(members)
    ensures members - Storable(names) == members - ToSet(names)
    ensures members.Keys * Storable(names) == members.Keys * ToSet(names)
  {
  }

  /** Delete members, settle the count: the keyspace loses exactly those, and the key if none is left. */
  lemma ShrinkRefines(parts: Parts, k: Bytes, now: int, t: KeyType, names: set<Bytes>)
    requires Inv(parts) && HasMembers(t) && LiveAs(At(parts, k), now, t)
    ensures var after := parts[k := Shrunk(At(parts, k), names)];
            && Inv(after)
            && View(after, now) == Keep(View(parts, now), now, k, MembersValue(t, At(parts, k).members - names))
  {
    var p := At(parts, k);
    Observe(parts, k, now);
    ShrunkIsSound(p, names);
    NonEmptyKeys(p.members - names);
    Commit(parts, k, Shrunk(p, names), now);
  }
}
