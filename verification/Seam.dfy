/** The helpers every data command shares: type claims, count maintenance, deletion, key state. */
module Seam {
  import opened Prelude
  import opened Redis
  import opened Table
  import opened Storage

  /** What a client may rely on after a command: the invariant, the specified keyspace and reply. */
  ghost predicate Done(st: Store, now: int, reply: Reply, o: Outcome)
    reads st
  {
    Inv(st.parts) && View(st.parts, now) == o.db && reply == o.reply
  }

  /** No data items without a meta item. */
  ghost predicate Owned(p: Partition) {
    p.meta.None? ==> p == NOTHING
  }

  /** Only the partition at pk may differ. */
  ghost predicate Only(was: Parts, parts: Parts, pk: Bytes) {
    parts == was[pk := At(parts, pk)]
  }

  lemma Rewritten(was: Parts, between: Parts, parts: Parts, pk: Bytes)
    requires Only(was, between, pk) && Only(between, parts, pk)
    ensures Only(was, parts, pk)
  {
  }

  function Fresh(t: KeyType): Partition {
    NOTHING.(meta := Some(Meta(t, 0, 0)))
  }

  /** The partition after a successful type claim. */
  function Claimed(p: Partition, t: KeyType, now: int): Partition {
    if Live(p, now) then p else Fresh(t)
  }

  /** Type check and creation; an expired key's stale items are reclaimed on takeover. */
  method EnsureTypeExpiring(st: Store, now: int, pk: Bytes, t: KeyType) returns (ok: bool)
    requires Owned(st.Row(pk))
    modifies st
    ensures ok <==> !Live(old(st.Row(pk)), now) || old(st.Row(pk)).meta.value.t == t
    ensures !ok ==> st.parts == old(st.parts)
    ensures ok ==> st.parts == old(st.parts)[pk := Claimed(old(st.Row(pk)), t, now)]
  {
    ghost var p := st.Row(pk);
    var count, tookOver;
    ok, count, tookOver := st.EnsureTypeExpiring(pk, t, 0, now);
    if !ok {
      return;
    }
    if tookOver {
      var reclaimed := st.DeleteMembers(pk);
    }
    assert st.parts == old(st.parts)[pk := Claimed(p, t, now)];
  }

  function Adjusted(p: Partition, delta: int): Partition
    requires p.meta.Some?
  {
    if delta == 0 then p
    else if delta < 0 && p.meta.value.cnt + delta <= 0 then p.(meta := None)
    else p.(meta := Some(p.meta.value.(cnt := p.meta.value.cnt + delta)))
  }

  /** Apply a member-count delta; a removal that empties the collection removes its meta item. */
  method AdjustCount(st: Store, pk: Bytes, t: KeyType, delta: int)
    requires st.Row(pk).meta.Some? && st.Row(pk).meta.value.t == t
    modifies st
    ensures st.parts == old(st.parts)[pk := Adjusted(old(st.Row(pk)), delta)]
  {
    ghost var p := st.Row(pk);
    if delta == 0 {
      assert st.parts == old(st.parts)[pk := p];
      return;
    }
    var ok, count := st.EnsureType(pk, t, delta);
    if delta < 0 && count <= 0 {
      var deleted := st.DeleteMetaIfEmpty(pk);
    }
    assert st.parts == old(st.parts)[pk := Adjusted(p, delta)];
  }

  /** AdjustCount as the last step of a write that began with the table was. */
  method Settle(st: Store, pk: Bytes, t: KeyType, delta: int, ghost was: Parts)
    requires Only(was, st.parts, pk) && st.Row(pk).meta.Some? && st.Row(pk).meta.value.t == t
    modifies st
    ensures st.parts == was[pk := Adjusted(old(st.Row(pk)), delta)]
  {
    AdjustCount(st, pk, t, delta);
    Rewritten(was, old(st.parts), st.parts, pk);
  }

  /** The deleter in synchronous mode: skip a recreated key, otherwise reclaim its members. */
  method Enqueue(st: Store, pk: Bytes)
    modifies st
    ensures st.parts == if old(st.Row(pk)).meta.Some? then old(st.parts) else old(st.parts)[pk := NOTHING]
  {
    var m := st.LoadMeta(pk);
    if m.Some? {
      return;
    }
    var reclaimed := st.DeleteMembers(pk);
  }

  /** Remove the meta item and hand the partition to the deleter. */
  method DeleteMeta(st: Store, pk: Bytes) returns (existed: bool)
    requires Owned(st.Row(pk))
    modifies st
    ensures existed <==> old(st.Row(pk)).meta.Some?
    ensures st.parts == old(st.parts)[pk := NOTHING]
  {
    existed := st.DeleteMetaItem(pk);
    if existed {
      Enqueue(st, pk);
    }
    assert st.parts == old(st.parts)[pk := NOTHING];
  }

  /** Clear a collection that a plain string write is about to replace. */
  method OverwriteAnyType(st: Store, pk: Bytes)
    requires Owned(st.Row(pk))
    modifies st
    ensures var p := old(st.Row(pk));
            st.parts == if p.meta.None? || p.meta.value.t == StringT then old(st.parts)
                        else old(st.parts)[pk := NOTHING]
  {
    var m := st.LoadMeta(pk);
    if m.None? || m.value.t == StringT {
      return;
    }
    var reclaimed := st.DeleteMembers(pk);
    var existed := DeleteMeta(st, pk);
    assert st.parts == old(st.parts)[pk := NOTHING];
  }

  method KeyLive(st: Store, now: int, pk: Bytes) returns (live: bool)
    ensures live == Live(st.Row(pk), now)
  {
    var m := st.LoadMeta(pk);
    live := m.Some? && !Expired(m.value, now);
  }

  datatype KeyState = Absent | WrongKind | LiveKey(meta: Meta)

  /** Classify a key against a wanted type. */
  method LoadMetaState(st: Store, now: int, pk: Bytes, want: KeyType) returns (s: KeyState)
    ensures var p := st.Row(pk);
            s == if !Live(p, now) then Absent else if p.meta.value.t != want then WrongKind else LiveKey(p.meta.value)
  {
    var m := st.LoadMeta(pk);
    if m.None? || Expired(m.value, now) {
      return Absent;
    }
    s := if m.value.t != want then WrongKind else LiveKey(m.value);
  }
}
