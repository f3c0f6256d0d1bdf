/** The storage seam: the primitives' contracts, each on one partition. */
module Storage {
  import opened Prelude
  import opened Redis
  import opened Table

  class Store {
    var parts: Parts

    constructor ()
      ensures parts == map[] && Inv(parts)
    {
      parts := map[];
    }

    function Row(pk: Bytes): Partition
      reads this
    {
      At(parts, pk)
    }

    // ----- Meta items ---------------------------------------------------------------------------

    /** One conditional write: create or verify the type and add to the count. */
    method EnsureType(pk: Bytes, t: KeyType, delta: int) returns (ok: bool, count: int)
      modifies this
      ensures ok <==> (old(Row(pk)).meta.Some? ==> old(Row(pk)).meta.value.t == t)
      ensures !ok ==> parts == old(parts)
      ensures ok ==> count == Cnt(old(Row(pk))) + delta
      ensures ok ==> parts == old(parts)[pk := old(Row(pk)).(meta := Some(Meta(t, Exp(old(Row(pk))), count)))]
    {
      var p := Row(pk);
      count := Cnt(p) + delta;
      ok := p.meta.None? || p.meta.value.t == t;
      if ok {
        parts := parts[pk := p.(meta := Some(Meta(t, Exp(p), count)))];
      }
    }

    /** EnsureType for which an expired key is absent: it is taken over with a fresh meta item. */
    method EnsureTypeExpiring(pk: Bytes, t: KeyType, delta: int, now: int)
      returns (ok: bool, count: int, tookOver: bool)
      modifies this
      ensures ok <==> !Live(old(Row(pk)), now) || old(Row(pk)).meta.value.t == t
      ensures tookOver <==> old(Row(pk)).meta.Some? && !Live(old(Row(pk)), now)
      ensures !ok ==> parts == old(parts)
      ensures ok ==> count == if Live(old(Row(pk)), now) then Cnt(old(Row(pk))) + delta else delta
      ensures ok ==>
                var exp := if Live(old(Row(pk)), now) then Exp(old(Row(pk))) else 0;
                parts == old(parts)[pk := old(Row(pk)).(meta := Some(Meta(t, exp, count)))]
    {
      var p := Row(pk);
      tookOver := p.meta.Some? && Expired(p.meta.value, now);
      if p.meta.None? || tookOver {
        ok, count := true, delta;
        parts := parts[pk := p.(meta := Some(Meta(t, 0, delta)))];
      } else {
        ok, count := EnsureType(pk, t, delta);
      }
    }

    /** Claim a key that is absent or expired; a live key of any type is refused. */
    method CreateTypeIfAbsent(pk: Bytes, t: KeyType, delta: int, now: int) returns (created: bool)
      modifies this
      ensures created <==> !Live(old(Row(pk)), now)
      ensures !created ==> parts == old(parts)
      ensures created ==> parts == old(parts)[pk := old(Row(pk)).(meta := Some(Meta(t, 0, delta)))]
    {
      var p := Row(pk);
      created := !Live(p, now);
      if created {
        parts := parts[pk := p.(meta := Some(Meta(t, 0, delta)))];
      }
    }

    method LoadMeta(pk: Bytes) returns (m: Option<Meta>)
      ensures m == Row(pk).meta
    {
      m := Row(pk).meta;
    }

    method SetExpire(pk: Bytes, exp: int) returns (found: bool)
      modifies this
      ensures found <==> old(Row(pk)).meta.Some?
      ensures !found ==> parts == old(parts)
      ensures found ==> parts == old(parts)[pk := old(Row(pk)).(meta := Some(old(Row(pk)).meta.value.(exp := exp)))]
    {
      var p := Row(pk);
      found := p.meta.Some?;
      if found {
        parts := parts[pk := p.(meta := Some(p.meta.value.(exp := exp)))];
      }
    }

    method Persist(pk: Bytes) returns (found: bool)
      modifies this
      ensures found <==> old(Row(pk)).meta.Some?
      ensures !found ==> parts == old(parts)
      ensures found ==> parts == old(parts)[pk := old(Row(pk)).(meta := Some(old(Row(pk)).meta.value.(exp := 0)))]
    {
      found := SetExpire(pk, 0);
    }

    method DeleteMetaItem(pk: Bytes) returns (existed: bool)
      modifies this
      ensures existed <==> old(Row(pk)).meta.Some?
      ensures parts == old(parts)[pk := old(Row(pk)).(meta := None)]
    {
      var p := Row(pk);
      existed := p.meta.Some?;
      parts := parts[pk := p.(meta := None)];
    }

    /** Remove the meta item unless a count above zero contradicts emptiness. */
    method DeleteMetaIfEmpty(pk: Bytes) returns (deleted: bool)
      modifies this
      ensures deleted <==> old(Row(pk)).meta.Some? && Cnt(old(Row(pk))) <= 0
      ensures !deleted ==> parts == old(parts)
      ensures deleted ==> parts == old(parts)[pk := old(Row(pk)).(meta := None)]
    {
      var p := Row(pk);
      deleted := p.meta.Some? && p.meta.value.cnt <= 0;
      if deleted {
        parts := parts[pk := p.(meta := None)];
      }
    }

    /** Reclaim every item of the partition except the meta item; the answer counts them. */
    method DeleteMembers(pk: Bytes) returns (deleted: nat)
      modifies this
      ensures deleted == DataItems(old(Row(pk)))
      ensures parts == old(parts)[pk := NOTHING.(meta := old(Row(pk)).meta)]
    {
      var p := Row(pk);
      deleted := |p.members| + |p.elems| + (if p.value.Some? then 1 else 0);
      parts := parts[pk := NOTHING.(meta := p.meta)];
    }

    // ----- The string value item ----------------------------------------------------------------

    method GetString(pk: Bytes) returns (v: Option<Bytes>)
      ensures v == Row(pk).value
    {
      v := Row(pk).value;
    }

    method SetString(pk: Bytes, v: Bytes)
      modifies this
      ensures parts == old(parts)[pk := old(Row(pk)).(value := Some(v))]
    {
      parts := parts[pk := Row(pk).(value := Some(v))];
    }

    method GetSetString(pk: Bytes, v: Bytes) returns (was: Option<Bytes>)
      modifies this
      ensures was == old(Row(pk)).value
      ensures parts == old(parts)[pk := old(Row(pk)).(value := Some(v))]
    {
      was := GetString(pk);
      SetString(pk, v);
    }

    /** Compare-and-set on the value item as the caller last read it. */
    method SetStringIfEquals(pk: Bytes, v: Bytes, was: Option<Bytes>) returns (ok: bool)
      modifies this
      ensures ok <==> old(Row(pk)).value == was
      ensures !ok ==> parts == old(parts)
      ensures ok ==> parts == old(parts)[pk := old(Row(pk)).(value := Some(v))]
    {
      ok := Row(pk).value == was;
      if ok {
        SetString(pk, v);
      }
    }

    // ----- Hash fields and set members ----------------------------------------------------------

    /** Write fields; the answer counts those that did not exist. */
    method HSet(pk: Bytes, fields: map<Bytes, Bytes>) returns (added: int)
      modifies this
      ensures added == |fields.Keys - old(Row(pk)).members.Keys|
      ensures parts == old(parts)[pk := old(Row(pk)).(members := old(Row(pk)).members + fields)]
    {
      var p := Row(pk);
      added := |fields.Keys - p.members.Keys|;
      parts := parts[pk := p.(members := p.members + fields)];
    }

    method HSetNX(pk: Bytes, f: Bytes, v: Bytes) returns (created: bool)
      modifies this
      ensures created <==> f !in old(Row(pk)).members
      ensures !created ==> parts == old(parts)
      ensures created ==> parts == old(parts)[pk := old(Row(pk)).(members := old(Row(pk)).members[f := v])]
    {
      var p := Row(pk);
      created := f !in p.members;
      if created {
        parts := parts[pk := p.(members := p.members[f := v])];
      }
    }

    method HGet(pk: Bytes, f: Bytes) returns (v: Option<Bytes>)
      ensures v == (if f in Row(pk).members then Some(Row(pk).members[f]) else None)
    {
      v := if f in Row(pk).members then Some(Row(pk).members[f]) else None;
    }

    /** Compare-and-set on one field as the caller last read it. */
    method HSetIfEquals(pk: Bytes, f: Bytes, v: Bytes, was: Option<Bytes>) returns (ok: bool)
      modifies this
      ensures ok <==> was == (if f in old(Row(pk)).members then Some(old(Row(pk)).members[f]) else None)
      ensures !ok ==> parts == old(parts)
      ensures ok ==> parts == old(parts)[pk := old(Row(pk)).(members := old(Row(pk)).members[f := v])]
    {
      var p := Row(pk);
      ok := was == if f in p.members then Some(p.members[f]) else None;
      if ok {
        parts := parts[pk := p.(members := p.members[f := v])];
      }
    }

    /** Delete items by name; the answer counts those that existed. */
    method HDel(pk: Bytes, names: set<Bytes>) returns (removed: int)
      modifies this
      ensures removed == |old(Row(pk)).members.Keys * names|
      ensures parts == old(parts)[pk := old(Row(pk)).(members := old(Row(pk)).members - names)]
    {
      var p := Row(pk);
      removed := |p.members.Keys * names|;
      parts := parts[pk := p.(members := p.members - names)];
    }

    /** Add members: items without a value; the answer counts the new ones. */
    method SAdd(pk: Bytes, names: set<Bytes>) returns (added: int)
      modifies this
      ensures added == |names - old(Row(pk)).members.Keys|
      ensures parts == old(parts)[pk := old(Row(pk)).(members := old(Row(pk)).members + Bare(names))]
    {
      var p := Row(pk);
      added := |names - p.members.Keys|;
      parts := parts[pk := p.(members := p.members + Bare(names))];
    }

    method SRem(pk: Bytes, names: set<Bytes>) returns (removed: int)
      modifies this
      ensures removed == |old(Row(pk)).members.Keys * names|
      ensures parts == old(parts)[pk := old(Row(pk)).(members := old(Row(pk)).members - names)]
    {
      removed := HDel(pk, names);
    }

    method SIsMember(pk: Bytes, m: Bytes) returns (found: bool)
      ensures found <==> m in Row(pk).members
    {
      found := m in Row(pk).members;
    }

    method SMembers(pk: Bytes) returns (ms: set<Bytes>)
      ensures ms == Row(pk).members.Keys
    {
      ms := Row(pk).members.Keys;
    }

    // ----- List elements ------------------------------------------------------------------------

    /** LPUSH leaves the last argument at the head; RPUSH appends. */
    method LRPush(left: bool, pk: Bytes, es: seq<Bytes>) returns (pushed: int)
      modifies this
      ensures pushed == |es|
      ensures parts == old(parts)[pk := old(Row(pk)).(elems := Pushed(left, old(Row(pk)).elems, es))]
    {
      var p := Row(pk);
      pushed := |es|;
      parts := parts[pk := p.(elems := Pushed(left, p.elems, es))];
    }

    method LRPop(left: bool, pk: Bytes) returns (v: Option<Bytes>)
      modifies this
      ensures v.None? <==> old(Row(pk)).elems == []
      ensures v.None? ==> parts == old(parts)
      ensures v.Some? ==>
        var es := old(Row(pk)).elems;
        && v.value == (if left then es[0] else es[|es| - 1])
        && parts == old(parts)[pk := old(Row(pk)).(elems := if left then es[1..] else es[..|es| - 1])]
    {
      var p := Row(pk);
      var n := |p.elems|;
      if n == 0 {
        return None;
      }
      v := Some(if left then p.elems[0] else p.elems[n - 1]);
      parts := parts[pk := p.(elems := if left then p.elems[1..] else p.elems[..n - 1])];
    }

    method LRangeAll(pk: Bytes) returns (es: seq<Bytes>)
      ensures es == Row(pk).elems
    {
      es := Row(pk).elems;
    }

    /** Clear the partition's items, then push the new sequence. */
    method LReplaceAll(pk: Bytes, es: seq<Bytes>)
      modifies this
      ensures parts == old(parts)[pk := NOTHING.(meta := old(Row(pk)).meta, elems := es)]
    {
      var cleared := DeleteMembers(pk);
      if |es| == 0 {
        return;
      }
      var pushed := LRPush(false, pk, es);
      assert parts == old(parts)[pk := NOTHING.(meta := old(Row(pk)).meta, elems := [] + es)];
      assert [] + es == es;
    }
  }
}
