/** INCR, DECR, INCRBY, DECRBY and HINCRBY in a serial run: the retry loop lands at its first attempt. */
module CounterCommands {
  import opened Prelude
  import opened Decimal
  import opened Redis
  import opened Table
  import opened Storage
  import opened Seam
  import opened Members
  import Rmw

  /** The int64 overflow guard fires exactly when the sum leaves int64. */
  lemma OverflowGuardIsExact(n: int, delta: int)
    requires InInt64(n) && InInt64(delta)
    ensures (delta > 0 && n > MAX_INT64 - delta) || (delta < 0 && n < MIN_INT64 - delta) <==> !InInt64(n + delta)
  {
  }

  /** One compare-and-set attempt, in terms of the number the observed item denotes. */
  lemma ComputeIsSum(delta: int, cur: Option<Bytes>)
    requires InInt64(delta)
    ensures var n := if cur.Some? then IntOf(cur.value) else Some(0);
            Rmw.Compute(Rmw.IncrBy(delta), cur) ==
            if n.None? then Rmw.NotInteger
            else if !InInt64(n.value + delta) then Rmw.Overflow
            else Rmw.Next(Render(n.value + delta), n.value + delta)
  {
  }

  function ReplyOf(c: Rmw.Computed, notInteger: Err): Reply {
    match c
    case Next(_, n) => Int(n)
    case NotInteger => Error(notInteger)
    case Overflow => Error(Err.Overflow)
    case TooLarge => Error(Err.TooLarge)
    case Rejected => Error(notInteger)
  }

  /** The storage layer's increment of a value item, alone on the key. */
  method IncrString(st: Store, k: Bytes, delta: int) returns (r: Rmw.Computed)
    requires InInt64(delta)
    modifies st
    ensures r == Rmw.Compute(Rmw.IncrBy(delta), old(st.Row(k)).value)
    ensures st.parts ==
            if r.Next? then old(st.parts)[k := old(st.Row(k)).(value := Some(r.value))] else old(st.parts)
  {
    ghost var p := st.Row(k);
    r := Rmw.TooLarge;
    var landed, attempt := false, 0;
    while !landed && attempt < MAX_RMW_RETRIES
      invariant !landed ==> attempt == 0 && st.parts == old(st.parts)
      invariant landed ==> r == Rmw.Compute(Rmw.IncrBy(delta), p.value) && r.Next?
      invariant landed ==> st.parts == old(st.parts)[k := p.(value := Some(r.value))]
      decreases MAX_RMW_RETRIES - attempt
    {
      var cur := st.GetString(k);
      r := Rmw.Compute(Rmw.IncrBy(delta), cur);
      if !r.Next? {
        return;
      }
      landed := st.SetStringIfEquals(k, r.value, cur);
      attempt := attempt + 1;
    }
  }

  method AddToKey(st: Store, now: int, k: Bytes, delta: int) returns (reply: Reply)
    requires Inv(st.parts) && InInt64(delta)
    modifies st
    ensures Done(st, now, reply, AddTo(old(View(st.parts, now)), now, k, delta))
  {
    if |k| > MAX_NAME {
      return Error(TooLarge);
    }
    reply := AddClaimed(st, now, k, delta);
  }

  /** Claim the String, increment its value item. */
  method AddClaimed(st: Store, now: int, k: Bytes, delta: int) returns (reply: Reply)
    requires Inv(st.parts) && InInt64(delta) && |k| <= MAX_NAME
    modifies st
    ensures Done(st, now, reply, AddTo(old(View(st.parts, now)), now, k, delta))
  {
    hide IntOf, Render, View, Keep, PartOk;
    Observe(st.parts, k, now);
    var ok := EnsureTypeExpiring(st, now, k, StringT);
    if !ok {
      return Error(WrongType);
    }
    ghost var p, claimed := st.Row(k), st.parts;
    ValueToAdd(old(st.parts), k, now);
    ComputeIsSum(delta, p.value);
    var r := IncrString(st, k, delta);
    if r.Next? {
      ValueRefines(old(st.parts), k, now, r.value);
      Rewritten(old(st.parts), claimed, st.parts, k);
    }
    return ReplyOf(r, NotInteger);
  }

  /** The item an increment finds after the claim: the key's string, or none for an absent key. */
  lemma ValueToAdd(parts: Parts, k: Bytes, now: int)
    requires Inv(parts) && (Live(At(parts, k), now) ==> At(parts, k).meta.value.t == StringT)
    ensures var p, db := Claimed(At(parts, k), StringT, now), View(parts, now);
            && p.value == (if k in db then Some(StrAt(db, k)) else None)
            && (k in db ==> parts[k := p] == parts)
  {
  }

  /** Claiming a String and writing its value item sets the key's string and keeps its expiry. */
  lemma ValueRefines(parts: Parts, k: Bytes, now: int, v: Bytes)
    requires Inv(parts) && (Live(At(parts, k), now) ==> At(parts, k).meta.value.t == StringT)
    ensures var after := parts[k := Claimed(At(parts, k), StringT, now).(value := Some(v))];
            Inv(after) && View(after, now) == Keep(View(parts, now), now, k, Str(v))
  {
    Observe(parts, k, now);
    Commit(parts, k, Claimed(At(parts, k), StringT, now).(value := Some(v)), now);
  }

  method HandleIncrBy(st: Store, now: int, k: Bytes, tok: Bytes, negate: bool) returns (reply: Reply)
    requires Inv(st.parts)
    modifies st
    ensures Done(st, now, reply, Redis.IncrBy(old(View(st.parts, now)), now, k, tok, negate))
  {
    var n := ParseInt(tok);
    if n.None? {
      return Error(NotInteger);
    }
    reply := AddToKey(st, now, k, if negate then Negated(n.value) else n.value);
  }

  lemma NegationWrapsOnlyOnce(n: int)
    requires InInt64(n)
    ensures Negated(n) == if n == MIN_INT64 then n else -n
  {
  }

  /**
   * Every argument but the least int64 is subtracted, or refused exactly if the difference leaves int64.
   * The least one is added: it is accepted exactly when the stored integer is not negative.
   */
  lemma DecrBySubtractsUnlessLeast(db: Db, now: int, k: Bytes, tok: Bytes, n: int, was: int)
    requires IntOf(tok) == Some(n) && |k| <= MAX_NAME && !Wrong(db, k, StringT)
    requires (if k in db then IntOf(StrAt(db, k)) else Some(0)) == Some(was)
    ensures var reply := Redis.IncrBy(db, now, k, tok, true).reply;
            && (n != MIN_INT64 ==> reply == if InInt64(was - n) then Int(was - n) else Error(Overflow))
            && (n == MIN_INT64 ==> reply == if was >= 0 then Int(was + n) else Error(Overflow))
  {
    hide Wrap64;
    IntOfIsExact(tok, n);
    if k in db {
      IntOfIsExact(StrAt(db, k), was);
    }
    NegationWrapsOnlyOnce(n);
  }

  // ----- Hash fields ----------------------------------------------------------------------------

  function FieldOf(p: Partition, f: Bytes): Option<Bytes> {
    if f in p.members then Some(p.members[f]) else None
  }

  /** The storage layer's increment of a hash field, alone on the key. */
  method IncrField(st: Store, k: Bytes, f: Bytes, delta: int) returns (r: Rmw.Computed, isNew: bool)
    requires InInt64(delta)
    modifies st
    ensures r == Rmw.Compute(Rmw.IncrBy(delta), FieldOf(old(st.Row(k)), f))
    ensures r.Next? ==> isNew == FieldOf(old(st.Row(k)), f).None?
    ensures st.parts ==
            if r.Next? then old(st.parts)[k := old(st.Row(k)).(members := old(st.Row(k)).members[f := r.value])]
            else old(st.parts)
  {
    ghost var p := st.Row(k);
    r := Rmw.TooLarge;
    var landed, attempt := false, 0;
    isNew := false;
    while !landed && attempt < MAX_RMW_RETRIES
      invariant !landed ==> attempt == 0 && st.parts == old(st.parts)
      invariant landed ==> r == Rmw.Compute(Rmw.IncrBy(delta), FieldOf(p, f)) && r.Next?
      invariant landed ==> isNew == FieldOf(p, f).None?
      invariant landed ==> st.parts == old(st.parts)[k := p.(members := p.members[f := r.value])]
      decreases MAX_RMW_RETRIES - attempt
    {
      var cur := st.HGet(k, f);
      r := Rmw.Compute(Rmw.IncrBy(delta), cur);
      if !r.Next? {
        return;
      }
      landed := st.HSetIfEquals(k, f, r.value, cur);
      if landed {
        isNew := cur.None?;
      }
      attempt := attempt + 1;
    }
  }

  method HandleHIncrBy(st: Store, now: int, k: Bytes, f: Bytes, tok: Bytes) returns (reply: Reply)
    requires Inv(st.parts)
    modifies st
    ensures Done(st, now, reply, Redis.HIncrBy(old(View(st.parts, now)), now, k, f, tok))
  {
    hide Inv, View, Keep, Render;
    var delta := ParseInt(tok);
    if delta.None? {
      return Error(NotInteger);
    }
    if !Fits(k, [f], []) {
      return Error(TooLarge);
    }
    assert |[f][0]| <= MAX_MEMBER;
    reply := AddToField(st, now, k, f, delta.value);
  }

  /** Claim the hash, increment the field, count it if it is new. */
  method AddToField(st: Store, now: int, k: Bytes, f: Bytes, delta: int) returns (reply: Reply)
    requires Inv(st.parts) && InInt64(delta) && |f| <= MAX_MEMBER
    modifies st
    ensures Inv(st.parts)
    ensures var db := old(View(st.parts, now));
            var h := HashAt(db, k);
            var n := if f in h then IntOf(h[f]) else Some(0);
            if Wrong(db, k, HashT) then View(st.parts, now) == db && reply == Error(WrongType)
            else if n.None? then View(st.parts, now) == db && reply == Error(HashNotInteger)
            else if !InInt64(n.value + delta) then View(st.parts, now) == db && reply == Error(Overflow)
            else
              && View(st.parts, now) == Keep(db, now, k, Hash(h[f := Render(n.value + delta)]))
              && reply == Int(n.value + delta)
  {
    hide IntOf, Render, View, Keep, Grown, PartOk, MembersValue;
    Observe(st.parts, k, now);
    var ok := EnsureTypeExpiring(st, now, k, HashT);
    if !ok {
      return Error(WrongType);
    }
    ghost var p := st.Row(k);
    FieldToAdd(old(st.parts), k, now, f);
    ComputeIsSum(delta, FieldOf(p, f));
    var r, isNew := IncrField(st, k, f, delta);
    if r.Next? {
      FieldRefines(old(st.parts), k, now, f, r.value);
      CountField(st, k, f, r.value, isNew, old(st.parts), p);
    }
    return ReplyOf(r, HashNotInteger);
  }

  /** The item an increment finds after the claim: the field, or none. */
  lemma FieldToAdd(parts: Parts, k: Bytes, now: int, f: Bytes)
    requires Inv(parts) && (Live(At(parts, k), now) ==> At(parts, k).meta.value.t == HashT)
    ensures var p, h := Claimed(At(parts, k), HashT, now), HashAt(View(parts, now), k);
            && FieldOf(p, f) == (if f in h then Some(h[f]) else None)
            && (f in h ==> parts[k := p] == parts)
  {
  }

  /** Claiming a hash and writing one field sets that field and keeps the expiry. */
  lemma FieldRefines(parts: Parts, k: Bytes, now: int, f: Bytes, v: Bytes)
    requires Inv(parts) && |f| <= MAX_MEMBER
    requires Live(At(parts, k), now) ==> At(parts, k).meta.value.t == HashT
    ensures var after := parts[k := Grown(Claimed(At(parts, k), HashT, now), map[f := v])];
            && Inv(after)
            && View(after, now) == Keep(View(parts, now), now, k, Hash(HashAt(View(parts, now), k)[f := v]))
  {
    hide Grown, Keep;
    Observe(parts, k, now);
    OneFieldWritten(HashAt(View(parts, now), k), f, v);
    GrowRefines(parts, k, now, HashT, map[f := v]);
  }

  /** Only a new field moves the count. */
  method CountField(st: Store, k: Bytes, f: Bytes, v: Bytes, isNew: bool, ghost was: Parts, ghost p: Partition)
    requires p.meta.Some? && p.meta.value.t == HashT
    requires st.parts == was[k := p.(members := p.members[f := v])]
    requires isNew <==> f !in p.members
    modifies st
    ensures st.parts == was[k := Grown(p, map[f := v])]
  {
    OneFieldWritten(p.members, f, v);
    if isNew {
      Settle(st, k, HashT, 1, was);
    }
    assert st.parts == was[k := Grown(p, map[f := v])];
  }
}
