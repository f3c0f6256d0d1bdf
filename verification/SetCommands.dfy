/** SADD, SREM, SISMEMBER, SMOVE and SUNIONSTORE, SINTERSTORE, SDIFFSTORE. */
module SetCommands {
  import opened Prelude
  import opened Redis
  import opened Table
  import opened Storage
  import opened Seam
  import opened Members
  import opened HashCommands

  /** Claim the set, add members and settle the count. */
  method AddNames(st: Store, now: int, k: Bytes, names: set<Bytes>) returns (ok: bool, added: int)
    requires Inv(st.parts) && names != {} && (forall m :: m in names ==> |m| <= MAX_MEMBER)
    modifies st
    ensures Inv(st.parts)
    ensures ok <==> !Wrong(old(View(st.parts, now)), k, SetT)
    ensures !ok ==> st.parts == old(st.parts)
    ensures ok ==>
              var db := old(View(st.parts, now));
              && added == |names - SetAt(db, k)|
              && View(st.parts, now) == Keep(db, now, k, Redis.Set(SetAt(db, k) + names))
  {
    Observe(st.parts, k, now);
    added := 0;
    ok := EnsureTypeExpiring(st, now, k, SetT);
    if !ok {
      return;
    }
    ghost var claimed, m := st.parts, st.Row(k).members;
    assert m.Keys == SetAt(old(View(st.parts, now)), k);
    GrowRefines(old(st.parts), k, now, SetT, Bare(names));
    assert (m + Bare(names)).Keys == m.Keys + names;
    added := st.SAdd(k, names);
    Rewritten(old(st.parts), claimed, st.parts, k);
    Settle(st, k, SetT, added, old(st.parts));
    assert st.parts == old(st.parts)[k := Grown(Claimed(old(st.Row(k)), SetT, now), Bare(names))];
  }

  method HandleSAdd(st: Store, now: int, k: Bytes, ms: seq<Bytes>) returns (reply: Reply)
    requires Inv(st.parts) && |ms| > 0
    modifies st
    ensures Done(st, now, reply, SAdd(old(View(st.parts, now)), now, k, ms))
  {
    if !Fits(k, ms, []) {
      return Error(TooLarge);
    }
    assert ms[0] in ToSet(ms);
    var ok, added := AddNames(st, now, k, ToSet(ms));
    return if ok then Int(added) else Error(WrongType);
  }

  method HandleSRem(st: Store, now: int, k: Bytes, ms: seq<Bytes>) returns (reply: Reply)
    requires Inv(st.parts)
    modifies st
    ensures Done(st, now, reply, SRem(old(View(st.parts, now)), now, k, ms))
  {
    Observe(st.parts, k, now);
    var s := LoadMetaState(st, now, k, SetT);
    if s.WrongKind? {
      return Error(WrongType);
    }
    if s.Absent? {
      return Int(0);
    }
    ghost var m := st.Row(k).members;
    OnlyStorableMatter(m, ms);
    DifferenceSize(m, ToSet(ms));
    assert SetAt(View(st.parts, now), k) == m.Keys;
    assert MembersValue(SetT, m - Storable(ms)) == Redis.Set(m.Keys - ToSet(ms));
    var removed := DeleteNames(st, now, k, SetT, Storable(ms));
    return Int(removed);
  }

  method HandleSIsMember(st: Store, now: int, k: Bytes, m: Bytes) returns (reply: Reply)
    requires Inv(st.parts)
    ensures reply == SIsMember(View(st.parts, now), k, m)
  {
    Observe(st.parts, k, now);
    var s := LoadMetaState(st, now, k, SetT);
    if s.WrongKind? {
      return Error(WrongType);
    }
    if s.Absent? || |m| > MAX_MEMBER {
      return Int(0);
    }
    var found := st.SIsMember(k, m);
    return Int(if found then 1 else 0);
  }

  /** Remove from the source, then add to the destination; the same key is a pure membership test. */
  method HandleSMove(st: Store, now: int, src: Bytes, dst: Bytes, m: Bytes) returns (reply: Reply)
    requires Inv(st.parts)
    modifies st
    ensures Done(st, now, reply, SMove(old(View(st.parts, now)), now, src, dst, m))
  {
    Observe(st.parts, src, now);
    Observe(st.parts, dst, now);
    var s := LoadMetaState(st, now, src, SetT);
    if s.WrongKind? {
      return Error(WrongType);
    }
    if s.Absent? {
      return Int(0);
    }
    if src == dst {
      reply := HandleSIsMember(st, now, src, m);
      return;
    }
    var d := LoadMetaState(st, now, dst, SetT);
    if d.WrongKind? {
      return Error(WrongType);
    }
    if |m| > MAX_MEMBER {
      return Int(0);
    }
    var found := st.SIsMember(src, m);
    if !found {
      return Int(0);
    }
    if |dst| > MAX_NAME {
      return Error(TooLarge);
    }
    MoveMember(st, now, src, dst, m);
    return Int(1);
  }

  method MoveMember(st: Store, now: int, src: Bytes, dst: Bytes, m: Bytes)
    requires Inv(st.parts) && LiveAs(st.Row(src), now, SetT) && |m| <= MAX_MEMBER
    requires src != dst && !Wrong(View(st.parts, now), dst, SetT)
    modifies st
    ensures Inv(st.parts)
    ensures var db := old(View(st.parts, now));
            var without := Keep(db, now, src, Redis.Set(SetAt(db, src) - {m}));
            View(st.parts, now) == Keep(without, now, dst, Redis.Set(SetAt(db, dst) + {m}))
  {
    ghost var db := View(st.parts, now);
    Observe(st.parts, src, now);
    DifferenceSize(st.Row(src).members, {m});
    KeepElsewhere(db, now, src, Redis.Set(SetAt(db, src) - {m}), dst);
    var removed := DeleteNames(st, now, src, SetT, {m});
    var ok, added := AddNames(st, now, dst, {m});
  }

  /** Updating one key leaves what is read of another. */
  lemma KeepElsewhere(db: Db, now: int, k: Bytes, v: Value, other: Bytes)
    requires k != other
    ensures var after := Keep(db, now, k, v);
            && SetAt(after, other) == SetAt(db, other) && ListAt(after, other) == ListAt(db, other)
            && ExpOf(after, other) == ExpOf(db, other)
            && (forall t :: Wrong(after, other, t) == Wrong(db, other, t))
  {
  }

  method LoadSetMembers(st: Store, now: int, k: Bytes) returns (members: set<Bytes>, wrong: bool)
    requires Inv(st.parts)
    ensures wrong == Wrong(View(st.parts, now), k, SetT)
    ensures members == SetAt(View(st.parts, now), k) && forall m :: m in members ==> |m| <= MAX_MEMBER
  {
    Observe(st.parts, k, now);
    members := {};
    var s := LoadMetaState(st, now, k, SetT);
    wrong := s.WrongKind?;
    if s.LiveKey? {
      members := st.SMembers(k);
    }
  }

  /** Read the operands in order, stopping an intersection at the first empty one. */
  method LoadOperands(st: Store, now: int, op: SetOp, ks: seq<Bytes>) returns (r: Operands)
    requires Inv(st.parts)
    ensures r == Load(View(st.parts, now), op, ks)
  {
    ghost var db := View(st.parts, now);
    var sets: seq<set<Bytes>> := [];
    assert ks[0..] == ks;
    for i := 0 to |ks|
      invariant Load(db, op, ks) == Onto(sets, Load(db, op, ks[i..]))
    {
      assert ks[i..][0] == ks[i] && ks[i..][1..] == ks[i + 1..];
      var members, wrong := LoadSetMembers(st, now, ks[i]);
      if wrong {
        return WrongOperand;
      }
      if op == Inter && members == {} {
        return EmptyOperand;
      }
      OntoSnoc(sets, members, Load(db, op, ks[i + 1..]));
      sets := sets + [members];
    }
    assert ks[|ks|..] == [];
    return Sets(sets);
  }

  lemma {:induction false} OperandsFit(parts: Parts, now: int, op: SetOp, ks: seq<Bytes>)
    requires Inv(parts)
    ensures var r := Load(View(parts, now), op, ks);
            r.Sets? ==> |r.ss| == |ks| && forall i, m :: 0 <= i < |r.ss| && m in r.ss[i] ==> |m| <= MAX_MEMBER
  {
    if ks != [] {
      Observe(parts, ks[0], now);
      OperandsFit(parts, now, op, ks[1..]);
    }
  }

  function Onto(sets: seq<set<Bytes>>, rest: Operands): Operands {
    if rest.Sets? then Sets(sets + rest.ss) else rest
  }

  lemma OntoSnoc(sets: seq<set<Bytes>>, s: set<Bytes>, rest: Operands)
    ensures Onto(sets + [s], rest) == Onto(sets, Onto([s], rest))
  {
  }

  /** The accumulator loops: union inserts, intersection and difference delete from the first set. */
  method Combine(op: SetOp, ss: seq<set<Bytes>>) returns (acc: set<Bytes>)
    requires |ss| > 0
    ensures acc == Algebra(op, ss)
  {
    if op == Union {
      acc := {};
      for i := 0 to |ss|
        invariant forall x :: x in acc <==> exists j :: 0 <= j < i && x in ss[j]
      {
        acc := acc + ss[i];
      }
    } else if op == Inter {
      acc := ss[0];
      for i := 1 to |ss|
        invariant forall x :: x in acc <==> forall j :: 0 <= j < i ==> x in ss[j]
      {
        acc := acc * ss[i];
      }
    } else {
      acc := ss[0];
      for i := 1 to |ss|
        invariant forall x :: x in acc <==> x in ss[0] && forall j :: 1 <= j < i ==> x !in ss[j]
      {
        acc := acc - ss[i];
      }
    }
    AlgebraIsUnique(op, ss, acc);
  }

  lemma AlgebraIsUnique(op: SetOp, ss: seq<set<Bytes>>, r: set<Bytes>)
    requires |ss| > 0 && forall x :: x in r <==> Selected(op, ss, x)
    ensures r == Algebra(op, ss)
  {
    forall x | x in r ensures x in Algebra(op, ss) {
      assert Selected(op, ss, x);
      if op == Union {
        var i :| 0 <= i < |ss| && x in ss[i];
      } else {
        assert x in ss[0];
      }
    }
  }

  /** The result is computed before the destination is replaced, so the destination may be a source. */
  method HandleSStore(st: Store, now: int, op: SetOp, dst: Bytes, srcs: seq<Bytes>) returns (reply: Reply)
    requires Inv(st.parts) && |srcs| > 0
    modifies st
    ensures Done(st, now, reply, SStore(old(View(st.parts, now)), now, op, dst, srcs))
  {
    OperandsFit(st.parts, now, op, srcs);
    var operands := LoadOperands(st, now, op, srcs);
    if operands.WrongOperand? {
      return Error(WrongType);
    }
    var result := {};
    if operands.Sets? {
      result := Combine(op, operands.ss);
    }
    assert forall m :: m in result ==> |m| <= MAX_MEMBER;
    if |dst| > MAX_NAME || exists m :: m in result && |m| > MAX_MEMBER {
      return Error(TooLarge);
    }
    reply := ReplaceSet(st, now, dst, result);
  }

  method ReplaceSet(st: Store, now: int, dst: Bytes, result: set<Bytes>) returns (reply: Reply)
    requires Inv(st.parts) && forall m :: m in result ==> |m| <= MAX_MEMBER
    modifies st
    ensures Inv(st.parts) && reply == Int(|result|)
    ensures View(st.parts, now) == Put(old(View(st.parts, now)), now, dst, Redis.Set(result), 0)
  {
    PutIsClearThenKeep(View(st.parts, now), now, dst, result);
    ClearKey(st, now, dst);
    if |result| == 0 {
      return Int(0);
    }
    var ok, added := AddNames(st, now, dst, result);
    return Int(added);
  }

  lemma PutIsClearThenKeep(db: Db, now: int, k: Bytes, r: set<Bytes>)
    ensures var cleared := db - {k};
            && !Wrong(cleared, k, SetT) && |r - SetAt(cleared, k)| == |r|
            && Keep(cleared, now, k, Redis.Set(SetAt(cleared, k) + r)) == Put(db, now, k, Redis.Set(r), 0)
            && (|r| == 0 ==> cleared == Put(db, now, k, Redis.Set(r), 0))
  {
  }

  /** Remove a key of any type, live or expired, with all its items. */
  method ClearKey(st: Store, now: int, k: Bytes)
    requires Inv(st.parts)
    modifies st
    ensures Inv(st.parts) && View(st.parts, now) == old(View(st.parts, now)) - {k}
  {
    Commit(st.parts, k, NOTHING, now);
    assert Owned(st.Row(k)) by { Observe(st.parts, k, now); }
    var existed := DeleteMeta(st, k);
    ghost var deleted := st.parts;
    var reclaimed := st.DeleteMembers(k);
    Rewritten(old(st.parts), deleted, st.parts, k);
    assert st.parts == old(st.parts)[k := NOTHING];
  }
}
