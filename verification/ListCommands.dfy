/** LPUSH/RPUSH(X), LPOP/RPOP, LSET, LTRIM, LREM, LINSERT and RPOPLPUSH. */
module ListCommands {
  import opened Prelude
  import opened Decimal
  import opened Redis
  import opened Table
  import opened Storage
  import opened Seam
  import opened SetCommands

  // ----- Storing a new element sequence ---------------------------------------------------------

  function Relisted(p: Partition, es: seq<Bytes>): Partition
    requires p.meta.Some?
  {
    Adjusted(p.(elems := es), |es| - |p.elems|)
  }

  /** Rewriting the elements and adding the change in length to the count keeps the list exact. */
  lemma RelistRefines(parts: Parts, k: Bytes, now: int, es: seq<Bytes>)
    requires Inv(parts)
    requires Live(At(parts, k), now) ==> At(parts, k).meta.value.t == ListT
    requires es == [] ==> Live(At(parts, k), now)
    ensures var after := parts[k := Relisted(Claimed(At(parts, k), ListT, now), es)];
            && Inv(after)
            && View(after, now) == Keep(View(parts, now), now, k, List(es))
  {
    Observe(parts, k, now);
    Commit(parts, k, Relisted(Claimed(At(parts, k), ListT, now), es), now);
  }

  /** Replace the elements of a live list and settle its count. */
  method Relist(st: Store, now: int, k: Bytes, es: seq<Bytes>)
    requires Inv(st.parts) && LiveAs(st.Row(k), now, ListT)
    modifies st
    ensures Inv(st.parts)
    ensures View(st.parts, now) == Keep(old(View(st.parts, now)), now, k, List(es))
  {
    ghost var p := st.Row(k);
    RelistRefines(st.parts, k, now, es);
    var m := st.LoadMeta(k);
    st.LReplaceAll(k, es);
    assert PartOk(p);
    Settle(st, k, ListT, |es| - m.value.cnt, old(st.parts));
    assert st.parts == old(st.parts)[k := Relisted(p, es)];
  }

  /** Classify a key for a list command, in terms of the keyspace. */
  method ListState(st: Store, now: int, k: Bytes) returns (s: KeyState)
    requires Inv(st.parts)
    ensures s.WrongKind? <==> Wrong(View(st.parts, now), k, ListT)
    ensures s.Absent? <==> k !in View(st.parts, now)
    ensures s.Absent? ==> ListAt(View(st.parts, now), k) == []
    ensures s.LiveKey? ==>
              && LiveAs(st.Row(k), now, ListT)
              && ListAt(View(st.parts, now), k) == st.Row(k).elems != []
  {
    Observe(st.parts, k, now);
    s := LoadMetaState(st, now, k, ListT);
  }

  // ----- Push and pop ---------------------------------------------------------------------------

  method PushCommon(st: Store, now: int, left: bool, k: Bytes, es: seq<Bytes>, ghost was: Parts) returns (reply: Reply)
    requires Inv(was) && es != []
    requires Live(At(was, k), now) ==> At(was, k).meta.value.t == ListT
    requires Only(was, st.parts, k) && st.Row(k) == Claimed(At(was, k), ListT, now)
    modifies st
    ensures Inv(st.parts)
    ensures var l := Pushed(left, ListAt(View(was, now), k), es);
            View(st.parts, now) == Keep(View(was, now), now, k, List(l)) && reply == Int(|l|)
  {
    hide Pushed, View, Keep;
    ghost var p := st.Row(k);
    Observe(was, k, now);
    assert p.elems == ListAt(View(was, now), k) && p.meta.value.cnt == |p.elems|;
    RelistRefines(was, k, now, Pushed(left, p.elems, es));
    var pushed := st.LRPush(left, k, es);
    Rewritten(was, old(st.parts), st.parts, k);
    Settle(st, k, ListT, pushed, was);
    assert st.parts == was[k := Relisted(p, Pushed(left, p.elems, es))];
    var m := st.LoadMeta(k);
    return Int(m.value.cnt);
  }

  /**
   * The type is claimed before the sizes are checked. The command meets its specification exactly
   * when the arguments fit or the key is live; otherwise it leaves an empty list behind.
   */
  method HandlePush(st: Store, now: int, left: bool, k: Bytes, es: seq<Bytes>) returns (reply: Reply)
    requires Inv(st.parts) && |es| > 0
    modifies st
    ensures Fits(k, [], es) || k in old(View(st.parts, now)) ==>
              Done(st, now, reply, Push(old(View(st.parts, now)), now, left, k, es))
    ensures !Fits(k, [], es) && k !in old(View(st.parts, now)) ==>
              reply == Error(TooLarge) && st.parts == old(st.parts)[k := Fresh(ListT)]
  {
    Observe(st.parts, k, now);
    var ok := EnsureTypeExpiring(st, now, k, ListT);
    if !ok {
      return Error(WrongType);
    }
    if !Fits(k, [], es) {
      assert k in old(View(st.parts, now)) ==> st.parts == old(st.parts);
      return Error(TooLarge);
    }
    reply := PushCommon(st, now, left, k, es, old(st.parts));
  }

  /** The state an oversized push leaves under an absent key violates invariant and specification. */
  lemma OversizedPushIsWrong(parts: Parts, now: int, left: bool, k: Bytes, es: seq<Bytes>)
    requires Inv(parts) && !Fits(k, [], es) && k !in View(parts, now)
    ensures var after := parts[k := Fresh(ListT)];
            && !Inv(after)
            && View(after, now) != Push(View(parts, now), now, left, k, es).db
            && Exists(View(after, now), [k]) == 1
            && Card(View(after, now), ListT, k) == Int(0)
  {
    var after := parts[k := Fresh(ListT)];
    UpdateView(parts, k, Fresh(ListT), now);
    assert k in after && !PartOk(after[k]);
    assert Exists(View(after, now), [k]) == 1 + Exists(View(after, now), [k][1..]);
  }

  method HandlePushX(st: Store, now: int, left: bool, k: Bytes, es: seq<Bytes>) returns (reply: Reply)
    requires Inv(st.parts) && |es| > 0
    modifies st
    ensures Done(st, now, reply, PushX(old(View(st.parts, now)), now, left, k, es))
  {
    var s := ListState(st, now, k);
    if s.WrongKind? {
      return Error(WrongType);
    }
    if s.Absent? {
      return Int(0);
    }
    if !Fits(k, [], es) {
      return Error(TooLarge);
    }
    reply := PushCommon(st, now, left, k, es, st.parts);
  }

  /** A sequence without its first or last element. */
  function Rest(left: bool, l: seq<Bytes>): seq<Bytes>
    requires l != []
  {
    if left then l[1..] else l[..|l| - 1]
  }

  /** Taking one end off and one from the count keeps the list exact, and deletes it when it empties. */
  lemma PopRefines(parts: Parts, k: Bytes, now: int, left: bool)
    requires Inv(parts) && LiveAs(At(parts, k), now, ListT)
    ensures var p, l := At(parts, k), ListAt(View(parts, now), k);
            && l == p.elems != []
            && var after := parts[k := Adjusted(p.(elems := Rest(left, l)), -1)];
               Inv(after) && View(after, now) == Keep(View(parts, now), now, k, List(Rest(left, l)))
  {
    hide View, Keep;
    var p := At(parts, k);
    Observe(parts, k, now);
    RelistRefines(parts, k, now, Rest(left, p.elems));
  }

  /** Pop from a live list and settle its count. */
  method PopLive(st: Store, now: int, left: bool, k: Bytes) returns (v: Bytes)
    requires Inv(st.parts) && LiveAs(st.Row(k), now, ListT)
    modifies st
    ensures Inv(st.parts)
    ensures var l := ListAt(old(View(st.parts, now)), k);
            && |l| > 0
            && v == (if left then l[0] else l[|l| - 1])
            && View(st.parts, now) == Keep(old(View(st.parts, now)), now, k, List(Rest(left, l)))
  {
    hide View, Keep, PartOk, Inv;
    PopRefines(st.parts, k, now, left);
    var popped := st.LRPop(left, k);
    Settle(st, k, ListT, -1, old(st.parts));
    return popped.value;
  }

  method HandlePop(st: Store, now: int, left: bool, k: Bytes) returns (reply: Reply)
    requires Inv(st.parts)
    modifies st
    ensures Done(st, now, reply, Pop(old(View(st.parts, now)), now, left, k))
  {
    var s := ListState(st, now, k);
    if s.WrongKind? {
      return Error(WrongType);
    }
    if s.Absent? {
      return Nil;
    }
    var v := PopLive(st, now, left, k);
    return Bulk(v);
  }

  method HandleLIndex(st: Store, now: int, k: Bytes, tok: Bytes) returns (reply: Reply)
    requires Inv(st.parts)
    ensures reply == LIndex(View(st.parts, now), k, tok)
  {
    hide IntOf, View, PartOk;
    var s := ListState(st, now, k);
    if s.WrongKind? {
      return Error(WrongType);
    }
    if s.Absent? {
      return Nil;
    }
    var index := ParseInt(tok);
    if index.None? {
      return Error(NotInteger);
    }
    var all := st.LRangeAll(k);
    var i := index.value;
    if i < 0 {
      i := i + |all|;
    }
    if i < 0 || i >= |all| {
      return Nil;
    }
    return Bulk(all[i]);
  }

  // ----- Rewriting commands ---------------------------------------------------------------------

  /** Rewrite a live list with as many elements as before, which leaves the count alone. */
  method RewriteLive(st: Store, now: int, k: Bytes, es: seq<Bytes>)
    requires Inv(st.parts) && LiveAs(st.Row(k), now, ListT) && |es| == |st.Row(k).elems|
    modifies st
    ensures Inv(st.parts)
    ensures View(st.parts, now) == Keep(old(View(st.parts, now)), now, k, List(es))
  {
    ghost var p := st.Row(k);
    RelistRefines(st.parts, k, now, es);
    st.LReplaceAll(k, es);
    assert st.parts == old(st.parts)[k := Relisted(p, es)];
  }

  method HandleLSet(st: Store, now: int, k: Bytes, tok: Bytes, v: Bytes) returns (reply: Reply)
    requires Inv(st.parts)
    modifies st
    ensures Done(st, now, reply, LSet(old(View(st.parts, now)), now, k, tok, v))
  {
    hide IntOf, Fits, View, Keep, PartOk;
    var s := ListState(st, now, k);
    if s.WrongKind? {
      return Error(WrongType);
    }
    if s.Absent? {
      return Error(NoSuchKey);
    }
    var index := ParseInt(tok);
    if index.None? {
      return Error(NotInteger);
    }
    var all := st.LRangeAll(k);
    var i := index.value;
    if i < 0 {
      i := i + |all|;
    }
    if i < 0 || i >= |all| {
      return Error(IndexOutOfRange);
    }
    if !Fits(k, [], [v]) {
      return Error(TooLarge);
    }
    RewriteLive(st, now, k, all[i := v]);
    return Ok;
  }

  /** The inclusive bounds a rank range selects, or None when it selects nothing. */
  function ZNormalizeRankRange(n: int, start: int, stop: int): Option<(int, int)> {
    if n == 0 then None
    else
      var lo := if start < 0 then Max(0, start + n) else start;
      var hi := Min(n - 1, if stop < 0 then stop + n else stop);
      if lo >= n || hi < 0 || lo > hi then None else Some((lo, hi))
  }

  lemma RankRangeIsWindow(l: seq<Bytes>, start: int, stop: int)
    ensures match ZNormalizeRankRange(|l|, start, stop)
            case None => Window(l, start, stop) == []
            case Some((lo, hi)) => 0 <= lo <= hi < |l| && Window(l, start, stop) == l[lo..hi + 1]
  {
  }

  method HandleLTrim(st: Store, now: int, k: Bytes, startTok: Bytes, stopTok: Bytes) returns (reply: Reply)
    requires Inv(st.parts)
    modifies st
    ensures Done(st, now, reply, LTrim(old(View(st.parts, now)), now, k, startTok, stopTok))
  {
    var start := ParseInt(startTok);
    if start.None? {
      return Error(NotInteger);
    }
    var stop := ParseInt(stopTok);
    if stop.None? {
      return Error(NotInteger);
    }
    reply := Trim(st, now, k, start.value, stop.value);
  }

  method Trim(st: Store, now: int, k: Bytes, start: int, stop: int) returns (reply: Reply)
    requires Inv(st.parts)
    modifies st
    ensures Inv(st.parts)
    ensures var db := old(View(st.parts, now));
            if Wrong(db, k, ListT) then View(st.parts, now) == db && reply == Error(WrongType)
            else View(st.parts, now) == Keep(db, now, k, List(Window(ListAt(db, k), start, stop))) && reply == Ok
  {
    hide Window, ZNormalizeRankRange, View, Keep, PartOk;
    var s := ListState(st, now, k);
    if s.WrongKind? {
      return Error(WrongType);
    }
    if s.Absent? {
      AbsentStaysAbsent(View(st.parts, now), now, k, start, stop);
      return Ok;
    }
    var all := st.LRangeAll(k);
    RankRangeIsWindow(all, start, stop);
    var range := ZNormalizeRankRange(|all|, start, stop);
    var newList := [];
    if range.Some? {
      newList := all[range.value.0..range.value.1 + 1];
    }
    Relist(st, now, k, newList);
    return Ok;
  }

  lemma AbsentStaysAbsent(db: Db, now: int, k: Bytes, start: int, stop: int)
    requires k !in db
    ensures Keep(db, now, k, List(Window(ListAt(db, k), start, stop))) == db
  {
  }

  // ----- LREM -----------------------------------------------------------------------------------

  /** The elements that are not flagged. */
  function Kept(l: seq<Bytes>, drop: seq<bool>): seq<Bytes>
    requires |l| == |drop|
  {
    if l == [] then []
    else Kept(l[..|l| - 1], drop[..|l| - 1]) + (if drop[|l| - 1] then [] else [l[|l| - 1]])
  }

  lemma {:induction false} KeptAll(l: seq<Bytes>, drop: seq<bool>)
    requires |l| == |drop| && forall i :: 0 <= i < |drop| ==> !drop[i]
    ensures Kept(l, drop) == l
  {
    if l != [] {
      KeptAll(l[..|l| - 1], drop[..|l| - 1]);
    }
  }

  lemma {:induction false} KeptConcat(a: seq<Bytes>, da: seq<bool>, b: seq<Bytes>, db: seq<bool>)
    requires |a| == |da| && |b| == |db|
    ensures Kept(a + b, da + db) == Kept(a, da) + Kept(b, db)
  {
    if b == [] {
      assert a + b == a && da + db == da;
    } else {
      var n := |b| - 1;
      KeptConcat(a, da, b[..n], db[..n]);
      assert (a + b)[..|a| + n] == a + b[..n] && (da + db)[..|a| + n] == da + db[..n];
    }
  }

  /** Asking to remove more occurrences than there are elements removes them all. */
  lemma {:induction false} DropHeadCap(l: seq<Bytes>, v: Bytes, n: nat)
    requires n >= |l|
    ensures DropHead(l, v, n) == DropHead(l, v, |l|)
  {
    if l != [] && n > |l| {
      if l[0] == v {
        DropHeadCap(l[1..], v, n - 1);
      } else {
        DropHeadCap(l[1..], v, n);
        DropHeadCap(l[1..], v, |l|);
      }
    }
  }

  lemma {:induction false} DropTailCap(l: seq<Bytes>, v: Bytes, n: nat)
    requires n >= |l|
    ensures DropTail(l, v, n) == DropTail(l, v, |l|)
  {
    if l != [] && n > |l| {
      if l[|l| - 1] == v {
        DropTailCap(l[..|l| - 1], v, n - 1);
      } else {
        DropTailCap(l[..|l| - 1], v, n);
        DropTailCap(l[..|l| - 1], v, |l|);
      }
    }
  }

  lemma KeptSnoc(all: seq<Bytes>, drop: seq<bool>, i: nat)
    requires |all| == |drop| && i < |all|
    ensures Kept(all[..i + 1], drop[..i + 1]) == Kept(all[..i], drop[..i]) + (if drop[i] then [] else [all[i]])
  {
    assert all[..i + 1][..i] == all[..i] && drop[..i + 1][..i] == drop[..i];
  }

  lemma KeptCons(all: seq<Bytes>, drop: seq<bool>, i: nat)
    requires |all| == |drop| && i < |all|
    ensures Kept(all[i..], drop[i..]) == (if drop[i] then [] else [all[i]]) + Kept(all[i + 1..], drop[i + 1..])
  {
    KeptConcat([all[i]], [drop[i]], all[i + 1..], drop[i + 1..]);
    assert all[i..] == [all[i]] + all[i + 1..] && drop[i..] == [drop[i]] + drop[i + 1..];
    assert Kept([all[i]][..0], [drop[i]][..0]) == [];
  }

  lemma KeptSplit(all: seq<Bytes>, drop: seq<bool>, i: nat)
    requires |all| == |drop| && i <= |all|
    ensures Kept(all, drop) == Kept(all[..i], drop[..i]) + Kept(all[i..], drop[i..])
  {
    hide Kept;
    KeptConcat(all[..i], drop[..i], all[i..], drop[i..]);
    assert all == all[..i] + all[i..] && drop == drop[..i] + drop[i..];
  }

  lemma HeadStep(all: seq<Bytes>, was: seq<bool>, drop: seq<bool>, i: nat, v: Bytes, left: nat)
    requires i < |all| == |was| && left > 0 && !was[i] && drop == was[i := all[i] == v]
    ensures Kept(all[..i + 1], drop[..i + 1]) + DropHead(all[i + 1..], v, if drop[i] then left - 1 else left) ==
            Kept(all[..i], was[..i]) + DropHead(all[i..], v, left)
    ensures |Kept(all[..i + 1], drop[..i + 1])| == |Kept(all[..i], was[..i])| + (if drop[i] then 0 else 1)
  {
    assert all[i..][0] == all[i] && all[i..][1..] == all[i + 1..];
    assert drop[..i] == was[..i];
    KeptSnoc(all, drop, i);
  }

  lemma TailStep(all: seq<Bytes>, was: seq<bool>, drop: seq<bool>, i: nat, v: Bytes, left: nat)
    requires i < |all| == |was| && left > 0 && !was[i] && drop == was[i := all[i] == v]
    ensures DropTail(all[..i], v, if drop[i] then left - 1 else left) + Kept(all[i..], drop[i..]) ==
            DropTail(all[..i + 1], v, left) + Kept(all[i + 1..], was[i + 1..])
    ensures |Kept(all[i..], drop[i..])| == |Kept(all[i + 1..], was[i + 1..])| + (if drop[i] then 0 else 1)
  {
    assert all[..i + 1][i] == all[i] && all[..i + 1][..i] == all[..i];
    assert drop[i + 1..] == was[i + 1..];
    KeptCons(all, drop, i);
  }

  /** The scan from the head, flagging at most count matches. */
  method FlagHead(all: seq<Bytes>, count: nat, value: Bytes) returns (drop: seq<bool>, removed: nat)
    ensures |drop| == |all| && Kept(all, drop) == DropHead(all, value, count)
    ensures removed == |all| - |Kept(all, drop)|
  {
    hide Kept;
    var n := |all|;
    drop := seq(n, _ => false);
    removed := 0;
    var left := count;
    var i := 0;
    assert all[0..] == all && all[..0] == [];
    KeptAll(all[..0], drop[..0]);
    while i < n && left > 0
      invariant 0 <= i <= n && |drop| == n
      invariant forall j :: i <= j < n ==> !drop[j]
      invariant Kept(all[..i], drop[..i]) + DropHead(all[i..], value, left) == DropHead(all, value, count)
      invariant removed == i - |Kept(all[..i], drop[..i])|
    {
      ghost var was, before := drop, left;
      if all[i] == value {
        drop := drop[i := true];
        removed := removed + 1;
        left := left - 1;
      }
      HeadStep(all, was, drop, i, value, before);
      i := i + 1;
    }
    KeptAll(all[i..], drop[i..]);
    KeptSplit(all, drop, i);
  }

  /** The scan from the tail, flagging at most count matches. */
  method FlagTail(all: seq<Bytes>, count: nat, value: Bytes) returns (drop: seq<bool>, removed: nat)
    ensures |drop| == |all| && Kept(all, drop) == DropTail(all, value, count)
    ensures removed == |all| - |Kept(all, drop)|
  {
    hide Kept;
    var n := |all|;
    drop := seq(n, _ => false);
    removed := 0;
    var left := count;
    var i := n;
    assert all[..n] == all && all[n..] == [];
    KeptAll(all[n..], drop[n..]);
    while i > 0 && left > 0
      invariant 0 <= i <= n && |drop| == n
      invariant forall j :: 0 <= j < i ==> !drop[j]
      invariant DropTail(all[..i], value, left) + Kept(all[i..], drop[i..]) == DropTail(all, value, count)
      invariant removed == n - i - |Kept(all[i..], drop[i..])|
    {
      i := i - 1;
      ghost var was, before := drop, left;
      if all[i] == value {
        drop := drop[i := true];
        removed := removed + 1;
        left := left - 1;
      }
      TailStep(all, was, drop, i, value, before);
    }
    KeptAll(all[..i], drop[..i]);
    KeptSplit(all, drop, i);
  }

  /** The elements LREM keeps, and how many it removes, for any int64 count including the least. */
  method LRemCompute(all: seq<Bytes>, count: int, value: Bytes) returns (newList: seq<Bytes>, removed: int)
    ensures newList == Removed(all, count, value)
    ensures removed == |all| - |newList|
  {
    var n := |all|;
    var drop;
    if count > 0 {
      drop, removed := FlagHead(all, Min(count, n), value);
      if count > n {
        DropHeadCap(all, value, count);
      }
    } else if count < 0 {
      drop, removed := FlagTail(all, if count < -n then n else -count, value);
      if count < -n {
        DropTailCap(all, value, -count);
      }
    } else {
      drop, removed := FlagHead(all, n, value);
    }
    newList := [];
    for i := 0 to n
      invariant newList == Kept(all[..i], drop[..i])
    {
      assert all[..i + 1][..i] == all[..i] && drop[..i + 1][..i] == drop[..i];
      if !drop[i] {
        newList := newList + [all[i]];
      }
    }
    assert all[..n] == all && drop[..n] == drop;
  }

  method HandleLRem(st: Store, now: int, k: Bytes, tok: Bytes, v: Bytes) returns (reply: Reply)
    requires Inv(st.parts)
    modifies st
    ensures Done(st, now, reply, LRem(old(View(st.parts, now)), now, k, tok, v))
  {
    hide IntOf, Removed, View, Keep, PartOk;
    var count := ParseInt(tok);
    if count.None? {
      return Error(NotInteger);
    }
    var s := ListState(st, now, k);
    if s.WrongKind? {
      return Error(WrongType);
    }
    if s.Absent? {
      NothingToRemove(View(st.parts, now), now, k, count.value, v);
      return Int(0);
    }
    reply := RemoveLive(st, now, k, count.value, v);
  }

  method RemoveLive(st: Store, now: int, k: Bytes, count: int, v: Bytes) returns (reply: Reply)
    requires Inv(st.parts) && LiveAs(st.Row(k), now, ListT)
    modifies st
    ensures Inv(st.parts)
    ensures var db := old(View(st.parts, now));
            var l := ListAt(db, k);
            && View(st.parts, now) == Keep(db, now, k, List(Removed(l, count, v)))
            && reply == Int(|l| - |Removed(l, count, v)|)
  {
    hide Removed, View, Keep, PartOk;
    ghost var p := st.Row(k);
    Observe(st.parts, k, now);
    var all := st.LRangeAll(k);
    var newList, removed := LRemCompute(all, count, v);
    RelistRefines(st.parts, k, now, newList);
    if removed == 0 {
      RemovedNothing(all, count, v);
      assert st.parts == old(st.parts)[k := Relisted(p, newList)];
      return Int(0);
    }
    st.LReplaceAll(k, newList);
    Settle(st, k, ListT, -removed, old(st.parts));
    assert st.parts == old(st.parts)[k := Relisted(p, newList)];
    return Int(removed);
  }

  lemma {:induction false} DropKeepsLength(l: seq<Bytes>, v: Bytes, n: nat)
    ensures |DropHead(l, v, n)| <= |l| && (|DropHead(l, v, n)| == |l| ==> DropHead(l, v, n) == l)
    ensures |DropTail(l, v, n)| <= |l| && (|DropTail(l, v, n)| == |l| ==> DropTail(l, v, n) == l)
  {
    if l != [] && n > 0 {
      DropKeepsLength(l[1..], v, if l[0] == v then n - 1 else n);
      DropKeepsLength(l[..|l| - 1], v, if l[|l| - 1] == v then n - 1 else n);
    }
  }

  lemma RemovedNothing(l: seq<Bytes>, count: int, v: Bytes)
    requires |Removed(l, count, v)| == |l|
    ensures Removed(l, count, v) == l
  {
    DropKeepsLength(l, v, if count == 0 then |l| else if count < 0 then -count else count);
  }

  lemma NothingToRemove(db: Db, now: int, k: Bytes, count: int, v: Bytes)
    requires k !in db
    ensures Removed(ListAt(db, k), count, v) == []
    ensures Keep(db, now, k, List(Removed(ListAt(db, k), count, v))) == db
  {
  }

  // ----- LINSERT --------------------------------------------------------------------------------

  /** The scan for the pivot, -1 when it is absent. */
  method PivotIndex(all: seq<Bytes>, pivot: Bytes) returns (at: int)
    ensures at == if pivot in all then IndexOf(all, pivot) else -1
  {
    for i := 0 to |all|
      invariant forall j :: 0 <= j < i ==> all[j] != pivot
    {
      if all[i] == pivot {
        assert i == IndexOf(all, pivot);
        return i;
      }
    }
    return -1;
  }

  method HandleLInsert(st: Store, now: int, k: Bytes, w: Where, pivot: Bytes, v: Bytes) returns (reply: Reply)
    requires Inv(st.parts)
    modifies st
    ensures Done(st, now, reply, LInsert(old(View(st.parts, now)), now, k, w, pivot, v))
  {
    hide Fits, View, Keep, PartOk, IndexOf, Inserted;
    if w.BadToken? {
      return Error(Syntax);
    }
    var s := ListState(st, now, k);
    if s.WrongKind? {
      return Error(WrongType);
    }
    if s.Absent? {
      return Int(0);
    }
    var all := st.LRangeAll(k);
    var pivotIdx := PivotIndex(all, pivot);
    if pivotIdx < 0 {
      return Int(-1);
    }
    if !Fits(k, [], [v]) {
      return Error(TooLarge);
    }
    var insertAt := if w.Before? then pivotIdx else pivotIdx + 1;
    var newList := Inserted(all, insertAt, v);
    InsertLive(st, now, k, newList);
    return Int(|newList|);
  }

  /** Rewrite a live list with one element more. */
  method InsertLive(st: Store, now: int, k: Bytes, newList: seq<Bytes>)
    requires Inv(st.parts) && LiveAs(st.Row(k), now, ListT) && |newList| == |st.Row(k).elems| + 1
    modifies st
    ensures Inv(st.parts)
    ensures View(st.parts, now) == Keep(old(View(st.parts, now)), now, k, List(newList))
  {
    ghost var p := st.Row(k);
    RelistRefines(st.parts, k, now, newList);
    st.LReplaceAll(k, newList);
    Settle(st, k, ListT, 1, old(st.parts));
    assert st.parts == old(st.parts)[k := Relisted(p, newList)];
  }

  // ----- RPOPLPUSH ------------------------------------------------------------------------------

  /** One key: pop the tail and push it back on the head; the count does not move. */
  method Rotate(st: Store, now: int, k: Bytes) returns (v: Bytes)
    requires Inv(st.parts) && LiveAs(st.Row(k), now, ListT)
    modifies st
    ensures Inv(st.parts)
    ensures var l := ListAt(old(View(st.parts, now)), k);
            && |l| > 0 && v == l[|l| - 1]
            && View(st.parts, now) == Keep(old(View(st.parts, now)), now, k, List([v] + l[..|l| - 1]))
  {
    hide View, Keep;
    ghost var p := st.Row(k);
    Observe(st.parts, k, now);
    ghost var rest := p.elems[..|p.elems| - 1];
    var popped := st.LRPop(false, k);
    v := popped.value;
    RelistRefines(old(st.parts), k, now, [v] + rest);
    var pushed := st.LRPush(true, k, [v]);
    assert Reversed([v]) == [v];
    assert st.parts == old(st.parts)[k := Relisted(p, [v] + rest)];
  }

  /** Claim a list and push one element on its head. */
  method PushHead(st: Store, now: int, k: Bytes, v: Bytes)
    requires Inv(st.parts) && !Wrong(View(st.parts, now), k, ListT)
    modifies st
    ensures Inv(st.parts)
    ensures View(st.parts, now) ==
            Keep(old(View(st.parts, now)), now, k, List([v] + ListAt(old(View(st.parts, now)), k)))
  {
    hide View, Keep;
    Observe(st.parts, k, now);
    var ok := EnsureTypeExpiring(st, now, k, ListT);
    ghost var p, claimed := st.Row(k), st.parts;
    assert p.elems == ListAt(old(View(st.parts, now)), k);
    RelistRefines(old(st.parts), k, now, [v] + p.elems);
    var pushed := st.LRPush(true, k, [v]);
    assert Reversed([v]) == [v];
    Rewritten(old(st.parts), claimed, st.parts, k);
    Settle(st, k, ListT, 1, old(st.parts));
    assert st.parts == old(st.parts)[k := Relisted(p, [v] + p.elems)];
  }

  method HandleRPopLPush(st: Store, now: int, src: Bytes, dst: Bytes) returns (reply: Reply)
    requires Inv(st.parts)
    modifies st
    ensures Done(st, now, reply, RPopLPush(old(View(st.parts, now)), now, src, dst))
  {
    hide View, Keep, PartOk, Wrong, ListAt;
    var s := ListState(st, now, src);
    if s.WrongKind? {
      return Error(WrongType);
    }
    if s.Absent? {
      return Nil;
    }
    if src == dst {
      var rotated := Rotate(st, now, src);
      return Bulk(rotated);
    }
    var d := ListState(st, now, dst);
    if d.WrongKind? {
      return Error(WrongType);
    }
    var v := MoveTail(st, now, src, dst);
    return Bulk(v);
  }

  method MoveTail(st: Store, now: int, src: Bytes, dst: Bytes) returns (v: Bytes)
    requires Inv(st.parts) && LiveAs(st.Row(src), now, ListT)
    requires src != dst && !Wrong(View(st.parts, now), dst, ListT)
    modifies st
    ensures Inv(st.parts)
    ensures var db := old(View(st.parts, now));
            var l := ListAt(db, src);
            && |l| > 0 && v == l[|l| - 1]
            && View(st.parts, now) ==
               Keep(Keep(db, now, src, List(l[..|l| - 1])), now, dst, List([v] + ListAt(db, dst)))
  {
    hide View, Keep, PartOk;
    ghost var db := View(st.parts, now);
    ghost var l := ListAt(db, src);
    v := PopLive(st, now, false, src);
    KeepElsewhere(db, now, src, List(l[..|l| - 1]), dst);
    PushHead(st, now, dst, v);
  }
}
