/** What the specified hash, set and list commands mean to a client, told by one command about another. */
module CollectionLaws {
  import opened Prelude
  import opened Decimal
  import opened Redis
  import opened Laws
  import Expiry
  import StringLaws

  /** What an update in place leaves under its key, when that key is not due. */
  lemma KeptHash(db: Db, now: int, k: Bytes, h: map<Bytes, Bytes>)
    requires Proper(db, now) && !Wrong(db, k, HashT)
    ensures var after := Keep(db, now, k, Hash(h));
            !Wrong(after, k, HashT) && HashAt(after, k) == h && (k in after <==> h != map[])
  {
  }

  lemma KeptSet(db: Db, now: int, k: Bytes, m: set<Bytes>)
    requires Proper(db, now) && !Wrong(db, k, SetT)
    ensures var after := Keep(db, now, k, Set(m));
            !Wrong(after, k, SetT) && SetAt(after, k) == m && (k in after <==> m != {})
  {
  }

  lemma KeptList(db: Db, now: int, k: Bytes, l: seq<Bytes>)
    requires Proper(db, now) && !Wrong(db, k, ListT)
    ensures var after := Keep(db, now, k, List(l));
            && !Wrong(after, k, ListT) && ListAt(after, k) == l && (k in after <==> l != [])
            && (l != [] ==> ExpOf(after, k) == ExpOf(db, k) && Proper(after, now))
  {
  }

  /** The second of two updates of a list decides. */
  lemma KeptTwice(db: Db, now: int, k: Bytes, l: seq<Bytes>, m: seq<Bytes>)
    requires Proper(db, now) && l != []
    ensures Keep(Keep(db, now, k, List(l)), now, k, List(m)) == Keep(db, now, k, List(m))
  {
  }

  /** An update with what is there changes nothing. */
  lemma KeptSame(db: Db, now: int, k: Bytes)
    requires Proper(db, now) && !Wrong(db, k, ListT)
    ensures Keep(db, now, k, List(ListAt(db, k))) == db
  {
  }

  // ----- Hashes ---------------------------------------------------------------------------------

  /** The last pair of the first n arguments that names the field, or none. */
  ghost predicate LastNamed(pairs: seq<Bytes>, f: Bytes, i: nat) {
    && 2 * i + 1 < |pairs| && pairs[2 * i] == f
    && forall j :: i < j && 2 * j + 1 < |pairs| ==> pairs[2 * j] != f
  }

  lemma {:induction false} PairMapReads(pairs: seq<Bytes>, f: Bytes, i: nat)
    requires |pairs| % 2 == 0
    ensures LastNamed(pairs, f, i) ==> f in PairMap(pairs) && PairMap(pairs)[f] == pairs[2 * i + 1]
    ensures f in PairMap(pairs) ==> exists j: nat :: 2 * j + 1 < |pairs| && pairs[2 * j] == f
  {
    if pairs != [] {
      var n := |pairs| / 2 - 1;
      var most := pairs[..|pairs| - 2];
      PairMapReads(most, f, i);
      assert pairs[2 * n] == pairs[|pairs| - 2];
      if LastNamed(pairs, f, i) && i != n {
        assert pairs[2 * n] != f;
        assert LastNamed(most, f, i);
      }
      if f in PairMap(most) {
        var j: nat :| 2 * j + 1 < |most| && most[2 * j] == f;
        assert pairs[2 * j] == f;
      }
    }
  }

  /**
   * After HSET, HGET answers the last value given for a field, and for a field not named what it answered
   * before; the reply is the growth of HLEN.
   */
  lemma HSetIsRead(db: Db, now: int, k: Bytes, pairs: seq<Bytes>, f: Bytes, i: nat)
    requires Proper(db, now) && !Wrong(db, k, HashT)
    requires |pairs| % 2 == 0 && Fits(k, Evens(pairs), Odds(pairs))
    ensures var r := HSet(db, now, k, pairs);
            && (LastNamed(pairs, f, i) ==> HGet(r.db, k, f) == Bulk(pairs[2 * i + 1]))
            && ((forall j: nat :: 2 * j + 1 < |pairs| ==> pairs[2 * j] != f) ==> HGet(r.db, k, f) == HGet(db, k, f))
            && r.reply == Int(Card(r.db, HashT, k).n - Card(db, HashT, k).n)
  {
    hide Fits, PairMap, Evens, Odds, Keep, HashAt, Wrong;
    PairMapReads(pairs, f, i);
    KeptHash(db, now, k, HashAt(db, k) + PairMap(pairs));
  }

  /** HSET refuses a field without a value. */
  lemma HSetNeedsPairs(db: Db, now: int, k: Bytes, pairs: seq<Bytes>, f: Bytes)
    requires |pairs| % 2 == 0
    ensures HSet(db, now, k, pairs + [f]) == Outcome(db, Error(OddArguments))
  {
  }

  /** HSETNX stores a missing field and answers 1; a present one keeps its value and the answer is 0. */
  lemma HSetNXKeepsFirst(db: Db, now: int, k: Bytes, f: Bytes, v: Bytes)
    requires Proper(db, now) && !Wrong(db, k, HashT) && Fits(k, [f], [v])
    ensures var r := HSetNX(db, now, k, f, v);
            && (HGet(db, k, f) == Nil ==> r.reply == Int(1) && HGet(r.db, k, f) == Bulk(v))
            && (HGet(db, k, f) != Nil ==> r == Outcome(db, Int(0)))
  {
    hide Fits;
  }

  /** HINCRBY answers the old number plus the delta, and HGET then reads its rendering. */
  lemma HIncrByAdds(db: Db, now: int, k: Bytes, f: Bytes, tok: Bytes, was: int, n: int)
    requires Proper(db, now) && !Wrong(db, k, HashT) && Fits(k, [f], [])
    requires IntOf(tok) == Some(n) && InInt64(was + n)
    requires HGet(db, k, f) == Bulk(Render(was)) || (HGet(db, k, f) == Nil && was == 0)
    requires InInt64(was)
    ensures var r := HIncrBy(db, now, k, f, tok);
            r.reply == Int(was + n) && HGet(r.db, k, f) == Bulk(Render(was + n))
  {
    IntOfIsExact(Render(was), was);
    hide IntOf, Render, Fits;
  }

  /** After HDEL a named field is gone, every other one is unchanged; the reply is the loss of HLEN. */
  lemma HDelIsRead(db: Db, now: int, k: Bytes, fs: seq<Bytes>, f: Bytes)
    requires Proper(db, now) && !Wrong(db, k, HashT)
    ensures var r := HDel(db, now, k, fs);
            && HGet(r.db, k, f) == (if f in fs then Nil else HGet(db, k, f))
            && r.reply == Int(Card(db, HashT, k).n - Card(r.db, HashT, k).n)
            && (k in r.db <==> Card(r.db, HashT, k) != Int(0))
  {
    hide Keep, HashAt, Wrong;
    var h := HashAt(db, k);
    KeptHash(db, now, k, h - ToSet(fs));
    MapMinus(h, ToSet(fs));
    assert |h - ToSet(fs)| == 0 <==> h - ToSet(fs) == map[];
  }

  lemma MapMinus(h: map<Bytes, Bytes>, s: set<Bytes>)
    ensures |h.Keys * s| == |h| - |h - s|
  {
    assert h.Keys == (h - s).Keys + h.Keys * s;
  }

  // ----- Sets -----------------------------------------------------------------------------------

  /** After SADD and SREM, SISMEMBER tells; the replies are the growth and the loss of SCARD. */
  lemma SetsAreRead(db: Db, now: int, k: Bytes, ms: seq<Bytes>, m: Bytes)
    requires Proper(db, now) && !Wrong(db, k, SetT) && Fits(k, ms, [])
    ensures var added, removed := SAdd(db, now, k, ms), SRem(db, now, k, ms);
            && SIsMember(added.db, k, m) == (if m in ms then Int(1) else SIsMember(db, k, m))
            && SIsMember(removed.db, k, m) == (if m in ms then Int(0) else SIsMember(db, k, m))
            && added.reply == Int(Card(added.db, SetT, k).n - Card(db, SetT, k).n)
            && removed.reply == Int(Card(db, SetT, k).n - Card(removed.db, SetT, k).n)
            && (k in removed.db <==> Card(removed.db, SetT, k) != Int(0))
  {
    hide Fits, Keep, SetAt, Wrong;
    var s, t := SetAt(db, k), ToSet(ms);
    KeptSet(db, now, k, s + t);
    KeptSet(db, now, k, s - t);
    SizesSplit(s, t);
    assert |s - t| == 0 <==> s - t == {};
  }

  lemma SizesSplit(s: set<Bytes>, t: set<Bytes>)
    ensures |s + t| == |s| + |t - s| && |s| == |s - t| + |s * t|
  {
    assert s + t == s + (t - s);
    assert s == (s - t) + s * t;
  }

  lemma {:induction false} LoadedSets(db: Db, op: SetOp, ks: seq<Bytes>, i: nat)
    requires i < |ks|
    ensures var l := Load(db, op, ks);
            && (l.Sets? ==> |l.ss| == |ks| && l.ss[i] == SetAt(db, ks[i]))
            && (l.EmptyOperand? ==> op == Inter && exists j :: 0 <= j < |ks| && SetAt(db, ks[j]) == {})
            && (l.WrongOperand? ==> exists j :: 0 <= j < |ks| && Wrong(db, ks[j], SetT))
  {
    if Wrong(db, ks[0], SetT) || (op == Inter && SetAt(db, ks[0]) == {}) {
      assert ks[0] == ks[0];
    } else if |ks| > 1 {
      LoadedSets(db, op, ks[1..], if i > 0 then i - 1 else 0);
      assert forall j :: 0 <= j < |ks| - 1 ==> ks[1..][j] == ks[j + 1];
    } else {
      assert ks[1..] == [];
    }
  }

  /** Sources that are sets or absent, and a destination name that fits. */
  ghost predicate Storable(db: Db, dst: Bytes, srcs: seq<Bytes>) {
    |srcs| > 0 && |dst| <= MAX_NAME && forall i :: 0 <= i < |srcs| ==> !Wrong(db, srcs[i], SetT)
  }

  /** The set that SUNIONSTORE, SINTERSTORE or SDIFFSTORE leaves. */
  ghost function StoredSet(db: Db, now: int, op: SetOp, dst: Bytes, srcs: seq<Bytes>): set<Bytes>
    requires |srcs| > 0
  {
    SetAt(SStore(db, now, op, dst, srcs).db, dst)
  }

  /** What is stored is an algebra result over the sources as they were; the reply is its size. */
  lemma StoredFrom(db: Db, now: int, op: SetOp, dst: Bytes, srcs: seq<Bytes>) returns (ss: seq<set<Bytes>>)
    requires Storable(db, dst, srcs)
    ensures |ss| == |srcs| && forall i :: 0 <= i < |srcs| ==> ss[i] == SetAt(db, srcs[i])
    ensures var r := StoredSet(db, now, op, dst, srcs);
            IsAlgebra(op, ss, r) && SStore(db, now, op, dst, srcs).reply == Int(|r|)
    ensures !Wrong(SStore(db, now, op, dst, srcs).db, dst, SetT)
  {
    hide SetAt, IsAlgebra, Load, Wrong, Keep;
    ss := seq(|srcs|, i requires 0 <= i < |srcs| => SetAt(db, srcs[i]));
    var l := Load(db, op, srcs);
    LoadedSets(db, op, srcs, 0);
    if l.Sets? {
      forall i | 0 <= i < |srcs| ensures l.ss[i] == ss[i] {
        LoadedSets(db, op, srcs, i);
      }
      assert l.ss == ss;
    } else {
      var j :| 0 <= j < |srcs| && SetAt(db, srcs[j]) == {};
      NothingInAll(ss, j);
    }
    StoredReads(db, now, op, dst, srcs);
  }

  lemma NothingInAll(ss: seq<set<Bytes>>, j: nat)
    requires j < |ss| && ss[j] == {}
    ensures IsAlgebra(Inter, ss, {})
  {
    assert forall x :: x !in ss[j];
  }

  lemma StoredReads(db: Db, now: int, op: SetOp, dst: Bytes, srcs: seq<Bytes>)
    requires Storable(db, dst, srcs) && !Load(db, op, srcs).WrongOperand?
    ensures var l := Load(db, op, srcs);
            var r := if l.Sets? && |l.ss| > 0 then Algebra(op, l.ss) else {};
            && StoredSet(db, now, op, dst, srcs) == r
            && SStore(db, now, op, dst, srcs).reply == Int(|r|)
            && !Wrong(SStore(db, now, op, dst, srcs).db, dst, SetT)
  {
    hide Load, Algebra;
  }

  /** A stored union is the least set that contains every source. */
  lemma UnionIsLeast(db: Db, now: int, dst: Bytes, srcs: seq<Bytes>, bound: set<Bytes>)
    requires Storable(db, dst, srcs)
    ensures var r := StoredSet(db, now, Union, dst, srcs);
            && SStore(db, now, Union, dst, srcs).reply == Int(|r|)
            && (forall i :: 0 <= i < |srcs| ==> SetAt(db, srcs[i]) <= r)
            && ((forall i :: 0 <= i < |srcs| ==> SetAt(db, srcs[i]) <= bound) ==> r <= bound)
  {
    hide SStore, SetAt, StoredSet;
    var r := StoredSet(db, now, Union, dst, srcs);
    var ss := StoredFrom(db, now, Union, dst, srcs);
    forall i, x | 0 <= i < |srcs| && x in SetAt(db, srcs[i]) ensures x in r {
      assert x in ss[i];
      assert Selected(Union, ss, x);
    }
    if forall i :: 0 <= i < |srcs| ==> SetAt(db, srcs[i]) <= bound {
      forall x | x in r ensures x in bound {
        assert Selected(Union, ss, x);
      }
    }
  }

  /** A stored intersection is the greatest set that every source contains. */
  lemma InterIsGreatest(db: Db, now: int, dst: Bytes, srcs: seq<Bytes>, bound: set<Bytes>)
    requires Storable(db, dst, srcs)
    ensures var r := StoredSet(db, now, Inter, dst, srcs);
            && SStore(db, now, Inter, dst, srcs).reply == Int(|r|)
            && (forall i :: 0 <= i < |srcs| ==> r <= SetAt(db, srcs[i]))
            && ((forall i :: 0 <= i < |srcs| ==> bound <= SetAt(db, srcs[i])) ==> bound <= r)
  {
    hide SStore, SetAt, StoredSet;
    var r := StoredSet(db, now, Inter, dst, srcs);
    var ss := StoredFrom(db, now, Inter, dst, srcs);
    forall i | 0 <= i < |srcs| ensures r <= SetAt(db, srcs[i]) {
      assert forall x :: x in r ==> Selected(Inter, ss, x);
      assert ss[i] == SetAt(db, srcs[i]);
    }
    if forall i :: 0 <= i < |srcs| ==> bound <= SetAt(db, srcs[i]) {
      forall x | x in bound ensures x in r {
        assert Selected(Inter, ss, x) && x in ss[0];
      }
    }
  }

  /** A stored difference is what the first source has and no other one does. */
  lemma DiffIsRest(db: Db, now: int, dst: Bytes, srcs: seq<Bytes>, x: Bytes)
    requires Storable(db, dst, srcs)
    ensures var r := StoredSet(db, now, Diff, dst, srcs);
            && SStore(db, now, Diff, dst, srcs).reply == Int(|r|)
            && (x in r <==> x in SetAt(db, srcs[0]) && !exists i :: 1 <= i < |srcs| && x in SetAt(db, srcs[i]))
  {
    hide SStore, SetAt, StoredSet;
    var ss := StoredFrom(db, now, Diff, dst, srcs);
    assert Selected(Diff, ss, x) ==> x in ss[0];
  }

  /** SMOVE answers whether the member was there, and then it is in the destination and nowhere else. */
  lemma SMoveMoves(db: Db, now: int, src: Bytes, dst: Bytes, m: Bytes)
    requires Proper(db, now) && !Wrong(db, src, SetT) && !Wrong(db, dst, SetT) && |dst| <= MAX_NAME
    ensures var r := SMove(db, now, src, dst, m);
            && r.reply == SIsMember(db, src, m)
            && (r.reply == Int(0) ==> r.db == db)
            && (r.reply == Int(1) ==> SIsMember(r.db, dst, m) == Int(1))
            && (r.reply == Int(1) && src != dst ==> SIsMember(r.db, src, m) == Int(0))
  {
  }

  /** SINTERSTORE stops at an empty source: what follows, even of another type, makes no difference. */
  lemma {:induction false} InterStopsAtEmpty(db: Db, srcs: seq<Bytes>, i: nat)
    requires i < |srcs| && srcs[i] !in db
    requires forall j :: 0 <= j < i ==> !Wrong(db, srcs[j], SetT)
    ensures Load(db, Inter, srcs).EmptyOperand?
  {
    if i > 0 && SetAt(db, srcs[0]) != {} {
      InterStopsAtEmpty(db, srcs[1..], i - 1);
    }
  }

  /** Otherwise a source of another type is an error, wherever it stands. */
  lemma {:induction false} WrongSourceFails(db: Db, now: int, op: SetOp, dst: Bytes, srcs: seq<Bytes>, i: nat)
    requires i < |srcs| && Wrong(db, srcs[i], SetT) && op != Inter
    ensures SStore(db, now, op, dst, srcs) == Outcome(db, Error(WrongType))
  {
    WrongLoads(db, op, srcs, i);
  }

  lemma {:induction false} WrongLoads(db: Db, op: SetOp, ks: seq<Bytes>, i: nat)
    requires i < |ks| && Wrong(db, ks[i], SetT) && op != Inter
    ensures Load(db, op, ks).WrongOperand?
  {
    if i > 0 {
      WrongLoads(db, op, ks[1..], i - 1);
    }
  }

  // ----- Lists: ends ----------------------------------------------------------------------------

  lemma PushedSnoc(left: bool, l: seq<Bytes>, es: seq<Bytes>, e: Bytes)
    ensures Pushed(left, l, es + [e]) == Pushed(left, Pushed(left, l, es), [e])
    ensures Pushed(left, l, [e]) == if left then [e] + l else l + [e]
  {
    if left {
      assert Reversed(es + [e]) == [e] + Reversed(es);
      assert Reversed([e]) == [e];
    } else {
      assert l + es + [e] == l + (es + [e]);
    }
  }

  /** Pushing elements at once is pushing them one by one. */
  lemma PushOneByOne(db: Db, now: int, left: bool, k: Bytes, es: seq<Bytes>, e: Bytes)
    requires Proper(db, now) && es != [] && !Wrong(db, k, ListT) && Fits(k, [], es + [e])
    ensures Push(db, now, left, k, es + [e]) == Push(Push(db, now, left, k, es).db, now, left, k, [e])
    ensures Push(db, now, left, k, es + [e]).reply.Int?
  {
    assert forall i :: 0 <= i < |es| ==> es[i] == (es + [e])[i];
    assert (es + [e])[|es|] == e;
    hide Pushed, Keep, ListAt, Wrong;
    var l := ListAt(db, k);
    PushedSnoc(left, l, es, e);
    KeptList(db, now, k, Pushed(left, l, es));
    KeptTwice(db, now, k, Pushed(left, l, es), Pushed(left, l, es + [e]));
  }

  /**
   * One pushed element stands at its end, LPUSH at index 0 and RPUSH at index -1, and the reply is LLEN;
   * a pop at the same end answers it and restores the keyspace.
   */
  lemma PushThenPop(db: Db, now: int, left: bool, k: Bytes, e: Bytes, tok: Bytes)
    requires Proper(db, now) && !Wrong(db, k, ListT) && Fits(k, [], [e])
    requires IntOf(tok) == Some(if left then 0 else -1)
    ensures var r := Push(db, now, left, k, [e]);
            && LIndex(r.db, k, tok) == Bulk(e)
            && r.reply == Card(r.db, ListT, k) == Int(Card(db, ListT, k).n + 1)
            && Pop(r.db, now, left, k) == Outcome(db, Bulk(e))
  {
    hide Pushed, IntOf, Fits, Keep, ListAt, Wrong;
    var l := ListAt(db, k);
    var longer := Pushed(left, l, [e]);
    PushedSnoc(left, l, [], e);
    KeptList(db, now, k, longer);
    KeptTwice(db, now, k, longer, l);
    KeptSame(db, now, k);
    assert k in Keep(db, now, k, List(longer));
    assert longer[if left then 0 else |l|] == e;
    assert (if left then longer[1..] else longer[..|l|]) == l;
  }

  /** A pop answers what LINDEX shows at that end, and takes that element only. */
  lemma PopTakesEnd(db: Db, now: int, left: bool, k: Bytes, tok: Bytes)
    requires Proper(db, now) && !Wrong(db, k, ListT) && k in db
    requires IntOf(tok) == Some(if left then 0 else -1)
    ensures var r := Pop(db, now, left, k);
            && r.reply == LIndex(db, k, tok) && r.reply.Bulk?
            && ListAt(db, k) == (if left then [r.reply.b] + ListAt(r.db, k) else ListAt(r.db, k) + [r.reply.b])
            && (k in r.db <==> |ListAt(db, k)| > 1)
  {
    hide IntOf, Keep;
    var l := ListAt(db, k);
    KeptList(db, now, k, if left then l[1..] else l[..|l| - 1]);
  }

  /** RPOPLPUSH answers what RPOP would, or nil for an absent source. */
  lemma RPopLPushPops(db: Db, now: int, src: Bytes, dst: Bytes)
    requires !Wrong(db, src, ListT) && !Wrong(db, dst, ListT)
    ensures RPopLPush(db, now, src, dst).reply == Pop(db, now, false, src).reply
  {
  }

  /** LPUSHX and RPUSHX are pushes onto a key that exists. */
  lemma PushXNeedsKey(db: Db, now: int, left: bool, k: Bytes, es: seq<Bytes>)
    ensures PushX(db, now, left, k, es) ==
            if Exists(db, [k]) == 1 then Push(db, now, left, k, es) else Outcome(db, Int(0))
  {
    assert Exists(db, [k][1..]) == 0;
  }

  // ----- Lists: indices -------------------------------------------------------------------------

  /** LINDEX reads element i under i and under i - n, and nothing beyond either end. */
  lemma LIndexReads(db: Db, k: Bytes, tok: Bytes, n: int)
    requires !Wrong(db, k, ListT) && IntOf(tok) == Some(n)
    ensures var l := ListAt(db, k);
            && (forall i :: 0 <= i < |l| && (n == i || n == i - |l|) ==> LIndex(db, k, tok) == Bulk(l[i]))
            && (n >= |l| || n < -|l| ==> LIndex(db, k, tok) == Nil)
  {
    hide IntOf;
  }

  /** After LSET the element is read back under the same index, and every other one is what it was. */
  lemma LSetIsRead(db: Db, now: int, k: Bytes, tok: Bytes, v: Bytes, other: Bytes, n: int, m: int)
    requires Proper(db, now) && k in db && !Wrong(db, k, ListT) && Fits(k, [], [v])
    requires IntOf(tok) == Some(n) && IntOf(other) == Some(m) && -|ListAt(db, k)| <= n < |ListAt(db, k)|
    ensures var r := LSet(db, now, k, tok, v);
            && r.reply == Ok && LIndex(r.db, k, tok) == Bulk(v)
            && ((m - n) % |ListAt(db, k)| != 0 ==> LIndex(r.db, k, other) == LIndex(db, k, other))
  {
    hide IntOf, Fits, Keep, ListAt, Wrong;
    var l := ListAt(db, k);
    var i := FromEnd(|l|, n);
    KeptList(db, now, k, l[i := v]);
    if FromEnd(|l|, m) == i {
      SameElement(|l|, n, m);
    }
  }

  /** Two spellings of one element differ by the length or not at all. */
  lemma SameElement(n: nat, a: int, b: int)
    requires n > 0 && FromEnd(n, a) == FromEnd(n, b)
    ensures (b - a) % n == 0
  {
    if b < a {
      assert b - a == n * -1;
    }
  }

  /** LTRIM a b keeps the elements from a to b, under each of their spellings. */
  lemma LTrimKeeps(
    db: Db, now: int, k: Bytes, startTok: Bytes, stopTok: Bytes, start: int, stop: int, a: nat, b: nat)
    requires Proper(db, now) && !Wrong(db, k, ListT) && a <= b < |ListAt(db, k)|
    requires IntOf(startTok) == Some(start) && (start == a || start == a - |ListAt(db, k)|)
    requires IntOf(stopTok) == Some(stop) && (stop == b || stop == b - |ListAt(db, k)|)
    ensures var r := LTrim(db, now, k, startTok, stopTok);
            r.reply == Ok && ListAt(r.db, k) == ListAt(db, k)[a..b + 1]
  {
    StringLaws.WindowSpellings(ListAt(db, k), a, b);
    hide IntOf, Window, Keep, Wrong;
    KeptList(db, now, k, Window(ListAt(db, k), start, stop));
  }

  /** LINSERT puts the value directly before or after the first pivot, and answers the new length. */
  lemma LInsertSplits(db: Db, now: int, k: Bytes, w: Where, pivot: Bytes, v: Bytes)
    returns (a: seq<Bytes>, b: seq<Bytes>)
    requires Proper(db, now) && !Wrong(db, k, ListT) && Fits(k, [], [v])
    requires w != BadToken && pivot in ListAt(db, k)
    ensures var r := LInsert(db, now, k, w, pivot, v);
            && ListAt(db, k) == a + [pivot] + b && pivot !in a
            && ListAt(r.db, k) == (if w == Before then a + [v, pivot] + b else a + [pivot, v] + b)
            && r.reply == Card(r.db, ListT, k)
  {
    assert k in db;
    hide Fits, Keep, ListAt, Wrong, Inserted, IndexOf;
    var l := ListAt(db, k);
    a, b := AroundPivot(l, pivot);
    InsertedAround(a, pivot, b, v);
    var at := |a| + (if w.After? then 1 else 0);
    KeptList(db, now, k, Inserted(l, at, v));
  }

  lemma AroundPivot(l: seq<Bytes>, pivot: Bytes) returns (a: seq<Bytes>, b: seq<Bytes>)
    requires pivot in l
    ensures l == a + [pivot] + b && pivot !in a && IndexOf(l, pivot) == |a|
  {
    hide IndexOf;
    var i := IndexOf(l, pivot);
    a, b := l[..i], l[i + 1..];
  }

  lemma InsertedAround(a: seq<Bytes>, pivot: Bytes, b: seq<Bytes>, v: Bytes)
    ensures var l := a + [pivot] + b;
            Inserted(l, |a|, v) == a + [v, pivot] + b && Inserted(l, |a| + 1, v) == a + [pivot, v] + b
  {
    var l := a + [pivot] + b;
    assert l[..|a|] == a && l[|a|..] == [pivot] + b;
    assert l[..|a| + 1] == a + [pivot] && l[|a| + 1..] == b;
    assert [v] + [pivot] == [v, pivot] && [pivot] + [v] == [pivot, v];
    Regroup(a, [v], [pivot], b);
    Regroup(a, [pivot], [v], b);
  }

  lemma Regroup(a: seq<Bytes>, x: seq<Bytes>, y: seq<Bytes>, b: seq<Bytes>)
    ensures a + x + (y + b) == a + (x + y) + b && a + x + y + b == a + (x + y) + b
  {
  }

  /** LSET beyond either end is an error; LINSERT without the pivot answers -1. */
  lemma NoSuchElement(db: Db, now: int, k: Bytes, tok: Bytes, v: Bytes, w: Where, pivot: Bytes, n: int)
    requires k in db && !Wrong(db, k, ListT) && IntOf(tok) == Some(n) && w != BadToken
    ensures n >= |ListAt(db, k)| || n < -|ListAt(db, k)| ==>
              LSet(db, now, k, tok, v) == Outcome(db, Error(IndexOutOfRange))
    ensures pivot !in ListAt(db, k) ==> LInsert(db, now, k, w, pivot, v) == Outcome(db, Int(-1))
  {
    hide IntOf;
  }

  // ----- Absent keys and bad arguments ----------------------------------------------------------

  /** An absent key reads like an empty one of any type. */
  lemma AbsentKeyReads(db: Db, now: int, k: Bytes, f: Bytes, tok: Bytes, millis: bool, t: KeyType)
    requires k !in db && IntOf(tok).Some?
    ensures Get(db, k) == HGet(db, k, f) == LIndex(db, k, tok) == Nil && Type(db, k) == TypeName(None)
    ensures Strlen(db, k) == Card(db, t, k) == SIsMember(db, k, f) == Int(0) && Ttl(db, now, k, millis) == Int(-2)
  {
    hide IntOf;
  }

  /** It is not created by what only takes away, moves or changes. */
  lemma AbsentKeyStaysAbsent(db: Db, now: int, k: Bytes, f: Bytes, names: seq<Bytes>, tok: Bytes, left: bool)
    requires k !in db && IntOf(tok).Some?
    ensures Pop(db, now, left, k) == RPopLPush(db, now, k, k) == Outcome(db, Nil)
    ensures Redis.Persist(db, k) == Expire(db, now, Expiry.InSeconds, k, tok) == Outcome(db, Int(0))
    ensures HDel(db, now, k, names) == SRem(db, now, k, names) == LRem(db, now, k, tok, f) == Outcome(db, Int(0))
    ensures SMove(db, now, k, f, tok) == PushX(db, now, left, k, names) == Outcome(db, Int(0))
    ensures LInsert(db, now, k, Before, f, tok) == LInsert(db, now, k, After, f, tok) == Outcome(db, Int(0))
    ensures LSet(db, now, k, tok, f) == Outcome(db, Error(NoSuchKey)) && LTrim(db, now, k, tok, tok) == Outcome(db, Ok)
  {
    hide IntOf, Keep;
    RemovingNothing(db, now, k);
    assert Removed([], IntOf(tok).value, f) == [];
    assert HashAt(db, k) - ToSet(names) == map[] && SetAt(db, k) - ToSet(names) == {};
    assert HashAt(db, k).Keys * ToSet(names) == {} && SetAt(db, k) * ToSet(names) == {};
  }

  lemma RemovingNothing(db: Db, now: int, k: Bytes)
    requires k !in db
    ensures Keep(db, now, k, Hash(map[])) == Keep(db, now, k, Set({})) == Keep(db, now, k, List([])) == db
  {
    assert db - {k} == db;
  }

  /** A token that is no canonical int64 is refused wherever a number is expected. */
  lemma NotANumber(db: Db, now: int, k: Bytes, f: Bytes, tok: Bytes, good: Bytes, form: Expiry.Form, flag: bool)
    requires IntOf(tok).None? && IntOf(good).Some?
    ensures var refused := Outcome(db, Error(NotInteger));
            && Redis.IncrBy(db, now, k, tok, flag) == HIncrBy(db, now, k, f, tok) == refused
            && Expire(db, now, form, k, tok) == SetEx(db, now, k, tok, f, flag) == refused
            && SetRange(db, now, k, tok, f) == LRem(db, now, k, tok, f) == refused
            && LTrim(db, now, k, tok, good) == LTrim(db, now, k, good, tok) == refused
            && GetRange(db, k, tok, good) == GetRange(db, k, good, tok) == Error(NotInteger)
            && (k in db && !Wrong(db, k, ListT) ==>
                  LSet(db, now, k, tok, f) == refused && LIndex(db, k, tok) == Error(NotInteger))
  {
    hide IntOf;
  }

  /** A counter that holds text, or whose sum leaves int64, refuses the increment. */
  lemma NotACounter(db: Db, now: int, k: Bytes, f: Bytes, tok: Bytes, n: int)
    requires IntOf(tok) == Some(n) && Fits(k, [f], []) && |k| <= MAX_NAME
    ensures !Wrong(db, k, StringT) && k in db ==>
              var held, r := IntOf(StrAt(db, k)), Redis.IncrBy(db, now, k, tok, false);
              && (held.None? ==> r == Outcome(db, Error(NotInteger)))
              && (held.Some? && !InInt64(held.value + n) ==> r == Outcome(db, Error(Overflow)))
    ensures !Wrong(db, k, HashT) && f in HashAt(db, k) ==>
              var held, r := IntOf(HashAt(db, k)[f]), HIncrBy(db, now, k, f, tok);
              && (held.None? ==> r == Outcome(db, Error(HashNotInteger)))
              && (held.Some? && !InInt64(held.value + n) ==> r == Outcome(db, Error(Overflow)))
  {
    hide IntOf;
  }

  // ----- LREM -----------------------------------------------------------------------------------

  /** The list without any v. */
  function Others(l: seq<Bytes>, v: Bytes): seq<Bytes> {
    if l == [] then [] else (if l[0] == v then [] else [l[0]]) + Others(l[1..], v)
  }

  lemma {:induction false} OthersConcat(a: seq<Bytes>, b: seq<Bytes>, v: Bytes)
    ensures Others(a + b, v) == Others(a, v) + Others(b, v)
  {
    if a == [] {
      assert a + b == b;
    } else {
      assert (a + b)[1..] == a[1..] + b;
      OthersConcat(a[1..], b, v);
    }
  }

  lemma {:induction false} OthersOfNone(l: seq<Bytes>, v: Bytes)
    requires v !in l
    ensures Others(l, v) == l
  {
    if l != [] {
      OthersOfNone(l[1..], v);
    }
  }

  lemma {:induction false} DropHeadSplits(l: seq<Bytes>, v: Bytes, n: nat) returns (i: nat)
    ensures i <= |l| && DropHead(l, v, n) == Others(l[..i], v) + l[i..]
    ensures multiset(l[..i])[v] == Min(n, multiset(l)[v])
  {
    i := 0;
    if l != [] && n > 0 {
      i := DropHeadSplits(l[1..], v, if l[0] == v then n - 1 else n);
      i := i + 1;
      HeadCons(l, v, i);
    }
  }

  lemma HeadCons(l: seq<Bytes>, v: Bytes, i: nat)
    requires 0 < i <= |l|
    ensures var first, rest := l[0], l[1..];
            && l[i..] == rest[i - 1..]
            && Others(l[..i], v) == (if first == v then [] else [first]) + Others(rest[..i - 1], v)
            && multiset(l)[v] == (if first == v then 1 else 0) + multiset(rest)[v]
            && multiset(l[..i])[v] == (if first == v then 1 else 0) + multiset(rest[..i - 1])[v]
  {
    var first, rest := l[0], l[1..];
    assert l == [first] + rest;
    assert l[..i] == [first] + rest[..i - 1];
    OthersConcat([first], rest[..i - 1], v);
    assert Others([first][1..], v) == [];
  }

  lemma {:induction false} DropTailSplits(l: seq<Bytes>, v: Bytes, n: nat) returns (i: nat)
    ensures i <= |l| && DropTail(l, v, n) == l[..i] + Others(l[i..], v)
    ensures multiset(l[i..])[v] == Min(n, multiset(l)[v])
  {
    i := |l|;
    if l != [] && n > 0 {
      var last, most := l[|l| - 1], l[..|l| - 1];
      i := DropTailSplits(most, v, if last == v then n - 1 else n);
      TailSnoc(l, v, i);
    }
  }

  lemma TailSnoc(l: seq<Bytes>, v: Bytes, i: nat)
    requires i < |l|
    ensures var last, most := l[|l| - 1], l[..|l| - 1];
            && l[..i] == most[..i]
            && Others(l[i..], v) == Others(most[i..], v) + (if last == v then [] else [last])
            && multiset(l)[v] == multiset(most)[v] + (if last == v then 1 else 0)
            && multiset(l[i..])[v] == multiset(most[i..])[v] + (if last == v then 1 else 0)
  {
    var last, most := l[|l| - 1], l[..|l| - 1];
    assert l == most + [last];
    assert l[i..] == most[i..] + [last];
    OthersConcat(most[i..], [last], v);
    assert Others([last][1..], v) == [];
  }

  /**
   * LREM with a positive count n drops the first n occurrences and nothing else: up to some point every
   * occurrence goes, behind it none, and up to it there are n of them or all.
   */
  lemma LRemFromHead(l: seq<Bytes>, v: Bytes, n: nat) returns (i: nat)
    requires n > 0
    ensures i <= |l| && Removed(l, n, v) == Others(l[..i], v) + l[i..]
    ensures multiset(l[..i])[v] == Min(n, multiset(l)[v])
  {
    i := DropHeadSplits(l, v, n);
  }

  /** With a negative count it drops the last occurrences. */
  lemma LRemFromTail(l: seq<Bytes>, v: Bytes, n: int) returns (i: nat)
    requires n > 0
    ensures i <= |l| && Removed(l, -n, v) == l[..i] + Others(l[i..], v)
    ensures multiset(l[i..])[v] == Min(n, multiset(l)[v])
  {
    i := DropTailSplits(l, v, n);
  }

  /** With a zero count it drops all. */
  lemma LRemAll(l: seq<Bytes>, v: Bytes)
    ensures Removed(l, 0, v) == Others(l, v)
    ensures v !in Others(l, v)
  {
    var i := DropHeadSplits(l, v, |l|);
    assert l == l[..i] + l[i..];
    assert multiset(l)[v] <= |multiset(l)| == |l|;
    assert v !in l[i..];
    OthersConcat(l[..i], l[i..], v);
    OthersOfNone(l[i..], v);
    OthersLacks(l, v);
  }

  lemma {:induction false} OthersLacks(l: seq<Bytes>, v: Bytes)
    ensures v !in Others(l, v)
  {
    if l != [] {
      OthersLacks(l[1..], v);
    }
  }

  lemma {:induction false} OthersSize(l: seq<Bytes>, v: Bytes)
    ensures |Others(l, v)| == |l| - multiset(l)[v]
  {
    if l != [] {
      OthersSize(l[1..], v);
      assert l == [l[0]] + l[1..];
    }
  }

  lemma RemovedSize(l: seq<Bytes>, v: Bytes, n: int)
    ensures var was := multiset(l)[v];
            |l| - |Removed(l, n, v)| == if n == 0 then was else Min(if n < 0 then -n else n, was)
  {
    hide Removed, Others;
    if n > 0 {
      var i := LRemFromHead(l, v, n);
      OthersSize(l[..i], v);
    } else if n < 0 {
      var i := LRemFromTail(l, v, -n);
      OthersSize(l[i..], v);
    } else {
      LRemAll(l, v);
      OthersSize(l, v);
    }
  }

  /** The keyspace after LREM holds that list, and the reply is how many occurrences went. */
  lemma LRemCounts(db: Db, now: int, k: Bytes, tok: Bytes, v: Bytes, n: int)
    requires Proper(db, now) && !Wrong(db, k, ListT) && IntOf(tok) == Some(n)
    ensures var r, was := LRem(db, now, k, tok, v), multiset(ListAt(db, k))[v];
            && ListAt(r.db, k) == Removed(ListAt(db, k), n, v)
            && r.reply == Int(if n == 0 then was else Min(if n < 0 then -n else n, was))
  {
    hide IntOf, Removed, Keep, ListAt, Wrong;
    KeptList(db, now, k, Removed(ListAt(db, k), n, v));
    RemovedSize(ListAt(db, k), v, n);
  }
}
