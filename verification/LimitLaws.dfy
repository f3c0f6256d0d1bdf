/** Size limits and types over the whole keyspace: what no command breaks, and the one that may. */
module LimitLaws {
  import opened Prelude
  import opened Decimal
  import opened Expiry
  import opened Redis
  import opened Laws

  /** The guard's limits: 1024 bytes for a key, 1023 for a field or member, 399360 for a value. */
  ghost predicate Within(k: Bytes, v: Value) {
    && |k| <= 1024
    && match v
       case Str(s) => |s| <= 399360
       case Hash(h) => forall f :: f in h ==> |f| <= 1023 && |h[f]| <= 399360
       case List(l) => forall i :: 0 <= i < |l| ==> |l[i]| <= 399360
       case Set(m) => forall x :: x in m ==> |x| <= 1023
  }

  ghost predicate Bounded(db: Db) {
    forall k :: k in db ==> Within(k, db[k].value)
  }

  /** A key that stays keeps its type. */
  ghost predicate SameTypes(db: Db, after: Db) {
    forall k :: k in db && k in after ==> TypeOf(after[k].value) == TypeOf(db[k].value)
  }

  ghost predicate Tidy(db: Db, after: Db) {
    (Bounded(db) ==> Bounded(after)) && SameTypes(db, after)
  }

  lemma Unchanged(db: Db)
    ensures Tidy(db, db)
  {
  }

  /** An update in place with a value of the key's type that fits, or that empties the key. */
  lemma KeepIsTidy(db: Db, now: int, k: Bytes, v: Value)
    requires !Wrong(db, k, TypeOf(v))
    requires Bounded(db) ==> Void(v) || Within(k, v)
    ensures Tidy(db, Keep(db, now, k, v))
  {
  }

  lemma PutIsBounded(db: Db, now: int, k: Bytes, v: Value, exp: int)
    requires Bounded(db) && (Void(v) || Within(k, v))
    ensures Bounded(Put(db, now, k, v, exp))
  {
  }

  lemma OneFits(k: Bytes, v: Bytes)
    ensures Fits(k, [], [v]) <==> Within(k, Str(v))
  {
    assert [v][0] == v;
  }

  // ----- Short renderings -----------------------------------------------------------------------

  function Pow10(n: nat): nat {
    if n == 0 then 1 else 10 * Pow10(n - 1)
  }

  lemma {:induction false} DigitsShort(n: nat, d: nat)
    requires d > 0 && n < Pow10(d)
    ensures |Digits(n)| <= d
  {
    if n >= 10 {
      assert Pow10(1) == 10;
      DigitsShort(n / 10, d - 1);
    }
  }

  lemma RenderShort(n: int)
    requires InInt64(n)
    ensures |Render(n)| <= 20
  {
    assert Pow10(5) == 100000;
    assert Pow10(10) == 100000 * Pow10(5);
    assert Pow10(15) == 100000 * Pow10(10);
    assert Pow10(19) == 10000 * Pow10(15);
    DigitsShort(if n < 0 then -n else n, 19);
  }

  // ----- Strings --------------------------------------------------------------------------------

  /** The commands that replace a key of any type. */
  predicate Retypes(c: Command) {
    c.CSet? || c.CSetEx? || c.CSStore?
  }

  lemma SetBounded(db: Db, now: int, k: Bytes, v: Bytes, mode: Mode, span: Option<Span>)
    requires Bounded(db)
    ensures Bounded(SetStr(db, now, k, v, mode, span).db)
  {
    hide Fits, Put, Within, Bounded, SpanEnd;
    OneFits(k, v);
    if Within(k, Str(v)) {
      PutIsBounded(db, now, k, Str(v), if span.Some? then SpanEnd(now, span.value) else 0);
    }
  }

  lemma SetNXTidy(db: Db, now: int, k: Bytes, v: Bytes)
    ensures Tidy(db, SetNX(db, now, k, v).db)
  {
    OneFits(k, v);
    hide Fits;
  }

  lemma GetSetTidy(db: Db, now: int, k: Bytes, v: Bytes)
    ensures Tidy(db, GetSet(db, now, k, v).db)
  {
    OneFits(k, v);
    hide Fits;
  }

  lemma AppendTidy(db: Db, now: int, k: Bytes, v: Bytes)
    ensures Tidy(db, Append(db, now, k, v).db)
  {
    hide Fits, Keep, Tidy, Within, Bounded;
    var s := StrAt(db, k) + v;
    OneFits(k, s);
    Unchanged(db);
    if !Wrong(db, k, StringT) && Within(k, Str(s)) {
      KeepIsTidy(db, now, k, Str(s));
    }
  }

  lemma SetRangeTidy(db: Db, now: int, k: Bytes, tok: Bytes, v: Bytes)
    ensures Tidy(db, SetRange(db, now, k, tok, v).db)
  {
    hide IntOf, Keep, Tidy, Bounded, StrAt, Wrong;
    Unchanged(db);
    if IntOf(tok).Some? && IntOf(tok).value >= 0 {
      var s := Overwritten(StrAt(db, k), IntOf(tok).value, v);
      if !Wrong(db, k, StringT) && |k| <= MAX_NAME && |s| <= MAX_VALUE {
        KeepIsTidy(db, now, k, Str(s));
      }
    }
  }

  lemma AddToTidy(db: Db, now: int, k: Bytes, delta: int)
    ensures Tidy(db, AddTo(db, now, k, delta).db)
  {
    hide IntOf, Keep, Tidy, Bounded, StrAt, Wrong, Render;
    Unchanged(db);
    var n := if k in db then IntOf(StrAt(db, k)) else Some(0);
    if n.Some? && InInt64(n.value + delta) && !Wrong(db, k, StringT) && |k| <= MAX_NAME {
      RenderShort(n.value + delta);
      KeepIsTidy(db, now, k, Str(Render(n.value + delta)));
    }
  }

  lemma StringsTidy(db: Db, now: int, c: Command)
    requires ArityOk(c) && OnStrings(c) && !Retypes(c)
    ensures Tidy(db, Apply(db, now, c).db)
  {
    hide Tidy, SetNX, GetSet, Append, SetRange, AddTo, Get, Strlen, GetRange, IntOf, Negated;
    Unchanged(db);
    if c.CSetNX? {
      SetNXTidy(db, now, c.k, c.v);
    } else if c.CGetSet? {
      GetSetTidy(db, now, c.k, c.v);
    } else if c.CAppend? {
      AppendTidy(db, now, c.k, c.v);
    } else if c.CSetRange? {
      SetRangeTidy(db, now, c.k, c.tok, c.v);
    } else if c.CIncr? {
      AddToTidy(db, now, c.k, if c.up then 1 else -1);
    } else if c.CIncrBy? && IntOf(c.tok).Some? {
      AddToTidy(db, now, c.k, if c.negate then Negated(IntOf(c.tok).value) else IntOf(c.tok).value);
    }
  }

  // ----- Keys -----------------------------------------------------------------------------------

  lemma KeysTidy(db: Db, now: int, c: Command)
    requires ArityOk(c) && OnKeys(c)
    ensures Tidy(db, Apply(db, now, c).db)
  {
    hide Tidy, Del, Exists, Type, Expire, Ttl, Redis.Persist;
    Unchanged(db);
    if c.CDel? {
      DelTidy(db, c.ks);
    } else if c.CExpire? {
      ExpireTidy(db, now, c.form, c.k, c.tok);
    } else if c.CPersist? {
      PersistTidy(db, c.k);
    }
  }

  lemma DelTidy(db: Db, ks: seq<Bytes>)
    ensures Tidy(db, Del(db, ks).db)
  {
    DelIsDifference(db, ks);
    hide Del, ToSet, Within;
  }

  lemma ExpireTidy(db: Db, now: int, form: Form, k: Bytes, tok: Bytes)
    ensures Tidy(db, Expire(db, now, form, k, tok).db)
  {
    hide IntOf, Resolve, Within;
  }

  lemma PersistTidy(db: Db, k: Bytes)
    ensures Tidy(db, Redis.Persist(db, k).db)
  {
    hide Within;
  }

  // ----- Hashes ---------------------------------------------------------------------------------

  lemma {:induction false} PairMapFits(pairs: seq<Bytes>, f: Bytes)
    requires |pairs| % 2 == 0 && f in PairMap(pairs)
    ensures exists i :: 0 <= i < |pairs| / 2 && Evens(pairs)[i] == f && Odds(pairs)[i] == PairMap(pairs)[f]
  {
    var n := |pairs| / 2 - 1;
    if pairs[2 * n] == f {
      assert Evens(pairs)[n] == f;
    } else {
      PairMapFits(pairs[..|pairs| - 2], f);
      var i :| 0 <= i < n && Evens(pairs[..2 * n])[i] == f && Odds(pairs[..2 * n])[i] == PairMap(pairs)[f];
      assert Evens(pairs)[i] == f;
    }
  }

  lemma HSetTidy(db: Db, now: int, k: Bytes, pairs: seq<Bytes>)
    ensures Tidy(db, HSet(db, now, k, pairs).db)
  {
    hide Keep, Tidy;
    Unchanged(db);
    if |pairs| % 2 == 0 && Fits(k, Evens(pairs), Odds(pairs)) && !Wrong(db, k, HashT) {
      var h := HashAt(db, k);
      forall f | f in PairMap(pairs) ensures |f| <= 1023 && |PairMap(pairs)[f]| <= 399360 {
        PairMapFits(pairs, f);
      }
      hide PairMap, Evens, Odds;
      KeepIsTidy(db, now, k, Hash(h + PairMap(pairs)));
    }
  }

  lemma HSetNXTidy(db: Db, now: int, k: Bytes, f: Bytes, v: Bytes)
    ensures Tidy(db, HSetNX(db, now, k, f, v).db)
  {
    hide Keep, Tidy;
    Unchanged(db);
    if Fits(k, [f], [v]) && !Wrong(db, k, HashT) {
      assert [f][0] == f && [v][0] == v;
      KeepIsTidy(db, now, k, Hash(HashAt(db, k)[f := v]));
    }
  }

  lemma HIncrByTidy(db: Db, now: int, k: Bytes, f: Bytes, tok: Bytes)
    ensures Tidy(db, HIncrBy(db, now, k, f, tok).db)
  {
    hide Keep, Tidy, IntOf, Render;
    Unchanged(db);
    if IntOf(tok).Some? && Fits(k, [f], []) && !Wrong(db, k, HashT) {
      assert [f][0] == f;
      var h := HashAt(db, k);
      var n := if f in h then IntOf(h[f]) else Some(0);
      if n.Some? && InInt64(n.value + IntOf(tok).value) {
        RenderShort(n.value + IntOf(tok).value);
        KeepIsTidy(db, now, k, Hash(h[f := Render(n.value + IntOf(tok).value)]));
      }
    }
  }

  lemma HDelTidy(db: Db, now: int, k: Bytes, fs: seq<Bytes>)
    ensures Tidy(db, HDel(db, now, k, fs).db)
  {
    hide Keep, Tidy, ToSet;
    Unchanged(db);
    if !Wrong(db, k, HashT) {
      KeepIsTidy(db, now, k, Hash(HashAt(db, k) - ToSet(fs)));
    }
  }

  lemma HashesTidy(db: Db, now: int, c: Command)
    requires ArityOk(c) && OnHashes(c)
    ensures Tidy(db, Apply(db, now, c).db)
  {
    hide Tidy, HSet, HSetNX, HDel, HGet, Card, HIncrBy;
    Unchanged(db);
    if c.CHSet? {
      HSetTidy(db, now, c.k, c.pairs);
    } else if c.CHSetNX? {
      HSetNXTidy(db, now, c.k, c.f, c.v);
    } else if c.CHIncrBy? {
      HIncrByTidy(db, now, c.k, c.f, c.tok);
    } else if c.CHDel? {
      HDelTidy(db, now, c.k, c.fs);
    }
  }

  // ----- Sets -----------------------------------------------------------------------------------

  lemma SAddTidy(db: Db, now: int, k: Bytes, ms: seq<Bytes>)
    ensures Tidy(db, SAdd(db, now, k, ms).db)
  {
    hide Keep, Tidy;
    Unchanged(db);
    if Fits(k, ms, []) && !Wrong(db, k, SetT) {
      KeepIsTidy(db, now, k, Set(SetAt(db, k) + ToSet(ms)));
    }
  }

  lemma SRemTidy(db: Db, now: int, k: Bytes, ms: seq<Bytes>)
    ensures Tidy(db, SRem(db, now, k, ms).db)
  {
    hide Keep, Tidy, ToSet;
    Unchanged(db);
    if !Wrong(db, k, SetT) {
      KeepIsTidy(db, now, k, Set(SetAt(db, k) - ToSet(ms)));
    }
  }

  lemma SMoveTidy(db: Db, now: int, src: Bytes, dst: Bytes, m: Bytes)
    ensures Tidy(db, SMove(db, now, src, dst, m).db)
  {
    Unchanged(db);
    if src != dst && src in db && !Wrong(db, src, SetT) && !Wrong(db, dst, SetT) && |dst| <= MAX_NAME
       && m in SetAt(db, src) {
      var without := Keep(db, now, src, Set(SetAt(db, src) - {m}));
      KeepIsTidy(db, now, src, Set(SetAt(db, src) - {m}));
      if Bounded(db) {
        assert Within(src, db[src].value) && (dst in db ==> Within(dst, db[dst].value));
        assert Within(dst, Set(SetAt(db, dst) + {m}));
        KeepIsTidy(without, now, dst, Set(SetAt(db, dst) + {m}));
      }
    }
  }

  lemma {:induction false} LoadedWithin(db: Db, op: SetOp, ks: seq<Bytes>, i: nat, x: Bytes)
    requires Bounded(db) && Load(db, op, ks).Sets? && i < |Load(db, op, ks).ss| && x in Load(db, op, ks).ss[i]
    ensures |x| <= 1023
    decreases |ks|
  {
    if i > 0 {
      LoadedWithin(db, op, ks[1..], i - 1, x);
    }
  }

  lemma SStoreBounded(db: Db, now: int, op: SetOp, dst: Bytes, srcs: seq<Bytes>)
    requires |srcs| > 0 && Bounded(db)
    ensures Bounded(SStore(db, now, op, dst, srcs).db)
  {
    var l := Load(db, op, srcs);
    if !l.WrongOperand? && |dst| <= MAX_NAME {
      var r := if l.Sets? && |l.ss| > 0 then Algebra(op, l.ss) else {};
      forall x | x in r ensures |x| <= 1023 {
        assert Selected(op, l.ss, x);
        var i :| 0 <= i < |l.ss| && x in l.ss[i];
        LoadedWithin(db, op, srcs, i, x);
      }
      PutIsBounded(db, now, dst, Set(r), 0);
    }
  }

  lemma SetsTidy(db: Db, now: int, c: Command)
    requires ArityOk(c) && OnSets(c) && !Retypes(c)
    ensures Tidy(db, Apply(db, now, c).db)
  {
    hide Tidy, SAdd, SRem, SMove, SIsMember;
    Unchanged(db);
    if c.CSAdd? {
      SAddTidy(db, now, c.k, c.ms);
    } else if c.CSRem? {
      SRemTidy(db, now, c.k, c.ms);
    } else if c.CSMove? {
      SMoveTidy(db, now, c.src, c.dst, c.m);
    }
  }

  // ----- Lists ----------------------------------------------------------------------------------

  /** Elements that were there, or one that fits. */
  lemma RelistTidy(db: Db, now: int, k: Bytes, l: seq<Bytes>, v: Bytes)
    requires !Wrong(db, k, ListT) && k in db && |v| <= 399360
    requires forall i :: 0 <= i < |l| ==> l[i] == v || l[i] in ListAt(db, k)
    ensures Tidy(db, Keep(db, now, k, List(l)))
  {
    KeepIsTidy(db, now, k, List(l));
  }

  lemma PushTidy(db: Db, now: int, left: bool, k: Bytes, es: seq<Bytes>)
    ensures Tidy(db, Push(db, now, left, k, es).db)
  {
    hide Keep, Tidy;
    Unchanged(db);
    if !Wrong(db, k, ListT) && Fits(k, [], es) {
      KeepIsTidy(db, now, k, List(Pushed(left, ListAt(db, k), es)));
    }
  }

  lemma PopTidy(db: Db, now: int, left: bool, k: Bytes)
    ensures Tidy(db, Pop(db, now, left, k).db)
  {
    hide Keep, Tidy;
    Unchanged(db);
    var l := ListAt(db, k);
    if !Wrong(db, k, ListT) && l != [] {
      RelistTidy(db, now, k, if left then l[1..] else l[..|l| - 1], []);
    }
  }

  lemma LSetTidy(db: Db, now: int, k: Bytes, tok: Bytes, v: Bytes)
    ensures Tidy(db, LSet(db, now, k, tok, v).db)
  {
    hide Keep, Tidy, IntOf;
    Unchanged(db);
    var l := ListAt(db, k);
    if !Wrong(db, k, ListT) && k in db && IntOf(tok).Some? && 0 <= FromEnd(|l|, IntOf(tok).value) < |l| {
      OneFits(k, v);
      if Fits(k, [], [v]) {
        RelistTidy(db, now, k, l[FromEnd(|l|, IntOf(tok).value) := v], v);
      }
    }
  }

  lemma LTrimTidy(db: Db, now: int, k: Bytes, startTok: Bytes, stopTok: Bytes)
    ensures Tidy(db, LTrim(db, now, k, startTok, stopTok).db)
  {
    hide Keep, Tidy, IntOf;
    Unchanged(db);
    if !Wrong(db, k, ListT) && IntOf(startTok).Some? && IntOf(stopTok).Some? {
      var l := Window(ListAt(db, k), IntOf(startTok).value, IntOf(stopTok).value);
      KeepIsTidy(db, now, k, List(l));
    }
  }

  lemma {:induction false} DropHeadSubset(l: seq<Bytes>, v: Bytes, n: nat, x: Bytes)
    requires x in DropHead(l, v, n)
    ensures x in l
  {
    if l != [] && n > 0 && (l[0] == v || x != l[0]) {
      DropHeadSubset(l[1..], v, if l[0] == v then n - 1 else n, x);
    }
  }

  lemma {:induction false} DropTailSubset(l: seq<Bytes>, v: Bytes, n: nat, x: Bytes)
    requires x in DropTail(l, v, n)
    ensures x in l
  {
    if l != [] && n > 0 && (l[|l| - 1] == v || x != l[|l| - 1]) {
      DropTailSubset(l[..|l| - 1], v, if l[|l| - 1] == v then n - 1 else n, x);
    }
  }

  lemma NothingRemoved(count: int, v: Bytes)
    ensures Removed([], count, v) == []
  {
  }

  lemma LRemTidy(db: Db, now: int, k: Bytes, tok: Bytes, v: Bytes)
    ensures Tidy(db, LRem(db, now, k, tok, v).db)
  {
    hide Keep, Tidy, IntOf, DropHead, DropTail;
    Unchanged(db);
    if k !in db {
      NothingRemoved(if IntOf(tok).Some? then IntOf(tok).value else 0, v);
      KeepIsTidy(db, now, k, List([]));
    } else if !Wrong(db, k, ListT) && IntOf(tok).Some? {
      var l, count := ListAt(db, k), IntOf(tok).value;
      var r := Removed(l, count, v);
      forall i | 0 <= i < |r| ensures r[i] in l {
        if count < 0 {
          DropTailSubset(l, v, -count, r[i]);
        } else {
          DropHeadSubset(l, v, if count == 0 then |l| else count, r[i]);
        }
      }
      hide Removed;
      RelistTidy(db, now, k, r, []);
    }
  }

  lemma LInsertTidy(db: Db, now: int, k: Bytes, w: Where, pivot: Bytes, v: Bytes)
    ensures Tidy(db, LInsert(db, now, k, w, pivot, v).db)
  {
    hide Keep, Tidy;
    Unchanged(db);
    var l := ListAt(db, k);
    if !Wrong(db, k, ListT) && pivot in l && !w.BadToken? {
      OneFits(k, v);
      if Fits(k, [], [v]) {
        RelistTidy(db, now, k, Inserted(l, IndexOf(l, pivot) + (if w.After? then 1 else 0), v), v);
      }
    }
  }

  lemma ListsTidy(db: Db, now: int, c: Command)
    requires ArityOk(c) && OnLists(c) && !c.CRPopLPush?
    ensures Tidy(db, Apply(db, now, c).db)
  {
    hide Tidy, Push, Pop, LSet, LTrim, LRem, LInsert, LIndex;
    Unchanged(db);
    if c.CPush? || c.CPushX? {
      PushTidy(db, now, c.left, c.k, c.es);
    } else if c.CPop? {
      PopTidy(db, now, c.left, c.k);
    } else if c.CLSet? {
      LSetTidy(db, now, c.k, c.tok, c.v);
    } else if c.CLTrim? {
      LTrimTidy(db, now, c.k, c.startTok, c.stopTok);
    } else if c.CLRem? {
      LRemTidy(db, now, c.k, c.tok, c.v);
    } else if c.CLInsert? {
      LInsertTidy(db, now, c.k, c.w, c.pivot, c.v);
    }
  }

  /** RPOPLPUSH checks no size: it breaks the limits exactly by moving to a name that is too long. */
  lemma RotationLimits(db: Db, now: int, src: Bytes, dst: Bytes)
    requires Proper(db, now)
    ensures var r := RPopLPush(db, now, src, dst);
            && SameTypes(db, r.db)
            && (Bounded(db) ==> (Bounded(r.db) <==> !(r.reply.Bulk? && |dst| > 1024)))
  {
    hide Keep, SameTypes, Bounded;
    SameDb(db);
    var l := ListAt(db, src);
    if !Wrong(db, src, ListT) && l != [] && !Wrong(db, dst, ListT) {
      if src == dst {
        var turned := [l[|l| - 1]] + l[..|l| - 1];
        RelistTidy(db, now, src, turned, []);
        if Bounded(db) {
          ShortName(db, src);
        }
      } else {
        MoveLimits(db, now, src, dst);
      }
    }
  }

  lemma SameDb(db: Db)
    ensures SameTypes(db, db)
  {
  }

  lemma ShortName(db: Db, k: Bytes)
    requires Bounded(db) && k in db
    ensures |k| <= 1024
  {
  }

  lemma MoveLimits(db: Db, now: int, src: Bytes, dst: Bytes)
    requires Proper(db, now) && src != dst && src in db && ListAt(db, src) != []
    requires !Wrong(db, src, ListT) && !Wrong(db, dst, ListT)
    ensures var l := ListAt(db, src);
            var popped := Keep(db, now, src, List(l[..|l| - 1]));
            var after := Keep(popped, now, dst, List([l[|l| - 1]] + ListAt(db, dst)));
            && SameTypes(db, after)
            && (Bounded(db) ==> (Bounded(after) <==> |dst| <= 1024))
  {
    var l := ListAt(db, src);
    var rest, last := l[..|l| - 1], l[|l| - 1];
    RelistTidy(db, now, src, rest, []);
    var popped, longer := Keep(db, now, src, List(rest)), [last] + ListAt(db, dst);
    assert dst in popped <==> dst in db;
    if Bounded(db) && |dst| <= 1024 {
      assert Within(src, db[src].value) && (dst in db ==> Within(dst, db[dst].value));
      assert Within(dst, List(longer));
      KeepIsTidy(popped, now, dst, List(longer));
    } else if Bounded(db) {
      assert dst !in db;
      assert dst in Keep(popped, now, dst, List(longer));
    }
  }

  // ----- All commands ---------------------------------------------------------------------------

  /**
   * No command stores a name or value beyond the limits, with one exception: the limits hold after a
   * command if and only if it is not an RPOPLPUSH that moves an element to a key name over 1 KB.
   */
  lemma LimitsHoldExceptRotation(db: Db, now: int, c: Command)
    requires ArityOk(c) && Proper(db, now) && Bounded(db)
    ensures var r := Apply(db, now, c);
            Bounded(r.db) <==> !(c.CRPopLPush? && r.reply.Bulk? && |c.dst| > 1024)
  {
    hide Apply, Bounded;
    if c.CRPopLPush? {
      assert Apply(db, now, c) == RPopLPush(db, now, c.src, c.dst) by { RotationApplied(db, now, c); }
      RotationLimits(db, now, c.src, c.dst);
    } else if Retypes(c) {
      RetypingBounded(db, now, c);
    } else {
      OthersTidy(db, now, c);
    }
  }

  lemma RotationApplied(db: Db, now: int, c: Command)
    requires c.CRPopLPush?
    ensures Apply(db, now, c) == RPopLPush(db, now, c.src, c.dst)
  {
    hide RPopLPush;
  }

  lemma RetypingBounded(db: Db, now: int, c: Command)
    requires ArityOk(c) && Retypes(c) && Bounded(db)
    ensures Bounded(Apply(db, now, c).db)
  {
    hide Bounded, SetStr, SStore, IntOf;
    if c.CSet? {
      SetBounded(db, now, c.k, c.v, c.mode, c.span);
    } else if c.CSStore? {
      SStoreBounded(db, now, c.op, c.dst, c.srcs);
    } else if IntOf(c.tok).Some? {
      var n := IntOf(c.tok).value;
      SetBounded(db, now, c.k, c.v, Always, Some(if c.millis then Millis(n) else Seconds(n)));
    }
  }

  lemma OthersTidy(db: Db, now: int, c: Command)
    requires ArityOk(c) && !Retypes(c) && !c.CRPopLPush?
    ensures Tidy(db, Apply(db, now, c).db)
  {
    hide Apply, Tidy;
    if OnStrings(c) {
      StringsTidy(db, now, c);
    } else if OnKeys(c) {
      KeysTidy(db, now, c);
    } else if OnHashes(c) {
      HashesTidy(db, now, c);
    } else if OnSets(c) {
      SetsTidy(db, now, c);
    } else {
      ListsTidy(db, now, c);
    }
  }

  /** A key changes its type only under SET, SETEX, PSETEX or a STORE command, or by being deleted first. */
  lemma TypesAreKept(db: Db, now: int, c: Command)
    requires ArityOk(c) && Proper(db, now) && !Retypes(c)
    ensures SameTypes(db, Apply(db, now, c).db)
  {
    hide Apply, SameTypes;
    if c.CRPopLPush? {
      RotationApplied(db, now, c);
      RotationLimits(db, now, c.src, c.dst);
    } else {
      OthersTidy(db, now, c);
    }
  }
}
