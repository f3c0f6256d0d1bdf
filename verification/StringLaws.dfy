/** What the specified string and key commands mean to a client, told by one command about another. */
module StringLaws {
  import opened Prelude
  import opened Decimal
  import opened Expiry
  import opened Redis
  import opened Laws

  // ----- Size limits ----------------------------------------------------------------------------

  /** Keys up to 1 KB, member names one byte less, values up to 390 KB, all inclusive. */
  lemma LimitsAreInclusive(key: Bytes, name: Bytes, value: Bytes)
    ensures Fits(key, [name], [value]) <==> |key| < 1025 && |name| < 1024 && |value| < 399361
  {
    assert [name][0] == name && [value][0] == value;
  }

  // ----- SET ------------------------------------------------------------------------------------

  /**
   * Where a plain SET succeeds, exactly one of SET NX and SET XX stores: NX if EXISTS answers 0, XX
   * if it answers 1. That one does what the plain SET does, the other answers nil and changes nothing.
   */
  lemma ConditionalSets(db: Db, now: int, k: Bytes, v: Bytes, span: Option<Span>)
    requires Fits(k, [], [v]) && (span.Some? ==> span.value.n > 0)
    ensures var plain := SetStr(db, now, k, v, Always, span);
            var nx, xx := SetStr(db, now, k, v, IfAbsent, span), SetStr(db, now, k, v, IfPresent, span);
            && plain.reply == Ok && Exists(db, [k]) in {0, 1}
            && (Exists(db, [k]) == 0 ==> nx == plain && xx == Outcome(db, Nil))
            && (Exists(db, [k]) == 1 ==> xx == plain && nx == Outcome(db, Nil))
  {
    assert Exists(db, [k][1..]) == 0;
  }

  /** SETNX is SET NX without options, answering 1 and 0. */
  lemma SetNXIsSet(db: Db, now: int, k: Bytes, v: Bytes)
    ensures var withNX, setnx := SetStr(db, now, k, v, IfAbsent, None), SetNX(db, now, k, v);
            && setnx.db == withNX.db
            && setnx.reply == match withNX.reply case Ok => Int(1) case Nil => Int(0) case r => r
  {
  }

  /** After SET, over a key of any type, GET reads the string, STRLEN measures it and TYPE names it. */
  lemma StoredIsRead(db: Db, now: int, k: Bytes, v: Bytes)
    requires Fits(k, [], [v])
    ensures var after := SetStr(db, now, k, v, Always, None).db;
            Get(after, k) == Bulk(v) && Strlen(after, k) == Int(|v|) && Type(after, k) == TypeName(Some(StringT))
  {
  }

  /** GETSET answers what GET would have, and then GET answers the new value. */
  lemma GetSetSwaps(db: Db, now: int, k: Bytes, v: Bytes)
    requires Fits(k, [], [v]) && !Wrong(db, k, StringT)
    ensures GetSet(db, now, k, v).reply == Get(db, k)
    ensures Get(GetSet(db, now, k, v).db, k) == Bulk(v)
  {
  }

  /**
   * SET with an expiry of n seconds: TTL answers n, counts down, and the key is there for exactly those
   * n seconds. In milliseconds the expiry is rounded down to a second, but never to the current one.
   */
  lemma SetExpires(db: Db, now: int, k: Bytes, v: Bytes, n: int, later: int)
    requires ClockOk(now) && InInt64(n) && later >= now && Fits(k, [], [v])
    ensures 0 < n <= MAX_INT64 / 1000 - now ==>
              var after := SetStr(db, now, k, v, Always, Some(Seconds(n))).db;
              && Ttl(after, now, k, false) == Int(n) && Ttl(after, now, k, true) == Int(1000 * n)
              && Get(Purge(after, later), k) == if later - now < n then Bulk(v) else Nil
    ensures 0 < n <= MAX_INT64 - now * 1000 ==>
              var after := SetStr(db, now, k, v, Always, Some(Millis(n))).db;
              Get(Purge(after, later), k) == if later < Max(now + 1, (now * 1000 + n) / 1000) then Bulk(v) else Nil
    ensures n <= 0 ==> SetStr(db, now, k, v, Always, Some(Seconds(n))) == Outcome(db, Error(InvalidExpire))
  {
    ResolveIsExact(InSeconds, now, n);
    ResolveIsExact(InMillis, now, n);
    hide Fits;
  }

  /** SETEX and PSETEX are SET with that expiry. */
  lemma SetExIsSet(db: Db, now: int, k: Bytes, tok: Bytes, v: Bytes, n: int)
    requires IntOf(tok) == Some(n)
    ensures SetEx(db, now, k, tok, v, false) == SetStr(db, now, k, v, Always, Some(Seconds(n)))
    ensures SetEx(db, now, k, tok, v, true) == SetStr(db, now, k, v, Always, Some(Millis(n)))
  {
    hide IntOf, SetStr;
  }

  // ----- APPEND and SETRANGE --------------------------------------------------------------------

  /** The string a key holds, the empty one if it is absent. */
  ghost predicate Holds(db: Db, k: Bytes, s: Bytes) {
    Get(db, k) == Bulk(s) || (Get(db, k) == Nil && s == [])
  }

  /**
   * APPEND keeps the old string as a prefix and puts the argument behind it; appending twice is appending
   * the concatenation; the reply is what STRLEN answers next.
   */
  lemma AppendExtends(db: Db, now: int, k: Bytes, s: Bytes, v: Bytes, w: Bytes)
    requires Proper(db, now) && Holds(db, k, s) && Fits(k, [], [s + v + w])
    ensures var once, twice := Append(db, now, k, v), Append(Append(db, now, k, v).db, now, k, w);
            && Get(once.db, k) == Bulk(s + v) && once.reply == Strlen(once.db, k) == Int(|s| + |v|)
            && twice.db == Append(db, now, k, v + w).db
  {
    var all := [s + v + w];
    assert s + v + w == s + (v + w) && all[0] == s + v + w;
    assert Fits(k, [], [s + v]) && Fits(k, [], [s + (v + w)]);
    assert StrAt(db, k) == s && !Wrong(db, k, StringT);
    KeptString(db, now, k, s + v, s + v + w);
    hide Keep, StrAt, Wrong, Fits;
  }

  /** What an update in place leaves under its key, when that key is not due. */
  lemma KeptString(db: Db, now: int, k: Bytes, s: Bytes, t: Bytes)
    requires Proper(db, now) && !Wrong(db, k, StringT)
    ensures var after := Keep(db, now, k, Str(s));
            && k in after && !Wrong(after, k, StringT) && StrAt(after, k) == s
            && Keep(after, now, k, Str(t)) == Keep(db, now, k, Str(t))
  {
  }

  /** SETRANGE byte by byte: the value from the offset, the old bytes elsewhere, zero bytes in a gap. */
  lemma SetRangeBytes(db: Db, now: int, k: Bytes, tok: Bytes, v: Bytes, s: Bytes, offset: nat)
    requires Proper(db, now) && Holds(db, k, s) && IntOf(tok) == Some(offset) && v != []
    requires |k| <= MAX_NAME && Max(|s|, offset + |v|) <= MAX_VALUE
    ensures var r := SetRange(db, now, k, tok, v);
            && Get(r.db, k).Bulk? && r.reply == Int(|Get(r.db, k).b|)
            && var b := Get(r.db, k).b;
               && |b| == Max(|s|, offset + |v|)
               && b[offset..offset + |v|] == v
               && forall i :: 0 <= i < |b| && !(offset <= i < offset + |v|) ==> b[i] == if i < |s| then s[i] else 0
  {
    hide IntOf;
    var b := Overwritten(s, offset, v);
    assert StrAt(db, k) == s;
    assert SetRange(db, now, k, tok, v).db == Keep(db, now, k, Str(b));
  }

  // ----- Ranges ---------------------------------------------------------------------------------

  /** In range, an index and its negative spelling are the same; the window is from first to last. */
  lemma WindowSpellings<T>(l: seq<T>, a: nat, b: nat)
    requires a <= b < |l|
    ensures var n := |l|;
            && Window(l, a, b) == l[a..b + 1]
            && Window(l, a - n, b) == Window(l, a, b - n) == Window(l, a - n, b - n) == Window(l, a, b)
  {
  }

  /** Out of range, the start moves to the first element and the stop to the last; otherwise it is empty. */
  lemma WindowClamps<T>(l: seq<T>, start: int, stop: int)
    ensures start < -|l| ==> Window(l, start, stop) == Window(l, 0, stop)
    ensures stop >= |l| > 0 ==> Window(l, start, stop) == Window(l, start, |l| - 1)
    ensures stop < -|l| || start >= |l| ==> Window(l, start, stop) == []
    ensures 0 <= stop < start || stop < start < 0 ==> Window(l, start, stop) == []
    ensures start < 0 <= stop && start + |l| > stop ==> Window(l, start, stop) == []
    ensures stop < 0 <= start && start > stop + |l| ==> Window(l, start, stop) == []
  {
  }

  /** GETRANGE selects the window, except that a stop before the string still selects its first byte. */
  lemma SubstringIsWindow(s: Bytes, start: int, stop: int)
    ensures stop >= -|s| ==> Substring(s, start, stop) == Window(s, start, stop)
    ensures stop < -|s| && s != [] ==>
              Substring(s, start, stop) == if (start >= 0 && start > 0) || (stop < start < 0) then [] else [s[0]]
  {
  }

  /** GETRANGE a b answers the bytes from a to b, under each of their spellings. */
  lemma GetRangeReads(
    db: Db, k: Bytes, startTok: Bytes, stopTok: Bytes, s: Bytes, start: int, stop: int, a: nat, b: nat)
    requires Get(db, k) == Bulk(s) && a <= b < |s|
    requires IntOf(startTok) == Some(start) && (start == a || start == a - |s|)
    requires IntOf(stopTok) == Some(stop) && (stop == b || stop == b - |s|)
    ensures GetRange(db, k, startTok, stopTok) == Bulk(s[a..b + 1])
  {
    WindowSpellings(s, a, b);
    SubstringIsWindow(s, start, stop);
    hide IntOf, Window, Substring;
  }

  // ----- Counters -------------------------------------------------------------------------------

  /** INCRBY answers the sum and GET then reads its rendering; the opposite increment restores the number. */
  lemma IncrByAdds(db: Db, now: int, k: Bytes, tok: Bytes, back: Bytes, was: int, n: int)
    requires Proper(db, now) && |k| <= MAX_NAME && !Wrong(db, k, StringT)
    requires (if k in db then IntOf(StrAt(db, k)) else Some(0)) == Some(was)
    requires IntOf(tok) == Some(n) && IntOf(back) == Some(-n) && InInt64(was + n)
    ensures var r := IncrBy(db, now, k, tok, false);
            && r.reply == Int(was + n) && Get(r.db, k) == Bulk(Render(was + n))
            && IncrBy(r.db, now, k, back, false).reply == Int(was)
  {
    IntOfIsExact(Render(was + n), was + n);
    if k in db {
      IntOfIsExact(StrAt(db, k), was);
    }
    hide IntOf;
  }

  // ----- Keys -----------------------------------------------------------------------------------

  /** EXISTS answers 1 for a key that TYPE knows, and adds up over its arguments. */
  lemma {:induction false} ExistsAddsUp(db: Db, k: Bytes, ks: seq<Bytes>, more: seq<Bytes>)
    ensures Exists(db, [k]) == if Type(db, k) == TypeName(None) then 0 else 1
    ensures Exists(db, ks + more) == Exists(db, ks) + Exists(db, more)
  {
    assert Exists(db, [k][1..]) == 0;
    if ks == [] {
      assert ks + more == more;
    } else {
      assert (ks + more)[1..] == ks[1..] + more;
      ExistsAddsUp(db, k, ks[1..], more);
    }
  }

  /** TYPE tells which family of commands a key accepts: each family refuses exactly the other types. */
  lemma TypeDecides(db: Db, k: Bytes, f: Bytes, t: KeyType)
    requires Type(db, k).t.Some?
    ensures Get(db, k) == Error(WrongType) <==> Type(db, k).t.value != StringT
    ensures HGet(db, k, f) == Error(WrongType) <==> Type(db, k).t.value != HashT
    ensures SIsMember(db, k, f) == Error(WrongType) <==> Type(db, k).t.value != SetT
    ensures LIndex(db, k, Render(0)) == Error(WrongType) <==> Type(db, k).t.value != ListT
    ensures Card(db, t, k) == Error(WrongType) <==> Type(db, k).t.value != t
  {
  }

  /**
   * EXPIRE and its relatives, for every form and argument: the key and its value are visible at a later
   * time exactly if that comes before the requested deadline, rounded down to a second but later than
   * the current one. A deadline that is past or unrepresentable deletes the key.
   */
  lemma ExpireDeletesAtDeadline(db: Db, now: int, form: Form, k: Bytes, tok: Bytes, n: int, later: int)
    requires ClockOk(now) && k in db && IntOf(tok) == Some(n) && later >= now
    ensures var r, d := Expire(db, now, form, k, tok), DeadlineMs(form, now, n);
            && r.reply == Int(1)
            && (k in Purge(r.db, later) <==> now * 1000 < d <= MAX_INT64 && later < Max(now + 1, d / 1000))
            && (k in Purge(r.db, later) ==> Purge(r.db, later)[k].value == db[k].value)
  {
    IntOfIsExact(tok, n);
    ResolveIsExact(form, now, n);
    hide IntOf, Resolve;
  }

  /** TTL right after EXPIRE n is n; it falls by one a second, PTTL by a thousand; it never reaches 0. */
  lemma TtlCountsDown(db: Db, now: int, k: Bytes, tok: Bytes, n: int, later: int)
    requires ClockOk(now) && k in db && IntOf(tok) == Some(n)
    requires 0 < n <= MAX_INT64 / 1000 - now && later >= now
    ensures var live := Purge(Expire(db, now, InSeconds, k, tok).db, later);
            && Ttl(live, later, k, false) == Int(if later - now < n then n - (later - now) else -2)
            && Ttl(live, later, k, true) == Int(if later - now < n then 1000 * (n - (later - now)) else -2)
  {
    hide IntOf;
  }

  /** PERSIST answers 1 exactly if TTL showed an expiry; the key keeps its value and TTL answers -1. */
  lemma PersistKeeps(db: Db, now: int, k: Bytes)
    requires Proper(db, now) && k in db && db[k].exp >= 0
    ensures var r := Redis.Persist(db, k);
            && (r.reply == Int(1) <==> Ttl(db, now, k, false).n > 0)
            && (r.reply == Int(0) <==> Ttl(db, now, k, false).n == -1)
            && k in r.db && r.db[k].value == db[k].value && Ttl(r.db, now, k, false) == Int(-1)
  {
  }
}
