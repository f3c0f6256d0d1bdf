/** GET, SET, SETNX, SETEX, GETSET and the compare-and-set writers APPEND and SETRANGE. */
module StringCommands {
  import opened Prelude
  import opened Decimal
  import opened Expiry
  import opened Redis
  import opened Table
  import opened Storage
  import opened Seam

  method HandleGet(st: Store, now: int, k: Bytes) returns (reply: Reply)
    requires Inv(st.parts)
    ensures reply == Get(View(st.parts, now), k)
  {
    Observe(st.parts, k, now);
    var m := st.LoadMeta(k);
    if m.None? || Expired(m.value, now) {
      return Nil;
    }
    if m.value.t != StringT {
      return Error(WrongType);
    }
    var v := st.GetString(k);
    reply := if v.None? then Nil else Bulk(v.value);
  }

  method ReadCurrentString(st: Store, now: int, k: Bytes) returns (v: Bytes, wrong: bool)
    requires Inv(st.parts)
    ensures wrong == Wrong(View(st.parts, now), k, StringT)
    ensures v == StrAt(View(st.parts, now), k)
  {
    Observe(st.parts, k, now);
    var m := st.LoadMeta(k);
    if m.None? || Expired(m.value, now) {
      return [], false;
    }
    if m.value.t != StringT {
      return [], true;
    }
    var item := st.GetString(k);
    v, wrong := if item.None? then [] else item.value, false;
  }

  method HandleStrlen(st: Store, now: int, k: Bytes) returns (reply: Reply)
    requires Inv(st.parts)
    ensures reply == Strlen(View(st.parts, now), k)
  {
    var v, wrong := ReadCurrentString(st, now, k);
    reply := if wrong then Error(WrongType) else Int(|v|);
  }

  /** The half-open bounds of a GETRANGE. */
  function RangeBounds(strlen: int, start: int, end: int): (int, int)
    requires strlen > 0
  {
    if start < 0 && end < 0 && start > end then (0, 0)
    else
      var lo := Max(0, if start < 0 then strlen + start else start);
      var hi := Min(strlen - 1, Max(0, if end < 0 then strlen + end else end));
      if lo > hi then (0, 0) else (lo, hi + 1)
  }

  lemma RangeBoundsSelect(s: Bytes, start: int, end: int)
    requires s != []
    ensures var (lo, hi) := RangeBounds(|s|, start, end);
            0 <= lo <= hi <= |s| && s[lo..hi] == Substring(s, start, end)
  {
  }

  method HandleGetRange(st: Store, now: int, k: Bytes, startTok: Bytes, stopTok: Bytes) returns (reply: Reply)
    requires Inv(st.parts)
    ensures reply == GetRange(View(st.parts, now), k, startTok, stopTok)
  {
    var start := ParseInt(startTok);
    if start.None? {
      return Error(NotInteger);
    }
    var end := ParseInt(stopTok);
    if end.None? {
      return Error(NotInteger);
    }
    var cur, wrong := ReadCurrentString(st, now, k);
    if wrong {
      return Error(WrongType);
    }
    if |cur| == 0 {
      return Bulk([]);
    }
    RangeBoundsSelect(cur, start.value, end.value);
    var (lo, hi) := RangeBounds(|cur|, start.value, end.value);
    return Bulk(cur[lo..hi]);
  }

  /** Make k a String whatever it was; its value item is about to be written. */
  method ClaimAsString(st: Store, now: int, k: Bytes)
    requires Inv(st.parts)
    modifies st
    ensures Only(old(st.parts), st.parts, k)
    ensures var m := st.Row(k).meta; m.Some? && m.value.t == StringT && m.value.cnt == 0
  {
    ghost var p := st.Row(k);
    OverwriteAnyType(st, k);
    ghost var q := st.Row(k);
    assert q == p || q == NOTHING;
    var ok := EnsureTypeExpiring(st, now, k, StringT);
    assert st.Row(k) == Claimed(q, StringT, now);
  }

  /** The tail of every plain string write: any type is overwritten, then the TTL is set or cleared. */
  method Overwrite(st: Store, now: int, k: Bytes, v: Bytes, exp: Option<int>)
    requires Inv(st.parts) && (exp.Some? ==> exp.value >= now > 0)
    modifies st
    ensures Inv(st.parts)
    ensures View(st.parts, now) == Put(old(View(st.parts, now)), now, k, Str(v), if exp.Some? then exp.value else 0)
  {
    ClaimAsString(st, now, k);
    st.SetString(k, v);
    var found;
    if exp.Some? {
      found := st.SetExpire(k, exp.value);
    } else {
      found := st.Persist(k);
    }
    assert Only(old(st.parts), st.parts, k);
    Commit(old(st.parts), k, st.Row(k), now);
  }

  /** The NX path: the single conditional claim decides, and stale items are reclaimed. */
  method SetIfAbsent(st: Store, now: int, k: Bytes, v: Bytes, exp: Option<int>) returns (created: bool)
    requires Inv(st.parts) && (exp.Some? ==> exp.value >= now > 0)
    modifies st
    ensures Inv(st.parts)
    ensures created <==> k !in old(View(st.parts, now))
    ensures !created ==> st.parts == old(st.parts)
    ensures created ==>
              View(st.parts, now) == Put(old(View(st.parts, now)), now, k, Str(v), if exp.Some? then exp.value else 0)
  {
    Observe(st.parts, k, now);
    created := st.CreateTypeIfAbsent(k, StringT, 0, now);
    if !created {
      return;
    }
    var reclaimed := st.DeleteMembers(k);
    st.SetString(k, v);
    if exp.Some? {
      var found := st.SetExpire(k, exp.value);
    }
    assert Only(old(st.parts), st.parts, k);
    Commit(old(st.parts), k, st.Row(k), now);
  }

  method HandleSet(st: Store, now: int, k: Bytes, v: Bytes, mode: Mode, span: Option<Span>) returns (reply: Reply)
    requires Inv(st.parts) && ClockOk(now) && (span.Some? ==> InInt64(span.value.n))
    modifies st
    ensures Done(st, now, reply, SetStr(old(View(st.parts, now)), now, k, v, mode, span))
  {
    if span.Some? && span.value.n <= 0 {
      return Error(InvalidExpire);
    }
    if !Fits(k, [], [v]) {
      return Error(TooLarge);
    }
    var exp := if span.Some? then Some(SpanEnd(now, span.value)) else None;
    if mode == IfAbsent {
      var created := SetIfAbsent(st, now, k, v, exp);
      return if created then Ok else Nil;
    }
    if mode == IfPresent {
      Observe(st.parts, k, now);
      var live := KeyLive(st, now, k);
      if !live {
        return Nil;
      }
    }
    Overwrite(st, now, k, v, exp);
    return Ok;
  }

  /** A claim that takes over an expired collection leaves its items behind, hidden by the String. */
  method HandleSetNX(st: Store, now: int, k: Bytes, v: Bytes) returns (reply: Reply)
    requires Inv(st.parts)
    modifies st
    ensures Done(st, now, reply, SetNX(old(View(st.parts, now)), now, k, v))
  {
    if !Fits(k, [], [v]) {
      return Error(TooLarge);
    }
    Observe(st.parts, k, now);
    var created := st.CreateTypeIfAbsent(k, StringT, 0, now);
    if !created {
      return Int(0);
    }
    st.SetString(k, v);
    assert Only(old(st.parts), st.parts, k);
    Commit(old(st.parts), k, st.Row(k), now);
    return Int(1);
  }

  method HandleSetEx(st: Store, now: int, k: Bytes, tok: Bytes, v: Bytes, millis: bool) returns (reply: Reply)
    requires Inv(st.parts) && ClockOk(now)
    modifies st
    ensures Done(st, now, reply, SetEx(old(View(st.parts, now)), now, k, tok, v, millis))
  {
    var n := ParseInt(tok);
    if n.None? {
      return Error(NotInteger);
    }
    if n.value <= 0 {
      return Error(InvalidExpire);
    }
    if !Fits(k, [], [v]) {
      return Error(TooLarge);
    }
    var exp := if millis then MsExpiryEpoch(now, n.value) else SecExpiryEpoch(now, n.value);
    Overwrite(st, now, k, v, Some(exp));
    return Ok;
  }

  method HandleGetSet(st: Store, now: int, k: Bytes, v: Bytes) returns (reply: Reply)
    requires Inv(st.parts)
    modifies st
    ensures Done(st, now, reply, GetSet(old(View(st.parts, now)), now, k, v))
  {
    if !Fits(k, [], [v]) {
      return Error(TooLarge);
    }
    Observe(st.parts, k, now);
    var ok := EnsureTypeExpiring(st, now, k, StringT);
    if !ok {
      return Error(WrongType);
    }
    var was := st.GetSetString(k, v);
    var found := st.Persist(k);
    assert Only(old(st.parts), st.parts, k);
    Commit(old(st.parts), k, st.Row(k), now);
    return if was.None? then Nil else Bulk(was.value);
  }

  // ----- Read-modify-write ----------------------------------------------------------------------

  datatype RmwResult = Wrote(n: nat, attempts: nat) | RmwWrongType | RmwTooLarge | RmwExhausted

  /**
   * The bounded compare-and-set loop, in a serial run: it never exhausts its retries, and it needs a
   * second attempt exactly when the key is an expired String, whose stale value item the takeover
   * removes between the read and the conditional write.
   */
  method RmwString(st: Store, now: int, k: Bytes, compute: Bytes -> Option<Bytes>) returns (r: RmwResult)
    requires Inv(st.parts)
    modifies st
    ensures Inv(st.parts)
    ensures var db := old(View(st.parts, now));
            var next := compute(StrAt(db, k));
            if Wrong(db, k, StringT) then r == RmwWrongType && st.parts == old(st.parts)
            else if next.None? then r == RmwTooLarge && st.parts == old(st.parts)
            else
              && r.Wrote? && r.n == |next.value|
              && View(st.parts, now) == Keep(db, now, k, Str(next.value))
    ensures r.Wrote? ==>
              var p := old(st.Row(k));
              r.attempts == if p.meta.Some? && !Live(p, now) && p.meta.value.t == StringT then 2 else 1
  {
    ghost var p, db := st.Row(k), View(st.parts, now);
    Observe(st.parts, k, now);
    ghost var staleString := p.meta.Some? && !Live(p, now) && p.meta.value.t == StringT;
    var attempt := 0;
    while attempt < MAX_RMW_RETRIES
      invariant 0 <= attempt <= (if staleString then 1 else 0)
      invariant attempt == 0 ==> st.parts == old(st.parts)
      invariant attempt == 1 ==> st.parts == old(st.parts)[k := Fresh(StringT)] && compute([]).Some?
    {
      var m := st.LoadMeta(k);
      var live := m.Some? && !Expired(m.value, now);
      var phys := st.GetString(k);
      if live && m.value.t != StringT {
        return RmwWrongType;
      }
      var base := if live && phys.Some? then phys.value else [];
      assert base == StrAt(db, k);
      var next := compute(base);
      if next.None? {
        return RmwTooLarge;
      }
      var ok := EnsureTypeExpiring(st, now, k, StringT);
      if !ok {
        return RmwWrongType;
      }
      var landed := st.SetStringIfEquals(k, next.value, phys);
      if landed {
        assert Only(old(st.parts), st.parts, k);
        Commit(old(st.parts), k, st.Row(k), now);
        return Wrote(|next.value|, attempt + 1);
      }
      assert st.parts == old(st.parts)[k := Fresh(StringT)];
      attempt := attempt + 1;
    }
    return RmwExhausted;
  }

  method HandleAppend(st: Store, now: int, k: Bytes, v: Bytes) returns (reply: Reply)
    requires Inv(st.parts)
    modifies st
    ensures Done(st, now, reply, Append(old(View(st.parts, now)), now, k, v))
  {
    var r := RmwString(st, now, k, base => if Fits(k, [], [base + v]) then Some(base + v) else None);
    reply := RmwReply(r);
  }

  function RmwReply(r: RmwResult): Reply {
    match r
    case Wrote(n, _) => Int(n)
    case RmwWrongType => Error(WrongType)
    case RmwTooLarge => Error(TooLarge)
    case RmwExhausted => Error(MaxRetries)
  }

  /** The buffer SETRANGE fills: zeros, then the old bytes, then the new ones from the offset. */
  function Filled(base: Bytes, offset: nat, v: Bytes): Bytes {
    seq(Max(|base|, offset + |v|), i requires i >= 0 =>
      if offset <= i < offset + |v| then v[i - offset] else if i < |base| then base[i] else 0)
  }

  lemma FilledIsOverwritten(base: Bytes, offset: nat, v: Bytes)
    ensures Filled(base, offset, v) == Overwritten(base, offset, v)
  {
  }

  method HandleSetRange(st: Store, now: int, k: Bytes, tok: Bytes, v: Bytes) returns (reply: Reply)
    requires Inv(st.parts)
    modifies st
    ensures Done(st, now, reply, SetRange(old(View(st.parts, now)), now, k, tok, v))
  {
    var parsed := ParseInt(tok);
    if parsed.None? {
      return Error(NotInteger);
    }
    var offset := parsed.value;
    if offset < 0 {
      return Error(OffsetOutOfRange);
    }
    if |v| == 0 {
      var cur, wrong := ReadCurrentString(st, now, k);
      return if wrong then Error(WrongType) else Int(|cur|);
    }
    FilledIsOverwritten(StrAt(View(st.parts, now), k), offset, v);
    var r := RmwString(st, now, k, base =>
      if offset > MAX_INT64 - |v| || |k| > MAX_NAME || Max(|base|, offset + |v|) > MAX_VALUE then None
      else Some(Filled(base, offset, v)));
    reply := RmwReply(r);
  }
}
