/** DEL, EXISTS, TYPE, the EXPIRE family, TTL/PTTL and PERSIST. */
module KeyCommands {
  import opened Prelude
  import opened Decimal
  import opened Expiry
  import opened Redis
  import opened Table
  import opened Storage
  import opened Seam

  /** Remove one key; an expired key is reclaimed but does not count as live. */
  method DelOne(st: Store, now: int, k: Bytes) returns (live: bool)
    requires Inv(st.parts)
    modifies st
    ensures Inv(st.parts) && View(st.parts, now) == old(View(st.parts, now)) - {k}
    ensures live <==> k in old(View(st.parts, now))
  {
    Observe(st.parts, k, now);
    Commit(st.parts, k, NOTHING, now);
    var m := st.LoadMeta(k);
    live := m.Some? && !Expired(m.value, now);
    var existed := DeleteMeta(st, k);
  }

  method HandleDel(st: Store, now: int, ks: seq<Bytes>) returns (reply: Reply)
    requires Inv(st.parts)
    modifies st
    ensures Done(st, now, reply, Del(old(View(st.parts, now)), ks))
  {
    ghost var o := Del(View(st.parts, now), ks);
    var deleted := 0;
    assert ks[0..] == ks;
    for i := 0 to |ks|
      invariant Inv(st.parts)
      invariant var rest := Del(View(st.parts, now), ks[i..]);
                o == Outcome(rest.db, Int(deleted + rest.reply.n))
    {
      assert ks[i..][0] == ks[i] && ks[i..][1..] == ks[i + 1..];
      var live := DelOne(st, now, ks[i]);
      if live {
        deleted := deleted + 1;
      }
    }
    return Int(deleted);
  }

  method HandleExists(st: Store, now: int, ks: seq<Bytes>) returns (reply: Reply)
    requires Inv(st.parts)
    ensures reply == Int(Exists(View(st.parts, now), ks))
  {
    var count := 0;
    assert ks[0..] == ks;
    for i := 0 to |ks|
      invariant Exists(View(st.parts, now), ks) == count + Exists(View(st.parts, now), ks[i..])
    {
      assert ks[i..][1..] == ks[i + 1..];
      Observe(st.parts, ks[i], now);
      var live := KeyLive(st, now, ks[i]);
      if live {
        count := count + 1;
      }
    }
    return Int(count);
  }

  method HandleType(st: Store, now: int, k: Bytes) returns (reply: Reply)
    requires Inv(st.parts)
    ensures reply == Type(View(st.parts, now), k)
  {
    Observe(st.parts, k, now);
    var m := st.LoadMeta(k);
    reply := TypeName(if m.None? || Expired(m.value, now) then None else Some(m.value.t));
  }

  /** A resolved expiry that is not in the future deletes the key; otherwise it is recorded. */
  method HandleExpire(st: Store, now: int, form: Form, k: Bytes, tok: Bytes) returns (reply: Reply)
    requires Inv(st.parts) && ClockOk(now)
    modifies st
    ensures Done(st, now, reply, Expire(old(View(st.parts, now)), now, form, k, tok))
  {
    var arg := ParseInt(tok);
    if arg.None? {
      return Error(NotInteger);
    }
    Observe(st.parts, k, now);
    var live := KeyLive(st, now, k);
    if !live {
      return Int(0);
    }
    var exp := Resolve(form, now, arg.value);
    if exp <= now {
      Commit(st.parts, k, NOTHING, now);
      var existed := DeleteMeta(st, k);
      return Int(1);
    }
    var found := st.SetExpire(k, exp);
    assert Only(old(st.parts), st.parts, k);
    Commit(old(st.parts), k, st.Row(k), now);
    return Int(if found then 1 else 0);
  }

  method HandleTtl(st: Store, now: int, k: Bytes, millis: bool) returns (reply: Reply)
    requires Inv(st.parts)
    ensures reply == Ttl(View(st.parts, now), now, k, millis)
  {
    Observe(st.parts, k, now);
    var m := st.LoadMeta(k);
    if m.None? || Expired(m.value, now) {
      return Int(-2);
    }
    if m.value.exp == 0 {
      return Int(-1);
    }
    var remaining := m.value.exp - now;
    if millis {
      remaining := remaining * 1000;
    }
    return Int(remaining);
  }

  method HandlePersist(st: Store, now: int, k: Bytes) returns (reply: Reply)
    requires Inv(st.parts)
    modifies st
    ensures Done(st, now, reply, Redis.Persist(old(View(st.parts, now)), k))
  {
    Observe(st.parts, k, now);
    var m := st.LoadMeta(k);
    if m.None? || Expired(m.value, now) || m.value.exp == 0 {
      return Int(0);
    }
    var found := st.Persist(k);
    assert Only(old(st.parts), st.parts, k);
    Commit(old(st.parts), k, st.Row(k), now);
    return Int(1);
  }
}
