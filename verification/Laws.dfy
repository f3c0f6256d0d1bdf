/** Laws of the specified keyspace that hold of every command. */
module Laws {
  import opened Prelude
  import opened Expiry
  import opened Redis
  import opened Decimal

  /** The keys a command names. */
  function KeysOf(c: Command): set<Bytes> {
    match c
    case CDel(ks) => ToSet(ks)
    case CExists(ks) => ToSet(ks)
    case CSMove(src, dst, _) => {src, dst}
    case CSStore(_, dst, srcs) => {dst} + ToSet(srcs)
    case CRPopLPush(src, dst) => {src, dst}
    case CGet(k) => {k}
    case CStrlen(k) => {k}
    case CGetRange(k, _, _) => {k}
    case CLIndex(k, _) => {k}
    case CSet(k, _, _, _) => {k}
    case CSetNX(k, _) => {k}
    case CSetEx(k, _, _, _) => {k}
    case CGetSet(k, _) => {k}
    case CAppend(k, _) => {k}
    case CSetRange(k, _, _) => {k}
    case CIncr(k, _) => {k}
    case CIncrBy(k, _, _) => {k}
    case CHIncrBy(k, _, _) => {k}
    case CType(k) => {k}
    case CExpire(_, k, _) => {k}
    case CTtl(k, _) => {k}
    case CPersist(k) => {k}
    case CHSet(k, _) => {k}
    case CHSetNX(k, _, _) => {k}
    case CHGet(k, _) => {k}
    case CHDel(k, _) => {k}
    case CSAdd(k, _) => {k}
    case CSRem(k, _) => {k}
    case CSIsMember(k, _) => {k}
    case CPush(_, k, _) => {k}
    case CPushX(_, k, _) => {k}
    case CPop(_, k) => {k}
    case CLSet(k, _, _) => {k}
    case CLTrim(k, _, _) => {k}
    case CLRem(k, _, _) => {k}
    case CLInsert(k, _, _, _) => {k}
    case CCard(_, k) => {k}
  }

  /** The commands that may set or clear an expiry. */
  predicate ResetsExpiry(c: Command) {
    c.CSet? || c.CSetNX? || c.CSetEx? || c.CGetSet? || c.CExpire? || c.CPersist? || c.CSStore?
  }

  /** No empty collection and no key already due. */
  predicate Proper(db: Db, now: int) {
    forall k :: k in db ==> !Void(db[k].value) && !(0 < db[k].exp <= now)
  }

  /**
   * What every command keeps: keys it does not name are untouched; unless the command resets expiries,
   * the expiry of a surviving key is untouched and a new key has none; no empty or due key appears.
   */
  ghost predicate Lawful(db: Db, after: Db, now: int, keys: set<Bytes>, resets: bool) {
    && (forall k :: k !in keys ==> (k in after <==> k in db) && (k in db ==> after[k] == db[k]))
    && (forall k :: !resets && k in after ==> after[k].exp == ExpOf(db, k))
    && (Proper(db, now) ==> Proper(after, now))
  }

  lemma KeepIsLawful(db: Db, now: int, k: Bytes)
    ensures forall v: Value :: Lawful(db, Keep(db, now, k, v), now, {k}, false)
  {
  }

  lemma PutIsLawful(db: Db, now: int, k: Bytes)
    ensures forall v: Value, exp: int :: Lawful(db, Put(db, now, k, v, exp), now, {k}, true)
  {
  }

  lemma UnchangedIsLawful(db: Db, now: int, keys: set<Bytes>, resets: bool)
    ensures Lawful(db, db, now, keys, resets)
  {
  }

  lemma LawfulForMore(db: Db, after: Db, now: int, keys: set<Bytes>, more: set<Bytes>)
    requires Lawful(db, after, now, keys, true) && keys <= more
    ensures Lawful(db, after, now, more, true)
  {
  }

  lemma LawfulTwice(db: Db, between: Db, after: Db, now: int, k: Bytes, l: Bytes)
    requires Lawful(db, between, now, {k}, false) && Lawful(between, after, now, {l}, false)
    requires l in db && l !in between ==> l == k
    requires k != l
    ensures Lawful(db, after, now, {k, l}, false)
  {
  }

  lemma {:induction false} DelIsDifference(db: Db, ks: seq<Bytes>)
    ensures Del(db, ks).db == db - ToSet(ks)
    ensures Del(db, ks).reply == Int(|db.Keys * ToSet(ks)|)
  {
    hide ToSet;
    if ks == [] {
      DifferenceBase(db);
    } else {
      DelIsDifference(db - {ks[0]}, ks[1..]);
      DifferenceStep(db, ks);
    }
  }

  lemma DifferenceBase(db: Db)
    ensures db - ToSet([]) == db && db.Keys * ToSet([]) == {}
  {
  }

  lemma DifferenceStep(db: Db, ks: seq<Bytes>)
    requires ks != []
    ensures var rest := db - {ks[0]};
            && rest - ToSet(ks[1..]) == db - ToSet(ks)
            && |db.Keys * ToSet(ks)| == (if ks[0] in db then 1 else 0) + |rest.Keys * ToSet(ks[1..])|
  {
    hide ToSet;
    var head, tail := ks[0], ToSet(ks[1..]);
    ToSetStep(ks);
    MapStep(db, head, tail);
    CountStep(db.Keys, head, tail);
  }

  lemma ToSetStep(ks: seq<Bytes>)
    requires ks != []
    ensures ToSet(ks) == {ks[0]} + ToSet(ks[1..])
  {
  }

  lemma MapStep(db: Db, x: Bytes, t: set<Bytes>)
    ensures db - {x} - t == db - ({x} + t)
    ensures (db - {x}).Keys == db.Keys - {x}
  {
  }

  lemma CountStep(s: set<Bytes>, x: Bytes, t: set<Bytes>)
    ensures |s * ({x} + t)| == (if x in s then 1 else 0) + |(s - {x}) * t|
  {
    if x in s {
      assert s * ({x} + t) == {x} + (s - {x}) * t;
    } else {
      assert s * ({x} + t) == (s - {x}) * t;
    }
  }

  ghost predicate Obeys(db: Db, now: int, c: Command)
    requires ArityOk(c)
  {
    Lawful(db, Apply(db, now, c).db, now, KeysOf(c), ResetsExpiry(c))
  }

  lemma StringsObey(db: Db, now: int, c: Command)
    requires ArityOk(c) && OnStrings(c)
    ensures Obeys(db, now, c)
  {
    hide Lawful, Keep, Put, Fits, IntOf, SpanEnd, Overwritten, GetRange, Render;
    UnchangedIsLawful(db, now, KeysOf(c), ResetsExpiry(c));
    KeepIsLawful(db, now, c.k);
    PutIsLawful(db, now, c.k);
  }

  lemma KeysObey(db: Db, now: int, c: Command)
    requires ArityOk(c) && OnKeys(c)
    ensures Obeys(db, now, c)
  {
    hide Lawful, Del, Exists, Type, Expire, Ttl, Redis.Persist, ToSet;
    if c.CDel? {
      DelObeys(db, now, c.ks);
    } else if c.CExpire? {
      ExpireObeys(db, now, c.form, c.k, c.tok);
    } else if c.CPersist? {
      PersistObeys(db, now, c.k);
    } else {
      UnchangedIsLawful(db, now, KeysOf(c), false);
    }
  }

  lemma DelObeys(db: Db, now: int, ks: seq<Bytes>)
    ensures Lawful(db, Del(db, ks).db, now, ToSet(ks), false)
  {
    hide ToSet, Del;
    DelIsDifference(db, ks);
    RemovingIsLawful(db, now, ToSet(ks));
  }

  lemma RemovingIsLawful(db: Db, now: int, keys: set<Bytes>)
    ensures Lawful(db, db - keys, now, keys, false)
  {
  }

  lemma PersistObeys(db: Db, now: int, k: Bytes)
    ensures Lawful(db, Redis.Persist(db, k).db, now, {k}, true)
  {
  }

  lemma ExpireObeys(db: Db, now: int, form: Form, k: Bytes, tok: Bytes)
    ensures Lawful(db, Expire(db, now, form, k, tok).db, now, {k}, true)
  {
  }

  lemma HashesObey(db: Db, now: int, c: Command)
    requires ArityOk(c) && OnHashes(c)
    ensures Obeys(db, now, c)
  {
    hide Lawful, HSet, HSetNX, HDel, HGet, Card, Redis.HIncrBy;
    if c.CHIncrBy? {
      HashCounterObeys(db, now, c.k, c.f, c.tok);
    } else if c.CHSet? {
      HashSetObeys(db, now, c.k, c.pairs);
    } else if c.CHSetNX? {
      HashSetNXObeys(db, now, c.k, c.f, c.v);
    } else if c.CHDel? {
      HashDelObeys(db, now, c.k, c.fs);
    } else {
      UnchangedIsLawful(db, now, {c.k}, false);
    }
  }

  lemma HashSetObeys(db: Db, now: int, k: Bytes, pairs: seq<Bytes>)
    ensures Lawful(db, HSet(db, now, k, pairs).db, now, {k}, false)
  {
    hide Lawful, Keep, Fits, HashAt, PairMap, Evens, Odds, Wrong;
    UnchangedIsLawful(db, now, {k}, false);
    KeepIsLawful(db, now, k);
  }

  lemma HashSetNXObeys(db: Db, now: int, k: Bytes, f: Bytes, v: Bytes)
    ensures Lawful(db, HSetNX(db, now, k, f, v).db, now, {k}, false)
  {
    hide Lawful, Keep, Fits, HashAt, Wrong;
    UnchangedIsLawful(db, now, {k}, false);
    KeepIsLawful(db, now, k);
  }

  lemma HashDelObeys(db: Db, now: int, k: Bytes, fs: seq<Bytes>)
    ensures Lawful(db, HDel(db, now, k, fs).db, now, {k}, false)
  {
    hide Lawful, Keep, HashAt, ToSet, Wrong;
    UnchangedIsLawful(db, now, {k}, false);
    KeepIsLawful(db, now, k);
  }

  lemma HashCounterObeys(db: Db, now: int, k: Bytes, f: Bytes, tok: Bytes)
    ensures Lawful(db, HIncrBy(db, now, k, f, tok).db, now, {k}, false)
  {
    hide Lawful, Keep, Fits, HashAt, Wrong, IntOf, Render;
    UnchangedIsLawful(db, now, {k}, false);
    KeepIsLawful(db, now, k);
  }

  lemma SetsObey(db: Db, now: int, c: Command)
    requires ArityOk(c) && OnSets(c)
    ensures Obeys(db, now, c)
  {
    hide Lawful, SAdd, SRem, SIsMember, SMove, SStore, ToSet;
    if c.CSStore? {
      StoreObeys(db, now, c.op, c.dst, c.srcs);
    } else if c.CSMove? {
      MoveObeys(db, now, c.src, c.dst, c.m);
    } else if c.CSIsMember? {
      UnchangedIsLawful(db, now, {c.k}, false);
    } else {
      MembersObey(db, now, c.k, c.ms);
    }
  }

  lemma MembersObey(db: Db, now: int, k: Bytes, ms: seq<Bytes>)
    ensures Lawful(db, SAdd(db, now, k, ms).db, now, {k}, false)
    ensures Lawful(db, SRem(db, now, k, ms).db, now, {k}, false)
  {
    hide Lawful, Keep, Fits, SetAt, ToSet, Wrong;
    UnchangedIsLawful(db, now, {k}, false);
    KeepIsLawful(db, now, k);
  }

  lemma StoreObeys(db: Db, now: int, op: SetOp, dst: Bytes, srcs: seq<Bytes>)
    requires |srcs| > 0
    ensures Lawful(db, SStore(db, now, op, dst, srcs).db, now, {dst} + ToSet(srcs), true)
  {
    hide Lawful, Put, Load, Algebra, ToSet;
    var all := {dst} + ToSet(srcs);
    UnchangedIsLawful(db, now, all, true);
    PutIsLawful(db, now, dst);
    var after := SStore(db, now, op, dst, srcs).db;
    if after != db {
      LawfulForMore(db, after, now, {dst}, all);
    }
  }

  lemma MoveObeys(db: Db, now: int, src: Bytes, dst: Bytes, m: Bytes)
    ensures Lawful(db, SMove(db, now, src, dst, m).db, now, {src, dst}, false)
  {
    UnchangedIsLawful(db, now, {src, dst}, false);
    if src != dst {
      var without := Keep(db, now, src, Set(SetAt(db, src) - {m}));
      KeepIsLawful(db, now, src);
      KeepIsLawful(without, now, dst);
      LawfulTwice(db, without, Keep(without, now, dst, Set(SetAt(db, dst) + {m})), now, src, dst);
    }
  }

  lemma ListsObey(db: Db, now: int, c: Command)
    requires ArityOk(c) && OnLists(c)
    ensures Obeys(db, now, c)
  {
    hide Lawful, Keep, Fits, Wrong, RPopLPush, LIndex, LSet, LTrim, LRem, LInsert, Pushed;
    UnchangedIsLawful(db, now, KeysOf(c), ResetsExpiry(c));
    if c.CRPopLPush? {
      RotationObeys(db, now, c.src, c.dst);
    } else if c.CLSet? || c.CLTrim? || c.CLRem? || c.CLInsert? {
      RewritesObey(db, now, c);
    } else {
      KeepIsLawful(db, now, c.k);
    }
  }

  lemma RewritesObey(db: Db, now: int, c: Command)
    requires c.CLSet? || c.CLTrim? || c.CLRem? || c.CLInsert?
    ensures Obeys(db, now, c)
  {
    hide Lawful, Keep, Fits, Wrong, IntOf, Window, Removed, IndexOf, Inserted;
    UnchangedIsLawful(db, now, {c.k}, false);
    KeepIsLawful(db, now, c.k);
  }

  lemma RotationObeys(db: Db, now: int, src: Bytes, dst: Bytes)
    ensures Lawful(db, RPopLPush(db, now, src, dst).db, now, {src, dst}, false)
  {
    UnchangedIsLawful(db, now, {src, dst}, false);
    KeepIsLawful(db, now, src);
    var l := ListAt(db, src);
    if l != [] && src != dst {
      var popped := Keep(db, now, src, List(l[..|l| - 1]));
      KeepIsLawful(popped, now, dst);
      LawfulTwice(db, popped, Keep(popped, now, dst, List([l[|l| - 1]] + ListAt(db, dst))), now, src, dst);
    }
  }

  /** Every command is lawful: its frame, the expiries it leaves alone, and a proper keyspace. */
  lemma EveryCommandObeys(db: Db, now: int, c: Command)
    requires ArityOk(c)
    ensures Lawful(db, Apply(db, now, c).db, now, KeysOf(c), ResetsExpiry(c))
  {
    hide Apply, Lawful;
    if OnStrings(c) {
      StringsObey(db, now, c);
    } else if OnKeys(c) {
      KeysObey(db, now, c);
    } else if OnHashes(c) {
      HashesObey(db, now, c);
    } else if OnSets(c) {
      SetsObey(db, now, c);
    } else {
      ListsObey(db, now, c);
    }
  }

  /** A command that answers an error changes nothing. */
  lemma ErrorsChangeNothing(db: Db, now: int, c: Command)
    requires ArityOk(c) && Apply(db, now, c).reply.Error?
    ensures Apply(db, now, c).db == db
  {
    hide Apply;
    if OnStrings(c) {
      StringErrors(db, now, c);
    } else if OnKeys(c) {
      KeyErrors(db, now, c);
    } else if OnHashes(c) {
      HashErrors(db, now, c);
    } else if OnSets(c) {
      SetErrors(db, now, c);
    } else {
      ListErrors(db, now, c);
    }
  }

  lemma StringErrors(db: Db, now: int, c: Command)
    requires OnStrings(c) && ArityOk(c) && Apply(db, now, c).reply.Error?
    ensures Apply(db, now, c).db == db
  {
    hide Keep, Put, Fits, IntOf, StrAt, Overwritten, Wrong, Get, Strlen, GetRange;
  }

  lemma KeyErrors(db: Db, now: int, c: Command)
    requires OnKeys(c) && ArityOk(c) && Apply(db, now, c).reply.Error?
    ensures Apply(db, now, c).db == db
  {
    hide Del, Exists, Type, Ttl, Expire, Redis.Persist;
    if c.CDel? {
      DelCounts(db, c.ks);
    } else if c.CExpire? {
      ExpireErrors(db, now, c.form, c.k, c.tok);
    } else if c.CPersist? {
      PersistAnswers(db, c.k);
    }
  }

  lemma DelCounts(db: Db, ks: seq<Bytes>)
    ensures Del(db, ks).reply.Int?
  {
  }

  lemma ExpireErrors(db: Db, now: int, form: Form, k: Bytes, tok: Bytes)
    requires Expire(db, now, form, k, tok).reply.Error?
    ensures Expire(db, now, form, k, tok).db == db
  {
  }

  lemma PersistAnswers(db: Db, k: Bytes)
    ensures Redis.Persist(db, k).reply.Int?
  {
  }

  lemma HashErrors(db: Db, now: int, c: Command)
    requires OnHashes(c) && ArityOk(c) && Apply(db, now, c).reply.Error?
    ensures Apply(db, now, c).db == db
  {
    hide Keep, Fits, IntOf, HashAt, PairMap, Evens, Odds, Wrong, HGet, Card, ToSet;
  }

  lemma SetErrors(db: Db, now: int, c: Command)
    requires OnSets(c) && ArityOk(c) && Apply(db, now, c).reply.Error?
    ensures Apply(db, now, c).db == db
  {
    hide Keep, Put, Fits, SetAt, ToSet, Load, Algebra, Wrong, SIsMember;
  }

  lemma ListErrors(db: Db, now: int, c: Command)
    requires OnLists(c) && ArityOk(c) && Apply(db, now, c).reply.Error?
    ensures Apply(db, now, c).db == db
  {
    hide LSet, LTrim, LRem, LInsert, LIndex, Keep, Fits, ListAt, Wrong, Pushed;
    if c.CLSet? || c.CLTrim? || c.CLRem? || c.CLInsert? {
      RewriteErrors(db, now, c);
    }
  }

  lemma RewriteErrors(db: Db, now: int, c: Command)
    requires (c.CLSet? || c.CLTrim? || c.CLRem? || c.CLInsert?) && Apply(db, now, c).reply.Error?
    ensures Apply(db, now, c).db == db
  {
    hide Keep, Fits, IntOf, ListAt, Wrong, Window, Removed, Inserted, IndexOf;
  }

  // ----- Runs in parts --------------------------------------------------------------------------

  predicate AllArityOk(trace: seq<Request>) {
    forall i :: 0 <= i < |trace| ==> ArityOk(trace[i].cmd)
  }

  /** One request answers what its command does to the keys still alive. */
  lemma ServeOne(db: Db, r: Request)
    requires ArityOk(r.cmd)
    ensures var o := Apply(Purge(db, r.now), r.now, r.cmd);
            Serve(db, [r]) == Run(o.db, [o.reply])
  {
    hide Apply;
    assert [r][1..] == [];
  }

  /** Serving a run in two parts gives the same keyspace and the replies in the order of the requests. */
  lemma {:induction false} ServeInOrder(db: Db, first: seq<Request>, more: seq<Request>)
    requires AllArityOk(first) && AllArityOk(more)
    ensures AllArityOk(first + more)
    ensures var a := Serve(db, first);
            var b := Serve(a.db, more);
            Serve(db, first + more) == Run(b.db, a.replies + b.replies)
    decreases |first|
  {
    hide Apply;
    if first == [] {
      assert first + more == more;
    } else {
      var r := first[0];
      assert (first + more)[1..] == first[1..] + more;
      ServeInOrder(Apply(Purge(db, r.now), r.now, r.cmd).db, first[1..], more);
    }
  }

  // ----- Expiry over runs -----------------------------------------------------------------------

  predicate OnlyReads(c: Command) {
    || c.CGet? || c.CStrlen? || c.CGetRange? || c.CExists? || c.CType? || c.CTtl?
    || c.CHGet? || c.CSIsMember? || c.CLIndex? || c.CCard?
  }

  /** No command of the run that names the key may reset its expiry. */
  predicate NeverReset(k: Bytes, trace: seq<Request>) {
    forall i :: 0 <= i < |trace| && k in KeysOf(trace[i].cmd) ==> !ResetsExpiry(trace[i].cmd)
  }

  /** Every command of the run that names the key only reads. */
  predicate NeverWritten(k: Bytes, trace: seq<Request>) {
    forall i :: 0 <= i < |trace| && k in KeysOf(trace[i].cmd) ==> OnlyReads(trace[i].cmd)
  }

  lemma {:induction false} StaysWithoutExpiry(db: Db, trace: seq<Request>, k: Bytes)
    requires AllArityOk(trace) && NeverReset(k, trace) && ExpOf(db, k) == 0
    ensures ExpOf(Serve(db, trace).db, k) == 0
    decreases |trace|
  {
    hide Apply, KeysOf, ResetsExpiry;
    if trace != [] {
      var r := trace[0];
      EveryCommandObeys(Purge(db, r.now), r.now, r.cmd);
      StaysWithoutExpiry(Apply(Purge(db, r.now), r.now, r.cmd).db, trace[1..], k);
    }
  }

  lemma {:induction false} StaysUnwritten(db: Db, trace: seq<Request>, k: Bytes)
    requires AllArityOk(trace) && NeverWritten(k, trace) && k in db && db[k].exp == 0
    ensures k in Serve(db, trace).db && Serve(db, trace).db[k] == db[k]
    decreases |trace|
  {
    hide Apply, KeysOf, OnlyReads;
    if trace != [] {
      var r := trace[0];
      var live := Purge(db, r.now);
      EveryCommandObeys(live, r.now, r.cmd);
      if OnlyReads(r.cmd) {
        ReadsLeaveAll(live, r.now, r.cmd);
      }
      StaysUnwritten(Apply(live, r.now, r.cmd).db, trace[1..], k);
    }
  }

  lemma ReadsLeaveAll(db: Db, now: int, c: Command)
    requires ArityOk(c) && OnlyReads(c)
    ensures Apply(db, now, c).db == db
  {
    hide Get, Strlen, GetRange, Exists, Type, Ttl, HGet, SIsMember, LIndex, Card;
  }

  /** SET without an expiry option, or GETSET, that succeeds. */
  ghost predicate Overwrites(db: Db, r: Request, k: Bytes, v: Bytes) {
    || (r.cmd.CSet? && r.cmd.k == k && r.cmd.v == v && r.cmd.span.None? && Apply(db, r.now, r.cmd).reply == Ok)
    || (r.cmd.CGetSet? && r.cmd.k == k && r.cmd.v == v && !Apply(db, r.now, r.cmd).reply.Error?)
  }

  lemma OverwriteStores(db: Db, r: Request, k: Bytes, v: Bytes)
    requires Overwrites(db, r, k, v)
    ensures Apply(db, r.now, r.cmd).db == db[k := Entry(Str(v), 0)]
  {
  }

  /**
   * A plain SET or a GETSET clears the expiry for good. Whatever is served afterwards and however late
   * it is, as long as no command that resets expiries names the key, TTL answers -1 or finds no key;
   * and while commands naming the key only read, it is there with that value.
   */
  lemma OverwriteClearsExpiry(db: Db, r: Request, rest: seq<Request>, k: Bytes, v: Bytes, now: int, millis: bool)
    requires Overwrites(Purge(db, r.now), r, k, v) && AllArityOk(rest)
    ensures ArityOk(r.cmd) && AllArityOk([r] + rest)
    ensures var end := Purge(Serve(db, [r] + rest).db, now);
            && (NeverReset(k, rest) ==> Ttl(end, now, k, millis) == Int(if k in end then -1 else -2))
            && (NeverWritten(k, rest) ==> k in end && end[k] == Entry(Str(v), 0))
  {
    hide Apply, KeysOf, OnlyReads, ResetsExpiry;
    OverwriteStores(Purge(db, r.now), r, k, v);
    assert ArityOk(r.cmd);
    assert ([r] + rest)[0] == r && ([r] + rest)[1..] == rest;
    var after := Apply(Purge(db, r.now), r.now, r.cmd).db;
    if NeverReset(k, rest) {
      StaysWithoutExpiry(after, rest, k);
    }
    if NeverWritten(k, rest) {
      StaysUnwritten(after, rest, k);
    }
  }

  /** SMOVE neither loses nor invents members, whichever keys it is given. */
  lemma MoveConservesMembers(db: Db, now: int, src: Bytes, dst: Bytes, m: Bytes)
    requires Proper(db, now) && SMove(db, now, src, dst, m).reply == Int(1)
    ensures var after := SMove(db, now, src, dst, m).db;
            && SetAt(after, src) + SetAt(after, dst) == SetAt(db, src) + SetAt(db, dst)
            && m in SetAt(after, dst)
            && (src != dst ==> m !in SetAt(after, src))
  {
  }

  /** RPOPLPUSH moves one element: nothing is lost, duplicated or reordered on either side. */
  lemma RotationConservesElements(db: Db, now: int, src: Bytes, dst: Bytes)
    requires Proper(db, now) && RPopLPush(db, now, src, dst).reply.Bulk?
    ensures var after := RPopLPush(db, now, src, dst).db;
            && ListAt(after, dst) != []
            && RPopLPush(db, now, src, dst).reply == Bulk(ListAt(after, dst)[0])
            && (src != dst ==>
                 && ListAt(after, src) + [ListAt(after, dst)[0]] == ListAt(db, src)
                 && ListAt(after, dst)[1..] == ListAt(db, dst))
            && (src == dst ==> ListAt(after, src)[1..] + [ListAt(after, src)[0]] == ListAt(db, src))
  {
  }
}
