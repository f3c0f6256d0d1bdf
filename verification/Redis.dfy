/** The specification: a plain Redis keyspace, a map from key to typed value and optional expiry. */
module Redis {
  import opened Prelude
  import opened Decimal
  import opened Expiry

  datatype KeyType = StringT | HashT | ListT | SetT

  datatype Value =
    | Str(s: Bytes)
    | Hash(h: map<Bytes, Bytes>)
    | List(l: seq<Bytes>)
    | Set(m: set<Bytes>)

  /** A live key's value; expiry 0 means it never expires. */
  datatype Entry = Entry(value: Value, exp: int)

  type Db = map<Bytes, Entry>

  datatype Err =
    | WrongType | NotInteger | TooLarge | InvalidExpire | OffsetOutOfRange
    | IndexOutOfRange | NoSuchKey | OddArguments | Syntax | MaxRetries | Overflow | HashNotInteger

  datatype Reply = Ok | Int(n: int) | Bulk(b: Bytes) | Nil | Error(e: Err) | TypeName(t: Option<KeyType>)

  datatype Outcome = Outcome(db: Db, reply: Reply)

  // ----- Size limits ----------------------------------------------------------------------------

  const MAX_NAME := 1024
  const MAX_MEMBER := 1023
  const MAX_VALUE := 390 * 1024

  predicate Fits(key: Bytes, names: seq<Bytes>, values: seq<Bytes>) {
    && |key| <= MAX_NAME
    && (forall i :: 0 <= i < |names| ==> |names[i]| <= MAX_MEMBER)
    && (forall i :: 0 <= i < |values| ==> |values[i]| <= MAX_VALUE)
  }

  // ----- Lookups and updates --------------------------------------------------------------------

  function TypeOf(v: Value): KeyType {
    match v
    case Str(_) => StringT
    case Hash(_) => HashT
    case List(_) => ListT
    case Set(_) => SetT
  }

  /** An empty collection does not exist. */
  predicate Void(v: Value) {
    match v
    case Str(_) => false
    case Hash(h) => h == map[]
    case List(l) => l == []
    case Set(m) => m == {}
  }

  predicate Wrong(db: Db, k: Bytes, t: KeyType) {
    k in db && TypeOf(db[k].value) != t
  }

  function ExpOf(db: Db, k: Bytes): int {
    if k in db then db[k].exp else 0
  }

  function StrAt(db: Db, k: Bytes): Bytes {
    if k in db && db[k].value.Str? then db[k].value.s else []
  }

  function HashAt(db: Db, k: Bytes): map<Bytes, Bytes> {
    if k in db && db[k].value.Hash? then db[k].value.h else map[]
  }

  function ListAt(db: Db, k: Bytes): seq<Bytes> {
    if k in db && db[k].value.List? then db[k].value.l else []
  }

  function SetAt(db: Db, k: Bytes): set<Bytes> {
    if k in db && db[k].value.Set? then db[k].value.m else {}
  }

  /** Store a value; a collection left empty is deleted, and so is a key already due. */
  function Put(db: Db, now: int, k: Bytes, v: Value, exp: int): Db {
    if Void(v) || (0 < exp <= now) then db - {k} else db[k := Entry(v, exp)]
  }

  /** Update in place: the key's expiry, if any, is kept. */
  function Keep(db: Db, now: int, k: Bytes, v: Value): Db {
    Put(db, now, k, v, ExpOf(db, k))
  }

  /** Time passes: every key that is due disappears. */
  function Purge(db: Db, now: int): Db {
    map k | k in db && !(0 < db[k].exp <= now) :: db[k]
  }

  // ----- Indices --------------------------------------------------------------------------------

  /** A negative index counts from the end. */
  function FromEnd(n: nat, i: int): int {
    if i < 0 then i + n else i
  }

  /** The elements at the indices from start to stop inclusive. */
  function Window<T>(l: seq<T>, start: int, stop: int): seq<T> {
    var lo := Max(0, FromEnd(|l|, start));
    var hi := Min(|l|, FromEnd(|l|, stop) + 1);
    if lo < hi then l[lo..hi] else []
  }

  // ----- Strings --------------------------------------------------------------------------------

  ghost function Get(db: Db, k: Bytes): Reply {
    if Wrong(db, k, StringT) then Error(WrongType) else if k in db then Bulk(StrAt(db, k)) else Nil
  }

  ghost function Strlen(db: Db, k: Bytes): Reply {
    if Wrong(db, k, StringT) then Error(WrongType) else Int(|StrAt(db, k)|)
  }

  /**
   * The bytes from start to stop inclusive. A stop before the first byte counts as the first one, unless
   * both ends are negative and out of order.
   */
  function Substring(s: Bytes, start: int, stop: int): Bytes {
    if s != [] && FromEnd(|s|, start) <= 0 && FromEnd(|s|, stop) < 0 && !(stop < start < 0) then s[..1]
    else Window(s, start, stop)
  }

  ghost function GetRange(db: Db, k: Bytes, startTok: Bytes, stopTok: Bytes): Reply {
    if IntOf(startTok).None? || IntOf(stopTok).None? then Error(NotInteger)
    else if Wrong(db, k, StringT) then Error(WrongType)
    else Bulk(Substring(StrAt(db, k), IntOf(startTok).value, IntOf(stopTok).value))
  }

  datatype Mode = Always | IfAbsent | IfPresent

  datatype Span = Seconds(n: int) | Millis(n: int)

  function SpanEnd(now: int, s: Span): int {
    match s
    case Seconds(n) => SecExpiryEpoch(now, n)
    case Millis(n) => MsExpiryEpoch(now, n)
  }

  ghost function SetStr(db: Db, now: int, k: Bytes, v: Bytes, mode: Mode, span: Option<Span>): Outcome {
    if span.Some? && span.value.n <= 0 then Outcome(db, Error(InvalidExpire))
    else if !Fits(k, [], [v]) then Outcome(db, Error(TooLarge))
    else if (mode.IfAbsent? && k in db) || (mode.IfPresent? && k !in db) then Outcome(db, Nil)
    else Outcome(Put(db, now, k, Str(v), if span.Some? then SpanEnd(now, span.value) else 0), Ok)
  }

  ghost function SetNX(db: Db, now: int, k: Bytes, v: Bytes): Outcome {
    if !Fits(k, [], [v]) then Outcome(db, Error(TooLarge))
    else if k in db then Outcome(db, Int(0))
    else Outcome(Put(db, now, k, Str(v), 0), Int(1))
  }

  ghost function SetEx(db: Db, now: int, k: Bytes, tok: Bytes, v: Bytes, millis: bool): Outcome {
    match IntOf(tok)
    case None => Outcome(db, Error(NotInteger))
    case Some(n) => SetStr(db, now, k, v, Always, Some(if millis then Millis(n) else Seconds(n)))
  }

  ghost function GetSet(db: Db, now: int, k: Bytes, v: Bytes): Outcome {
    if !Fits(k, [], [v]) then Outcome(db, Error(TooLarge))
    else if Wrong(db, k, StringT) then Outcome(db, Error(WrongType))
    else Outcome(Put(db, now, k, Str(v), 0), if k in db then Bulk(StrAt(db, k)) else Nil)
  }

  ghost function Append(db: Db, now: int, k: Bytes, v: Bytes): Outcome {
    var s := StrAt(db, k) + v;
    if Wrong(db, k, StringT) then Outcome(db, Error(WrongType))
    else if !Fits(k, [], [s]) then Outcome(db, Error(TooLarge))
    else Outcome(Keep(db, now, k, Str(s)), Int(|s|))
  }

  function Zeros(n: int): Bytes {
    seq(Max(0, n), i => 0)
  }

  /** Overwrite from an offset: pad with zero bytes up to it, keep what lies past the new bytes. */
  function Overwritten(base: Bytes, offset: nat, v: Bytes): Bytes {
    var padded := base + Zeros(offset + |v| - |base|);
    padded[..offset] + v + padded[offset + |v|..]
  }

  ghost function SetRange(db: Db, now: int, k: Bytes, tok: Bytes, v: Bytes): Outcome {
    match IntOf(tok)
    case None => Outcome(db, Error(NotInteger))
    case Some(offset) =>
      if offset < 0 then Outcome(db, Error(OffsetOutOfRange))
      else if v == [] then Outcome(db, Strlen(db, k))
      else if Wrong(db, k, StringT) then Outcome(db, Error(WrongType))
      else if |k| > MAX_NAME || Max(|StrAt(db, k)|, offset + |v|) > MAX_VALUE then
        Outcome(db, Error(TooLarge))
      else
        var s := Overwritten(StrAt(db, k), offset, v);
        Outcome(Keep(db, now, k, Str(s)), Int(|s|))
  }

  /** Add to the integer a key holds, an absent key counting as 0; the expiry is kept. */
  ghost function AddTo(db: Db, now: int, k: Bytes, delta: int): Outcome {
    if |k| > MAX_NAME then Outcome(db, Error(TooLarge))
    else if Wrong(db, k, StringT) then Outcome(db, Error(WrongType))
    else match (if k in db then IntOf(StrAt(db, k)) else Some(0))
      case None => Outcome(db, Error(NotInteger))
      case Some(n) =>
        if !InInt64(n + delta) then Outcome(db, Error(Overflow))
        else Outcome(Keep(db, now, k, Str(Render(n + delta))), Int(n + delta))
  }

  /** The int64 that is congruent modulo 2^64. */
  function Wrap64(n: int): (w: int)
    ensures InInt64(w)
  {
    var u := n % (MAX_UINT64 + 1);
    if u > MAX_INT64 then u - (MAX_UINT64 + 1) else u
  }

  /** DECRBY negates its argument in 64 bits. */
  function Negated(n: int): int {
    Wrap64(-n)
  }

  ghost function IncrBy(db: Db, now: int, k: Bytes, tok: Bytes, negate: bool): Outcome {
    match IntOf(tok)
    case None => Outcome(db, Error(NotInteger))
    case Some(n) => AddTo(db, now, k, if negate then Negated(n) else n)
  }

  // ----- Keys -----------------------------------------------------------------------------------

  function Del(db: Db, ks: seq<Bytes>): Outcome {
    if ks == [] then Outcome(db, Int(0))
    else
      var rest := Del(db - {ks[0]}, ks[1..]);
      Outcome(rest.db, Int((if ks[0] in db then 1 else 0) + rest.reply.n))
  }

  function Exists(db: Db, ks: seq<Bytes>): int {
    if ks == [] then 0 else (if ks[0] in db then 1 else 0) + Exists(db, ks[1..])
  }

  function Type(db: Db, k: Bytes): Reply {
    TypeName(if k in db then Some(TypeOf(db[k].value)) else None)
  }

  ghost function Expire(db: Db, now: int, form: Form, k: Bytes, tok: Bytes): Outcome {
    match IntOf(tok)
    case None => Outcome(db, Error(NotInteger))
    case Some(n) =>
      if k !in db then Outcome(db, Int(0))
      else if Resolve(form, now, n) <= now then Outcome(db - {k}, Int(1))
      else Outcome(db[k := db[k].(exp := Resolve(form, now, n))], Int(1))
  }

  function Ttl(db: Db, now: int, k: Bytes, millis: bool): Reply {
    if k !in db then Int(-2)
    else if db[k].exp == 0 then Int(-1)
    else Int((db[k].exp - now) * (if millis then 1000 else 1))
  }

  function Persist(db: Db, k: Bytes): Outcome {
    if k !in db || db[k].exp == 0 then Outcome(db, Int(0))
    else Outcome(db[k := db[k].(exp := 0)], Int(1))
  }

  // ----- Hashes ---------------------------------------------------------------------------------

  /** Field/value pairs as a map; the last value given for a field wins. */
  function PairMap(pairs: seq<Bytes>): map<Bytes, Bytes>
    requires |pairs| % 2 == 0
  {
    if pairs == [] then map[]
    else PairMap(pairs[..|pairs| - 2])[pairs[|pairs| - 2] := pairs[|pairs| - 1]]
  }

  function Evens(pairs: seq<Bytes>): seq<Bytes> {
    seq(|pairs| / 2, i requires 0 <= i < |pairs| / 2 => pairs[2 * i])
  }

  function Odds(pairs: seq<Bytes>): seq<Bytes> {
    seq(|pairs| / 2, i requires 0 <= i < |pairs| / 2 => pairs[2 * i + 1])
  }

  ghost function HSet(db: Db, now: int, k: Bytes, pairs: seq<Bytes>): Outcome {
    if |pairs| % 2 != 0 then Outcome(db, Error(OddArguments))
    else if !Fits(k, Evens(pairs), Odds(pairs)) then Outcome(db, Error(TooLarge))
    else if Wrong(db, k, HashT) then Outcome(db, Error(WrongType))
    else
      var h := HashAt(db, k);
      var h' := h + PairMap(pairs);
      Outcome(Keep(db, now, k, Hash(h')), Int(|h'| - |h|))
  }

  ghost function HSetNX(db: Db, now: int, k: Bytes, f: Bytes, v: Bytes): Outcome {
    if !Fits(k, [f], [v]) then Outcome(db, Error(TooLarge))
    else if Wrong(db, k, HashT) then Outcome(db, Error(WrongType))
    else if f in HashAt(db, k) then Outcome(db, Int(0))
    else Outcome(Keep(db, now, k, Hash(HashAt(db, k)[f := v])), Int(1))
  }

  ghost function HIncrBy(db: Db, now: int, k: Bytes, f: Bytes, tok: Bytes): Outcome {
    match IntOf(tok)
    case None => Outcome(db, Error(NotInteger))
    case Some(delta) =>
      var h := HashAt(db, k);
      if !Fits(k, [f], []) then Outcome(db, Error(TooLarge))
      else if Wrong(db, k, HashT) then Outcome(db, Error(WrongType))
      else match (if f in h then IntOf(h[f]) else Some(0))
        case None => Outcome(db, Error(HashNotInteger))
        case Some(n) =>
          if !InInt64(n + delta) then Outcome(db, Error(Overflow))
          else Outcome(Keep(db, now, k, Hash(h[f := Render(n + delta)])), Int(n + delta))
  }

  function HGet(db: Db, k: Bytes, f: Bytes): Reply {
    if Wrong(db, k, HashT) then Error(WrongType)
    else if f in HashAt(db, k) then Bulk(HashAt(db, k)[f]) else Nil
  }

  function ToSet(s: seq<Bytes>): set<Bytes> {
    set x | x in s
  }

  ghost function HDel(db: Db, now: int, k: Bytes, fs: seq<Bytes>): Outcome {
    if Wrong(db, k, HashT) then Outcome(db, Error(WrongType))
    else
      var h := HashAt(db, k);
      Outcome(Keep(db, now, k, Hash(h - ToSet(fs))), Int(|h.Keys * ToSet(fs)|))
  }

  // ----- Sets -----------------------------------------------------------------------------------

  ghost function SAdd(db: Db, now: int, k: Bytes, ms: seq<Bytes>): Outcome {
    if !Fits(k, ms, []) then Outcome(db, Error(TooLarge))
    else if Wrong(db, k, SetT) then Outcome(db, Error(WrongType))
    else Outcome(Keep(db, now, k, Set(SetAt(db, k) + ToSet(ms))), Int(|ToSet(ms) - SetAt(db, k)|))
  }

  ghost function SRem(db: Db, now: int, k: Bytes, ms: seq<Bytes>): Outcome {
    if Wrong(db, k, SetT) then Outcome(db, Error(WrongType))
    else Outcome(Keep(db, now, k, Set(SetAt(db, k) - ToSet(ms))), Int(|SetAt(db, k) * ToSet(ms)|))
  }

  function SIsMember(db: Db, k: Bytes, m: Bytes): Reply {
    if Wrong(db, k, SetT) then Error(WrongType) else Int(if m in SetAt(db, k) then 1 else 0)
  }

  /** Move a member. The destination's type matters only when the source is a live set. */
  ghost function SMove(db: Db, now: int, src: Bytes, dst: Bytes, m: Bytes): Outcome {
    if Wrong(db, src, SetT) then Outcome(db, Error(WrongType))
    else if src !in db then Outcome(db, Int(0))
    else if src == dst then Outcome(db, SIsMember(db, src, m))
    else if Wrong(db, dst, SetT) then Outcome(db, Error(WrongType))
    else if m !in SetAt(db, src) then Outcome(db, Int(0))
    else if |dst| > MAX_NAME then Outcome(db, Error(TooLarge))
    else
      var without := Keep(db, now, src, Set(SetAt(db, src) - {m}));
      Outcome(Keep(without, now, dst, Set(SetAt(db, dst) + {m})), Int(1))
  }

  datatype SetOp = Union | Inter | Diff

  datatype Operands = WrongOperand | EmptyOperand | Sets(ss: seq<set<Bytes>>)

  /** Operands are read in order; an intersection stops, unchecked, at the first empty one. */
  function Load(db: Db, op: SetOp, ks: seq<Bytes>): Operands {
    if ks == [] then Sets([])
    else if Wrong(db, ks[0], SetT) then WrongOperand
    else if op == Inter && SetAt(db, ks[0]) == {} then EmptyOperand
    else
      var rest := Load(db, op, ks[1..]);
      if rest.Sets? then Sets([SetAt(db, ks[0])] + rest.ss) else rest
  }

  predicate Selected(op: SetOp, ss: seq<set<Bytes>>, x: Bytes)
    requires |ss| > 0
  {
    match op
    case Union => exists i :: 0 <= i < |ss| && x in ss[i]
    case Inter => forall i :: 0 <= i < |ss| ==> x in ss[i]
    case Diff => x in ss[0] && forall i :: 1 <= i < |ss| ==> x !in ss[i]
  }

  predicate IsAlgebra(op: SetOp, ss: seq<set<Bytes>>, r: set<Bytes>)
    requires |ss| > 0
  {
    && (forall x :: x in r ==> Selected(op, ss, x))
    && (forall i, x :: 0 <= i < |ss| && x in ss[i] && Selected(op, ss, x) ==> x in r)
  }

  ghost function Algebra(op: SetOp, ss: seq<set<Bytes>>): (r: set<Bytes>)
    requires |ss| > 0
    ensures IsAlgebra(op, ss, r)
  {
    set i, x | 0 <= i < |ss| && x in ss[i] && Selected(op, ss, x) :: x
  }

  ghost function SStore(db: Db, now: int, op: SetOp, dst: Bytes, srcs: seq<Bytes>): Outcome
    requires |srcs| > 0
  {
    var loaded := Load(db, op, srcs);
    if loaded.WrongOperand? then Outcome(db, Error(WrongType))
    else if |dst| > MAX_NAME then Outcome(db, Error(TooLarge))
    else
      var r := if loaded.Sets? && |loaded.ss| > 0 then Algebra(op, loaded.ss) else {};
      Outcome(Put(db, now, dst, Set(r), 0), Int(|r|))
  }

  // ----- Lists ----------------------------------------------------------------------------------

  function Reversed(s: seq<Bytes>): seq<Bytes> {
    seq(|s|, i requires 0 <= i < |s| => s[|s| - 1 - i])
  }

  function Pushed(left: bool, l: seq<Bytes>, es: seq<Bytes>): (r: seq<Bytes>)
    ensures |r| == |l| + |es|
  {
    if left then Reversed(es) + l else l + es
  }

  ghost function Push(db: Db, now: int, left: bool, k: Bytes, es: seq<Bytes>): Outcome {
    var l := Pushed(left, ListAt(db, k), es);
    if Wrong(db, k, ListT) then Outcome(db, Error(WrongType))
    else if !Fits(k, [], es) then Outcome(db, Error(TooLarge))
    else Outcome(Keep(db, now, k, List(l)), Int(|l|))
  }

  ghost function PushX(db: Db, now: int, left: bool, k: Bytes, es: seq<Bytes>): Outcome {
    if k !in db then Outcome(db, Int(0)) else Push(db, now, left, k, es)
  }

  ghost function Pop(db: Db, now: int, left: bool, k: Bytes): Outcome {
    var l := ListAt(db, k);
    if Wrong(db, k, ListT) then Outcome(db, Error(WrongType))
    else if l == [] then Outcome(db, Nil)
    else if left then Outcome(Keep(db, now, k, List(l[1..])), Bulk(l[0]))
    else Outcome(Keep(db, now, k, List(l[..|l| - 1])), Bulk(l[|l| - 1]))
  }

  ghost function LSet(db: Db, now: int, k: Bytes, tok: Bytes, v: Bytes): Outcome {
    var l := ListAt(db, k);
    if Wrong(db, k, ListT) then Outcome(db, Error(WrongType))
    else if k !in db then Outcome(db, Error(NoSuchKey))
    else match IntOf(tok)
      case None => Outcome(db, Error(NotInteger))
      case Some(n) =>
        var i := FromEnd(|l|, n);
        if !(0 <= i < |l|) then Outcome(db, Error(IndexOutOfRange))
        else if !Fits(k, [], [v]) then Outcome(db, Error(TooLarge))
        else Outcome(Keep(db, now, k, List(l[i := v])), Ok)
  }

  ghost function LTrim(db: Db, now: int, k: Bytes, startTok: Bytes, stopTok: Bytes): Outcome {
    if IntOf(startTok).None? || IntOf(stopTok).None? then Outcome(db, Error(NotInteger))
    else if Wrong(db, k, ListT) then Outcome(db, Error(WrongType))
    else
      Outcome(Keep(db, now, k, List(Window(ListAt(db, k), IntOf(startTok).value, IntOf(stopTok).value))), Ok)
  }

  /** Remove at most n occurrences of v, from the head. */
  function DropHead(l: seq<Bytes>, v: Bytes, n: nat): seq<Bytes> {
    if l == [] || n == 0 then l
    else if l[0] == v then DropHead(l[1..], v, n - 1)
    else [l[0]] + DropHead(l[1..], v, n)
  }

  /** Remove at most n occurrences of v, from the tail. */
  function DropTail(l: seq<Bytes>, v: Bytes, n: nat): seq<Bytes> {
    if l == [] || n == 0 then l
    else if l[|l| - 1] == v then DropTail(l[..|l| - 1], v, n - 1)
    else DropTail(l[..|l| - 1], v, n) + [l[|l| - 1]]
  }

  /** A zero count removes every occurrence. */
  function Removed(l: seq<Bytes>, count: int, v: Bytes): seq<Bytes> {
    if count < 0 then DropTail(l, v, -count) else DropHead(l, v, if count == 0 then |l| else count)
  }

  ghost function LRem(db: Db, now: int, k: Bytes, tok: Bytes, v: Bytes): Outcome {
    match IntOf(tok)
    case None => Outcome(db, Error(NotInteger))
    case Some(count) =>
      var l := ListAt(db, k);
      if Wrong(db, k, ListT) then Outcome(db, Error(WrongType))
      else Outcome(Keep(db, now, k, List(Removed(l, count, v))), Int(|l| - |Removed(l, count, v)|))
  }

  datatype Where = Before | After | BadToken

  function IndexOf(l: seq<Bytes>, v: Bytes): (i: nat)
    ensures i <= |l|
    ensures i < |l| ==> l[i] == v
    ensures forall j :: 0 <= j < i ==> l[j] != v
  {
    if l == [] || l[0] == v then 0 else 1 + IndexOf(l[1..], v)
  }

  function Inserted(l: seq<Bytes>, at: nat, v: Bytes): (r: seq<Bytes>)
    requires at <= |l|
    ensures |r| == |l| + 1
  {
    l[..at] + [v] + l[at..]
  }

  ghost function LInsert(db: Db, now: int, k: Bytes, w: Where, pivot: Bytes, v: Bytes): Outcome {
    var l := ListAt(db, k);
    if w.BadToken? then Outcome(db, Error(Syntax))
    else if Wrong(db, k, ListT) then Outcome(db, Error(WrongType))
    else if k !in db then Outcome(db, Int(0))
    else if pivot !in l then Outcome(db, Int(-1))
    else if !Fits(k, [], [v]) then Outcome(db, Error(TooLarge))
    else
      var at := IndexOf(l, pivot) + (if w.After? then 1 else 0);
      Outcome(Keep(db, now, k, List(Inserted(l, at, v))), Int(|l| + 1))
  }

  ghost function RPopLPush(db: Db, now: int, src: Bytes, dst: Bytes): Outcome {
    var l := ListAt(db, src);
    if Wrong(db, src, ListT) then Outcome(db, Error(WrongType))
    else if l == [] then Outcome(db, Nil)
    else if Wrong(db, dst, ListT) then Outcome(db, Error(WrongType))
    else
      var popped := Keep(db, now, src, List(l[..|l| - 1]));
      var db' := if src == dst then Keep(db, now, src, List([l[|l| - 1]] + l[..|l| - 1]))
                 else Keep(popped, now, dst, List([l[|l| - 1]] + ListAt(db, dst)));
      Outcome(db', Bulk(l[|l| - 1]))
  }

  ghost function LIndex(db: Db, k: Bytes, tok: Bytes): Reply {
    if Wrong(db, k, ListT) then Error(WrongType)
    else if k !in db then Nil
    else match IntOf(tok)
      case None => Error(NotInteger)
      case Some(n) =>
        var i := FromEnd(|ListAt(db, k)|, n);
        if 0 <= i < |ListAt(db, k)| then Bulk(ListAt(db, k)[i]) else Nil
  }

  /** HLEN, SCARD and LLEN. */
  function Card(db: Db, t: KeyType, k: Bytes): Reply {
    if Wrong(db, k, t) then Error(WrongType)
    else Int(match t
      case StringT => 0
      case HashT => |HashAt(db, k)|
      case ListT => |ListAt(db, k)|
      case SetT => |SetAt(db, k)|)
  }

  // ----- Runs -----------------------------------------------------------------------------------

  datatype Command =
    | CGet(k: Bytes)
    | CStrlen(k: Bytes)
    | CGetRange(k: Bytes, startTok: Bytes, stopTok: Bytes)
    | CSet(k: Bytes, v: Bytes, mode: Mode, span: Option<Span>)
    | CSetNX(k: Bytes, v: Bytes)
    | CSetEx(k: Bytes, tok: Bytes, v: Bytes, millis: bool)
    | CGetSet(k: Bytes, v: Bytes)
    | CAppend(k: Bytes, v: Bytes)
    | CSetRange(k: Bytes, tok: Bytes, v: Bytes)
    | CIncr(k: Bytes, up: bool)
    | CIncrBy(k: Bytes, tok: Bytes, negate: bool)
    | CDel(ks: seq<Bytes>)
    | CExists(ks: seq<Bytes>)
    | CType(k: Bytes)
    | CExpire(form: Form, k: Bytes, tok: Bytes)
    | CTtl(k: Bytes, millis: bool)
    | CPersist(k: Bytes)
    | CHSet(k: Bytes, pairs: seq<Bytes>)
    | CHSetNX(k: Bytes, f: Bytes, v: Bytes)
    | CHIncrBy(k: Bytes, f: Bytes, tok: Bytes)
    | CHGet(k: Bytes, f: Bytes)
    | CHDel(k: Bytes, fs: seq<Bytes>)
    | CSAdd(k: Bytes, ms: seq<Bytes>)
    | CSRem(k: Bytes, ms: seq<Bytes>)
    | CSIsMember(k: Bytes, m: Bytes)
    | CSMove(src: Bytes, dst: Bytes, m: Bytes)
    | CSStore(op: SetOp, dst: Bytes, srcs: seq<Bytes>)
    | CPush(left: bool, k: Bytes, es: seq<Bytes>)
    | CPushX(left: bool, k: Bytes, es: seq<Bytes>)
    | CPop(left: bool, k: Bytes)
    | CLSet(k: Bytes, tok: Bytes, v: Bytes)
    | CLTrim(k: Bytes, startTok: Bytes, stopTok: Bytes)
    | CLRem(k: Bytes, tok: Bytes, v: Bytes)
    | CLInsert(k: Bytes, w: Where, pivot: Bytes, v: Bytes)
    | CRPopLPush(src: Bytes, dst: Bytes)
    | CLIndex(k: Bytes, tok: Bytes)
    | CCard(t: KeyType, k: Bytes)

  // The command families, as they are registered.

  predicate OnStrings(c: Command) {
    || c.CGet? || c.CStrlen? || c.CGetRange? || c.CSet? || c.CSetNX? || c.CSetEx? || c.CGetSet?
    || c.CAppend? || c.CSetRange? || c.CIncr? || c.CIncrBy?
  }

  predicate OnKeys(c: Command) {
    c.CDel? || c.CExists? || c.CType? || c.CExpire? || c.CTtl? || c.CPersist?
  }

  predicate OnHashes(c: Command) {
    c.CHSet? || c.CHSetNX? || c.CHIncrBy? || c.CHGet? || c.CHDel? || c.CCard?
  }

  predicate OnSets(c: Command) {
    c.CSAdd? || c.CSRem? || c.CSIsMember? || c.CSMove? || c.CSStore?
  }

  predicate OnLists(c: Command) {
    c.CPush? || c.CPushX? || c.CPop? || c.CLSet? || c.CLTrim? || c.CLRem? || c.CLInsert? || c.CLIndex? || c.CRPopLPush?
  }

  /** The argument counts that the command table checks before a handler runs. */
  predicate ArityOk(c: Command) {
    match c
    case CHSet(_, pairs) => |pairs| > 0
    case CSAdd(_, ms) => |ms| > 0
    case CSStore(_, _, srcs) => |srcs| > 0
    case CPush(_, _, es) => |es| > 0
    case CPushX(_, _, es) => |es| > 0
    case _ => true
  }

  /** One command on a keyspace that holds only live keys. */
  ghost function Apply(db: Db, now: int, c: Command): Outcome
    requires ArityOk(c)
  {
    match c
    case CGet(k) => Outcome(db, Get(db, k))
    case CStrlen(k) => Outcome(db, Strlen(db, k))
    case CGetRange(k, a, b) => Outcome(db, GetRange(db, k, a, b))
    case CSet(k, v, mode, span) => SetStr(db, now, k, v, mode, span)
    case CSetNX(k, v) => SetNX(db, now, k, v)
    case CSetEx(k, tok, v, millis) => SetEx(db, now, k, tok, v, millis)
    case CGetSet(k, v) => GetSet(db, now, k, v)
    case CAppend(k, v) => Append(db, now, k, v)
    case CSetRange(k, tok, v) => SetRange(db, now, k, tok, v)
    case CIncr(k, up) => AddTo(db, now, k, if up then 1 else -1)
    case CIncrBy(k, tok, negate) => IncrBy(db, now, k, tok, negate)
    case CDel(ks) => Del(db, ks)
    case CExists(ks) => Outcome(db, Int(Exists(db, ks)))
    case CType(k) => Outcome(db, Type(db, k))
    case CExpire(form, k, tok) => Expire(db, now, form, k, tok)
    case CTtl(k, millis) => Outcome(db, Ttl(db, now, k, millis))
    case CPersist(k) => Persist(db, k)
    case CHSet(k, pairs) => HSet(db, now, k, pairs)
    case CHSetNX(k, f, v) => HSetNX(db, now, k, f, v)
    case CHIncrBy(k, f, tok) => HIncrBy(db, now, k, f, tok)
    case CHGet(k, f) => Outcome(db, HGet(db, k, f))
    case CHDel(k, fs) => HDel(db, now, k, fs)
    case CSAdd(k, ms) => SAdd(db, now, k, ms)
    case CSRem(k, ms) => SRem(db, now, k, ms)
    case CSIsMember(k, m) => Outcome(db, SIsMember(db, k, m))
    case CSMove(src, dst, m) => SMove(db, now, src, dst, m)
    case CSStore(op, dst, srcs) => SStore(db, now, op, dst, srcs)
    case CPush(left, k, es) => Push(db, now, left, k, es)
    case CPushX(left, k, es) => PushX(db, now, left, k, es)
    case CPop(left, k) => Pop(db, now, left, k)
    case CLSet(k, tok, v) => LSet(db, now, k, tok, v)
    case CLTrim(k, a, b) => LTrim(db, now, k, a, b)
    case CLRem(k, tok, v) => LRem(db, now, k, tok, v)
    case CLInsert(k, w, pivot, v) => LInsert(db, now, k, w, pivot, v)
    case CRPopLPush(src, dst) => RPopLPush(db, now, src, dst)
    case CLIndex(k, tok) => Outcome(db, LIndex(db, k, tok))
    case CCard(t, k) => Outcome(db, Card(db, t, k))
  }

  /** A command with the clock reading at which it is served. */
  datatype Request = Request(now: int, cmd: Command)

  datatype Run = Run(db: Db, replies: seq<Reply>)

  /** What a plain Redis answers to a sequence of requests. */
  ghost function Serve(db: Db, trace: seq<Request>): (r: Run)
    requires forall i :: 0 <= i < |trace| ==> ArityOk(trace[i].cmd)
    ensures |r.replies| == |trace|
    decreases |trace|
  {
    if trace == [] then Run(db, [])
    else
      var o := Apply(Purge(db, trace[0].now), trace[0].now, trace[0].cmd);
      var rest := Serve(o.db, trace[1..]);
      Run(rest.db, [o.reply] + rest.replies)
  }

  /** A push of oversized elements is covered only when it meets a live key. */
  predicate Guarded(db: Db, c: Command) {
    c.CPush? ==> Fits(c.k, [], c.es) || c.k in db
  }

  /** The parsed option values of SET are int64. */
  predicate Parsed(c: Command) {
    c.CSet? && c.span.Some? ==> InInt64(c.span.value.n)
  }

  /** The clock never runs backwards and every request is well-formed and guarded when served. */
  ghost predicate Admissible(db: Db, t: int, trace: seq<Request>)
    decreases |trace|
  {
    trace != [] ==>
      && t <= trace[0].now && ClockOk(trace[0].now)
      && ArityOk(trace[0].cmd) && Parsed(trace[0].cmd) && Guarded(Purge(db, trace[0].now), trace[0].cmd)
      && Admissible(Apply(Purge(db, trace[0].now), trace[0].now, trace[0].cmd).db, trace[0].now, trace[1..])
  }

  lemma {:induction false} AdmissibleArity(db: Db, t: int, trace: seq<Request>)
    requires Admissible(db, t, trace)
    ensures forall i :: 0 <= i < |trace| ==> ArityOk(trace[i].cmd)
    decreases |trace|
  {
    if trace != [] {
      AdmissibleArity(Apply(Purge(db, trace[0].now), trace[0].now, trace[0].cmd).db, trace[0].now, trace[1..]);
      assert forall i :: 1 <= i < |trace| ==> trace[i] == trace[1..][i - 1];
    }
  }
}
