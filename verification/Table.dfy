/**
 * The DynamoDB layout: under each partition key one optional meta item (type, expiry, member count)
 * and the data items. View is the abstraction to a plain Redis keyspace, Inv the serial invariant.
 */
module Table {
  import opened Prelude
  import opened Redis

  /** The meta item: attributes t, exp (epoch seconds, 0 = never) and cnt. */
  datatype Meta = Meta(t: KeyType, exp: int, cnt: int)

  /**
   * The items of one partition: the string value item, the items sorted under member names (hash
   * fields and set members share that part of the sort-key space) and the list elements in order.
   */
  datatype Partition = Partition(
    meta: Option<Meta>, value: Option<Bytes>, members: map<Bytes, Bytes>, elems: seq<Bytes>)

  const NOTHING := Partition(None, None, map[], [])

  type Parts = map<Bytes, Partition>

  function At(parts: Parts, pk: Bytes): Partition {
    if pk in parts then parts[pk] else NOTHING
  }

  predicate Expired(m: Meta, now: int) {
    m.exp > 0 && m.exp <= now
  }

  predicate Live(p: Partition, now: int) {
    p.meta.Some? && !Expired(p.meta.value, now)
  }

  predicate LiveAs(p: Partition, now: int, t: KeyType) {
    Live(p, now) && p.meta.value.t == t
  }

  function Cnt(p: Partition): int {
    if p.meta.Some? then p.meta.value.cnt else 0
  }

  function Exp(p: Partition): int {
    if p.meta.Some? then p.meta.value.exp else 0
  }

  /** The items of a partition besides the meta item: one each for the value, a member and an element. */
  function DataItems(p: Partition): nat {
    |p.members.Keys| + |p.elems| + |if p.value.Some? then [p.value.value] else []|
  }

  /** Set members are items without a value. */
  function Bare(names: set<Bytes>): (m: map<Bytes, Bytes>)
    ensures m.Keys == names
  {
    map x | x in names :: []
  }

  // ----- Abstraction ----------------------------------------------------------------------------

  function EntryOf(p: Partition): Entry
    requires p.meta.Some?
  {
    var v := match p.meta.value.t
      case StringT => Str(if p.value.Some? then p.value.value else [])
      case HashT => Hash(p.members)
      case ListT => List(p.elems)
      case SetT => Set(p.members.Keys);
    Entry(v, p.meta.value.exp)
  }

  /** The keyspace a client sees at a given time. Items hidden by the meta's type do not count. */
  function View(parts: Parts, now: int): Db {
    map k | k in parts && Live(parts[k], now) :: EntryOf(parts[k])
  }

  // ----- Serial invariant -----------------------------------------------------------------------

  predicate NamesFit(members: map<Bytes, Bytes>) {
    forall m :: m in members ==> |m| <= MAX_MEMBER
  }

  /**
   * A collection's count equals its number of member items and is at least one, a partition without
   * meta has no items, and only a String may hide items of other types.
   */
  predicate PartOk(p: Partition) {
    match p.meta
    case None => p == NOTHING
    case Some(m) =>
      && m.exp >= 0
      && match m.t
         case StringT => p.value.Some? && m.cnt == 0
         case ListT => p.value.None? && p.members == map[] && m.cnt == |p.elems| >= 1
         case _ => p.value.None? && p.elems == [] && NamesFit(p.members) && m.cnt == |p.members| >= 1
  }

  predicate Inv(parts: Parts) {
    forall k :: k in parts ==> PartOk(parts[k])
  }

  // ----- One partition changes at a time --------------------------------------------------------

  /** An update of one partition is an update of one key of the view. */
  lemma UpdateView(parts: Parts, pk: Bytes, p: Partition, now: int)
    ensures View(parts[pk := p], now) ==
            if Live(p, now) then View(parts, now)[pk := EntryOf(p)] else View(parts, now) - {pk}
  {
  }

  /** What storing a sound partition does: it keeps the invariant and stores or deletes that key. */
  lemma Commit(parts: Parts, pk: Bytes, p: Partition, now: int)
    requires Inv(parts) && PartOk(p)
    ensures Inv(parts[pk := p])
    ensures View(parts[pk := p], now) ==
            if p.meta.None? then View(parts, now) - {pk}
            else Put(View(parts, now), now, pk, EntryOf(p).value, EntryOf(p).exp)
  {
    UpdateView(parts, pk, p, now);
    NonEmptyKeys(p.members);
  }

  /** What the keyspace operations read of a key, in terms of its partition. */
  lemma Observe(parts: Parts, pk: Bytes, now: int)
    requires Inv(parts)
    ensures var p, db := At(parts, pk), View(parts, now);
            && PartOk(p)
            && (pk in db <==> Live(p, now))
            && (Live(p, now) ==> db[pk] == EntryOf(p) && !Void(db[pk].value))
            && (forall t :: Wrong(db, pk, t) <==> Live(p, now) && p.meta.value.t != t)
            && ExpOf(db, pk) == (if Live(p, now) then p.meta.value.exp else 0)
            && StrAt(db, pk) == (if LiveAs(p, now, StringT) then p.value.value else [])
            && HashAt(db, pk) == (if LiveAs(p, now, HashT) then p.members else map[])
            && ListAt(db, pk) == (if LiveAs(p, now, ListT) then p.elems else [])
            && SetAt(db, pk) == (if LiveAs(p, now, SetT) then p.members.Keys else {})
  {
    var p := At(parts, pk);
    if LiveAs(p, now, SetT) {
      NonEmptyKeys(p.members);
    }
  }

  lemma NonEmptyKeys(m: map<Bytes, Bytes>)
    ensures m.Keys == {} <==> m == map[]
    ensures |m| == |m.Keys|
  {
  }

  /** Letting time pass on the table is purging the keyspace. */
  lemma Later(parts: Parts, t: int, t': int)
    requires t <= t'
    ensures View(parts, t') == Purge(View(parts, t), t')
  {
  }

  /** The view never shows an empty collection or a key that is due. */
  lemma ViewIsProper(parts: Parts, now: int)
    requires Inv(parts)
    ensures Purge(View(parts, now), now) == View(parts, now)
    ensures forall k :: k in View(parts, now) ==> !Void(View(parts, now)[k].value)
  {
  }
}
