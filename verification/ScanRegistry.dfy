/**
 * The SCAN cursor registry: a lookup map and a recency list kept in step, against an abstract LRU
 * sequence with a time to live. Clock readings and random draws are parameters.
 */
module ScanRegistry {
  import opened Prelude

  type Cursor = nat

  /** What is stored under a cursor: the owning instance, the scan position and the creation time. */
  datatype Item<T> = Item(instId: string, token: T, created: int)

  datatype Slot<T> = Slot(cursor: Cursor, item: Item<T>)

  // ----- The abstract LRU: most recently used first ---------------------------------------------

  type Lru<T> = seq<Slot<T>>

  predicate Distinct<T>(l: Lru<T>) {
    forall i, j :: 0 <= i < j < |l| ==> l[i].cursor != l[j].cursor
  }

  /** Where a cursor stands, the length if it is absent. */
  function IndexOf<T>(l: Lru<T>, c: Cursor): (i: nat)
    ensures i <= |l|
    ensures i < |l| ==> l[i].cursor == c
    ensures forall j :: 0 <= j < i ==> l[j].cursor != c
  {
    if l == [] || l[0].cursor == c then 0 else 1 + IndexOf(l[1..], c)
  }

  predicate Has<T>(l: Lru<T>, c: Cursor) {
    IndexOf(l, c) < |l|
  }

  function Find<T>(l: Lru<T>, c: Cursor): Item<T>
    requires Has(l, c)
  {
    l[IndexOf(l, c)].item
  }

  function RemoveAt<X>(l: seq<X>, i: nat): seq<X>
    requires i < |l|
  {
    l[..i] + l[i + 1..]
  }

  function Without<T>(l: Lru<T>, c: Cursor): Lru<T> {
    if Has(l, c) then RemoveAt(l, IndexOf(l, c)) else l
  }

  /** A new cursor goes to the front; the least recently used ones beyond the capacity are evicted. */
  function Saved<T>(l: Lru<T>, s: Slot<T>, capacity: nat): Lru<T> {
    ([s] + l)[..Min(capacity, |l| + 1)]
  }

  predicate Expired<T>(item: Item<T>, now: int, ttl: int) {
    now - item.created >= ttl
  }

  /** The token a load answers, if any. */
  function Answer<T>(l: Lru<T>, c: Cursor, instId: string, now: int, ttl: int): Option<T> {
    if c != 0 && Has(l, c) && !Expired(Find(l, c), now, ttl) && Find(l, c).instId == instId then
      Some(Find(l, c).token)
    else None
  }

  /** An expired cursor is dropped, a foreign one left alone, an owned one moved to the front. */
  function Loaded<T>(l: Lru<T>, c: Cursor, instId: string, now: int, ttl: int): Lru<T> {
    if c == 0 || !Has(l, c) then l
    else if Expired(Find(l, c), now, ttl) then Without(l, c)
    else if Find(l, c).instId != instId then l
    else [Slot(c, Find(l, c))] + Without(l, c)
  }

  // ----- What an LRU run keeps ------------------------------------------------------------------

  ghost predicate Proper<T>(l: Lru<T>, capacity: nat) {
    Distinct(l) && |l| <= capacity
  }

  datatype Event<T> = Save(slot: Slot<T>) | Load(cursor: Cursor, instId: string, now: int)

  predicate EventOk<T>(l: Lru<T>, e: Event<T>) {
    e.Save? ==> e.slot.cursor != 0 && !Has(l, e.slot.cursor)
  }

  function Step<T>(l: Lru<T>, e: Event<T>, capacity: nat, ttl: int): Lru<T> {
    match e
    case Save(slot) => Saved(l, slot, capacity)
    case Load(c, instId, now) => Loaded(l, c, instId, now, ttl)
  }

  /** The cursor an event uses: one it saves or successfully loads. */
  function Touch<T>(l: Lru<T>, e: Event<T>, ttl: int): set<Cursor> {
    match e
    case Save(slot) => {slot.cursor}
    case Load(c, instId, now) => if Answer(l, c, instId, now, ttl).Some? then {c} else {}
  }

  predicate Runs<T>(l: Lru<T>, events: seq<Event<T>>, capacity: nat, ttl: int)
    decreases |events|
  {
    events != [] ==> EventOk(l, events[0]) && Runs(Step(l, events[0], capacity, ttl), events[1..], capacity, ttl)
  }

  function After<T>(l: Lru<T>, events: seq<Event<T>>, capacity: nat, ttl: int): Lru<T>
    decreases |events|
  {
    if events == [] then l else After(Step(l, events[0], capacity, ttl), events[1..], capacity, ttl)
  }

  function Touched<T>(l: Lru<T>, events: seq<Event<T>>, capacity: nat, ttl: int): set<Cursor>
    decreases |events|
  {
    if events == [] then {}
    else Touch(l, events[0], ttl) + Touched(Step(l, events[0], capacity, ttl), events[1..], capacity, ttl)
  }

  /** The cursors more recently used than c. */
  function Ahead<T>(l: Lru<T>, c: Cursor): set<Cursor> {
    set i | 0 <= i < IndexOf(l, c) :: l[i].cursor
  }

  lemma {:induction false} AheadSize<T>(l: Lru<T>, n: nat)
    requires Distinct(l) && n <= |l|
    ensures |set i | 0 <= i < n :: l[i].cursor| == n
  {
    if n > 0 {
      AheadSize(l, n - 1);
      var s := set i | 0 <= i < n - 1 :: l[i].cursor;
      assert (set i | 0 <= i < n :: l[i].cursor) == s + {l[n - 1].cursor};
    }
  }

  lemma PositionIs<T>(l: Lru<T>, c: Cursor, i: nat)
    requires Distinct(l) && i < |l| && l[i].cursor == c
    ensures IndexOf(l, c) == i && Has(l, c) && Find(l, c) == l[i].item
  {
  }

  /** Saving puts one cursor ahead of c; c is evicted only when it was last of a full list. */
  lemma AfterSave<T>(l: Lru<T>, slot: Slot<T>, capacity: nat, c: Cursor)
    requires Proper(l, capacity) && capacity > 0 && Has(l, c) && !Has(l, slot.cursor)
    ensures var l' := Saved(l, slot, capacity);
            && Proper(l', capacity)
            && slot.cursor != c
            && (Has(l', c) ==> Find(l', c) == Find(l, c) && Ahead(l', c) == Ahead(l, c) + {slot.cursor})
            && (!Has(l', c) ==> |Ahead(l, c) + {slot.cursor}| == capacity)
  {
    var l' := Saved(l, slot, capacity);
    var i := IndexOf(l, c);
    assert IndexOf(l, slot.cursor) == |l|;
    assert Distinct(l');
    if i + 1 < |l'| {
      assert l'[i + 1] == l[i];
      PositionIs(l', c, i + 1);
      assert forall j :: 0 <= j < i ==> l'[j + 1] == l[j];
      AheadShifts(l, l', c, slot.cursor, i);
    } else {
      AheadSize(l, i);
      assert slot.cursor !in Ahead(l, c);
    }
  }

  lemma AheadShifts<T>(l: Lru<T>, l': Lru<T>, c: Cursor, front: Cursor, i: nat)
    requires i < |l| && i + 1 < |l'| && IndexOf(l, c) == i && IndexOf(l', c) == i + 1
    requires l'[0].cursor == front && forall j :: 0 <= j < i ==> l'[j + 1] == l[j]
    ensures Ahead(l', c) == Ahead(l, c) + {front}
  {
    forall d | d in Ahead(l, c) + {front} ensures d in Ahead(l', c) {
      if d != front {
        var j :| 0 <= j < i && l[j].cursor == d;
        assert l'[j + 1].cursor == d;
      }
    }
    forall d | d in Ahead(l', c) ensures d in Ahead(l, c) + {front} {
      var j :| 0 <= j < i + 1 && l'[j].cursor == d;
      if j > 0 {
        assert l'[j] == l[j - 1];
      }
    }
  }

  lemma {:induction false} RemoveAtIsDistinct<T>(l: Lru<T>, k: nat)
    requires Distinct(l) && k < |l|
    ensures Distinct(RemoveAt(l, k)) && |RemoveAt(l, k)| == |l| - 1
    ensures forall j :: 0 <= j < |RemoveAt(l, k)| ==> RemoveAt(l, k)[j].cursor != l[k].cursor
  {
  }

  /** Dropping another cursor leaves c, with no one new ahead of it. */
  lemma AfterWithout<T>(l: Lru<T>, d: Cursor, c: Cursor)
    requires Distinct(l) && Has(l, c) && Has(l, d) && c != d
    ensures var r := Without(l, d);
            Distinct(r) && |r| == |l| - 1 && Has(r, c) && Find(r, c) == Find(l, c) && Ahead(r, c) <= Ahead(l, c)
  {
    var i, k := IndexOf(l, c), IndexOf(l, d);
    var r := RemoveAt(l, k);
    RemoveAtIsDistinct(l, k);
    PositionIs(r, c, if i < k then i else i - 1);
    forall x | x in Ahead(r, c) ensures x in Ahead(l, c) {
      var j :| 0 <= j < IndexOf(r, c) && r[j].cursor == x;
      assert r[j] == l[if j < k then j else j + 1];
    }
  }

  /** Moving another cursor to the front puts at most that one ahead of c. */
  lemma AfterMove<T>(l: Lru<T>, d: Cursor, c: Cursor)
    requires Distinct(l) && Has(l, c) && Has(l, d) && c != d
    ensures var r := [Slot(d, Find(l, d))] + Without(l, d);
            Distinct(r) && |r| == |l| && Has(r, c) && Find(r, c) == Find(l, c) && Ahead(r, c) <= Ahead(l, c) + {d}
  {
    var w := Without(l, d);
    var r := [Slot(d, Find(l, d))] + w;
    AfterWithout(l, d, c);
    RemoveAtIsDistinct(l, IndexOf(l, d));
    var i := IndexOf(w, c);
    assert r[i + 1] == w[i];
    PositionIs(r, c, i + 1);
    AheadShifts(w, r, c, d, i);
  }

  /** Moving c itself to the front leaves nobody ahead of it. */
  lemma AfterOwnMove<T>(l: Lru<T>, c: Cursor)
    requires Distinct(l) && Has(l, c)
    ensures var r := [Slot(c, Find(l, c))] + Without(l, c);
            Distinct(r) && |r| == |l| && Has(r, c) && Find(r, c) == Find(l, c) && Ahead(r, c) == {}
  {
  }

  lemma LoadKeeps<T>(l: Lru<T>, d: Cursor, instId: string, now: int, ttl: int, c: Cursor)
    requires Distinct(l) && Has(l, c)
    requires d == c ==> !Expired(Find(l, c), now, ttl)
    ensures var l' := Loaded(l, d, instId, now, ttl);
            && Distinct(l') && |l'| <= |l| && Has(l', c) && Find(l', c) == Find(l, c)
            && Ahead(l', c) <= Ahead(l, c) + (Touch(l, Load(d, instId, now), ttl) - {c})
  {
    hide Ahead, IndexOf, Distinct, Find, Has, Without;
    if d == c {
      AfterOwnMove(l, c);
    } else if Has(l, d) {
      AfterWithout(l, d, c);
      AfterMove(l, d, c);
    }
  }

  lemma StepKeeps<T>(l: Lru<T>, e: Event<T>, capacity: nat, ttl: int, c: Cursor)
    requires Proper(l, capacity) && capacity > 0 && Has(l, c) && EventOk(l, e)
    requires e.Load? && e.cursor == c ==> !Expired(Find(l, c), e.now, ttl)
    ensures var l' := Step(l, e, capacity, ttl);
            && Proper(l', capacity)
            && (Has(l', c) ==> Find(l', c) == Find(l, c) && Ahead(l', c) <= Ahead(l, c) + (Touch(l, e, ttl) - {c}))
            && (!Has(l', c) ==> |Ahead(l, c) + (Touch(l, e, ttl) - {c})| >= capacity)
  {
    hide Ahead, IndexOf, Distinct, Find, Has, Saved, Loaded;
    if e.Save? {
      AfterSave(l, e.slot, capacity, c);
      assert Touch(l, e, ttl) - {c} == {e.slot.cursor};
    } else {
      LoadKeeps(l, e.cursor, e.instId, e.now, ttl, c);
    }
  }

  ghost predicate Unexpired<T>(events: seq<Event<T>>, c: Cursor, item: Item<T>, ttl: int) {
    forall k :: 0 <= k < |events| && events[k].Load? && events[k].cursor == c ==>
      events[k].now - item.created < ttl
  }

  /** A cursor survives every run in which fewer than capacity other cursors are used. */
  lemma {:induction false} KeptUntilCrowded<T>(
    l: Lru<T>, events: seq<Event<T>>, capacity: nat, ttl: int, c: Cursor, used: set<Cursor>)
    requires Proper(l, capacity) && Has(l, c) && Runs(l, events, capacity, ttl)
    requires Ahead(l, c) <= used && |used + (Touched(l, events, capacity, ttl) - {c})| < capacity
    requires Unexpired(events, c, Find(l, c), ttl)
    ensures var l' := After(l, events, capacity, ttl);
            Has(l', c) && Find(l', c) == Find(l, c)
    decreases |events|
  {
    if events != [] {
      var e, rest := events[0], events[1..];
      var l' := Step(l, e, capacity, ttl);
      var more := used + (Touch(l, e, ttl) - {c});
      var all := used + (Touched(l, events, capacity, ttl) - {c});
      StepKeeps(l, e, capacity, ttl, c);
      assert more + (Touched(l', rest, capacity, ttl) - {c}) == all;
      if !Has(l', c) {
        SubsetSize(Ahead(l, c) + (Touch(l, e, ttl) - {c}), all);
        assert false;
      }
      assert forall k :: 0 <= k < |rest| ==> rest[k] == events[k + 1];
      KeptUntilCrowded(l', rest, capacity, ttl, c, more);
    }
  }

  lemma SubsetSize(a: set<Cursor>, b: set<Cursor>)
    requires a <= b
    ensures |a| <= |b|
  {
    assert b == a + (b - a);
  }

  /**
   * A saved token is answered to its owner as long as it has not expired, unless at least capacity other
   * cursors were saved or loaded since: eviction strikes only a crowded-out cursor.
   */
  lemma SavedTokenIsAnswered<T>(l: Lru<T>, slot: Slot<T>, events: seq<Event<T>>, capacity: nat, ttl: int, now: int)
    requires Proper(l, capacity) && capacity > 0 && EventOk(l, Save(slot))
    requires var saved := Saved(l, slot, capacity);
             Runs(saved, events, capacity, ttl) && |Touched(saved, events, capacity, ttl) - {slot.cursor}| < capacity
    requires Unexpired(events, slot.cursor, slot.item, ttl) && now - slot.item.created < ttl
    ensures Answer(After(Saved(l, slot, capacity), events, capacity, ttl), slot.cursor, slot.item.instId, now, ttl)
            == Some(slot.item.token)
  {
    var saved := Saved(l, slot, capacity);
    SavedIsProper(l, slot, capacity);
    PositionIs(saved, slot.cursor, 0);
    var touched := Touched(saved, events, capacity, ttl) - {slot.cursor};
    assert Ahead(saved, slot.cursor) + touched == touched;
    KeptUntilCrowded(saved, events, capacity, ttl, slot.cursor, Ahead(saved, slot.cursor));
  }

  /** A successful load counts as a use: the token is answered again unless capacity others are used since. */
  lemma LoadedTokenIsAnswered<T>(
    l: Lru<T>, c: Cursor, instId: string, at: int, events: seq<Event<T>>, capacity: nat, ttl: int, now: int)
    requires Proper(l, capacity) && Answer(l, c, instId, at, ttl).Some?
    requires var loaded := Loaded(l, c, instId, at, ttl);
             Runs(loaded, events, capacity, ttl) && |Touched(loaded, events, capacity, ttl) - {c}| < capacity
    requires Unexpired(events, c, Find(l, c), ttl) && now - Find(l, c).created < ttl
    ensures Answer(After(Loaded(l, c, instId, at, ttl), events, capacity, ttl), c, instId, now, ttl)
            == Answer(l, c, instId, at, ttl)
  {
    AfterOwnMove(l, c);
    var loaded := Loaded(l, c, instId, at, ttl);
    var touched := Touched(loaded, events, capacity, ttl) - {c};
    assert {} + touched == touched;
    KeptUntilCrowded(loaded, events, capacity, ttl, c, {});
  }

  lemma SavedIsProper<T>(l: Lru<T>, slot: Slot<T>, capacity: nat)
    requires Proper(l, capacity) && capacity > 0 && !Has(l, slot.cursor)
    ensures Proper(Saved(l, slot, capacity), capacity)
  {
  }

  // ----- What is not answered -------------------------------------------------------------------

  /** Some event of the run saved this item under the cursor. */
  ghost predicate SavedBy<T(!new)>(events: seq<Event<T>>, slot: Slot<T>) {
    exists k :: 0 <= k < |events| && events[k] == Save(slot)
  }

  /** Whatever a step leaves was there before or is what it saved. */
  lemma StepInventsNothing<T>(l: Lru<T>, e: Event<T>, capacity: nat, ttl: int, j: nat)
    requires j < |Step(l, e, capacity, ttl)|
    ensures var slot := Step(l, e, capacity, ttl)[j]; slot in l || e == Save(slot)
  {
  }

  lemma {:induction false} RunInventsNothing<T(!new)>(
    l: Lru<T>, events: seq<Event<T>>, capacity: nat, ttl: int, slot: Slot<T>)
    requires slot in After(l, events, capacity, ttl)
    ensures slot in l || SavedBy(events, slot)
    decreases |events|
  {
    hide Step;
    if events != [] {
      var l' := Step(l, events[0], capacity, ttl);
      RunInventsNothing(l', events[1..], capacity, ttl, slot);
      if slot in l' {
        var j :| 0 <= j < |l'| && l'[j] == slot;
        StepInventsNothing(l, events[0], capacity, ttl, j);
      } else {
        var k :| 0 <= k < |events[1..]| && events[1..][k] == Save(slot);
        assert events[k + 1] == Save(slot);
      }
    }
  }

  /**
   * The converse, over every run from the empty registry: a load answers a token only if it was saved
   * under that non-zero cursor for that instance, less than the time to live ago.
   */
  lemma AnswersOnlyFreshOwnTokens<T(!new)>(
    events: seq<Event<T>>, capacity: nat, ttl: int, c: Cursor, instId: string, now: int)
    requires Answer(After([], events, capacity, ttl), c, instId, now, ttl).Some?
    ensures var t := Answer(After([], events, capacity, ttl), c, instId, now, ttl).value;
            c != 0 && exists created: int ::
              now - created < ttl && SavedBy(events, Slot(c, Item(instId, t, created)))
  {
    var l := After([], events, capacity, ttl);
    var item := Find(l, c);
    assert l[IndexOf(l, c)] == Slot(c, item);
    RunInventsNothing([], events, capacity, ttl, Slot(c, item));
    assert item == Item(instId, item.token, item.created);
  }

  /** A load that finds the cursor expired forgets it: no later clock reading brings it back. */
  lemma ExpiredIsForgotten<T>(
    l: Lru<T>, capacity: nat, ttl: int, c: Cursor, reader: string, at: int, instId: string, now: int)
    requires Proper(l, capacity) && Has(l, c) && c != 0 && at - Find(l, c).created >= ttl
    ensures Answer(Loaded(l, c, reader, at, ttl), c, instId, now, ttl) == None
  {
    RemoveAtIsDistinct(l, IndexOf(l, c));
  }

  /** A load by another instance changes nothing. */
  lemma ForeignLoadIsInert<T>(l: Lru<T>, ttl: int, c: Cursor, instId: string, now: int)
    requires Has(l, c) && now - Find(l, c).created < ttl && Find(l, c).instId != instId
    ensures Loaded(l, c, instId, now, ttl) == l && Answer(l, c, instId, now, ttl) == None
  {
  }

  // ----- Map and list in step -------------------------------------------------------------------

  /** Map and list hold the same distinct non-zero cursors. */
  ghost predicate InStep<T>(items: map<Cursor, Item<T>>, order: seq<Cursor>) {
    && (forall i, j :: 0 <= i < j < |order| ==> order[i] != order[j])
    && (forall c :: c in order <==> c in items)
    && 0 !in order
  }

  ghost function AbsOf<T>(items: map<Cursor, Item<T>>, order: seq<Cursor>): (l: Lru<T>)
    requires InStep(items, order)
    ensures |l| == |order| && forall i :: 0 <= i < |l| ==> l[i] == Slot(order[i], items[order[i]])
  {
    seq(|order|, i requires 0 <= i < |order| => Slot(order[i], items[order[i]]))
  }

  lemma PushFront<T>(items: map<Cursor, Item<T>>, order: seq<Cursor>, c: Cursor, item: Item<T>)
    requires InStep(items, order) && c != 0 && c !in items
    ensures InStep(items[c := item], [c] + order)
    ensures AbsOf(items[c := item], [c] + order) == [Slot(c, item)] + AbsOf(items, order)
  {
  }

  lemma DropElement<T>(items: map<Cursor, Item<T>>, order: seq<Cursor>, i: nat)
    requires InStep(items, order) && i < |order|
    ensures InStep(items - {order[i]}, RemoveAt(order, i))
    ensures AbsOf(items - {order[i]}, RemoveAt(order, i)) == RemoveAt(AbsOf(items, order), i)
  {
    DroppedInStep(items, order, i);
    hide InStep;
    var left, right := AbsOf(items - {order[i]}, RemoveAt(order, i)), RemoveAt(AbsOf(items, order), i);
    forall j | 0 <= j < |order| - 1 ensures left[j] == right[j] {
    }
  }

  lemma DroppedInStep<T>(items: map<Cursor, Item<T>>, order: seq<Cursor>, i: nat)
    requires InStep(items, order) && i < |order|
    ensures InStep(items - {order[i]}, RemoveAt(order, i))
  {
  }

  lemma MoveToFront<T>(items: map<Cursor, Item<T>>, order: seq<Cursor>, i: nat)
    requires InStep(items, order) && i < |order|
    ensures InStep(items, [order[i]] + RemoveAt(order, i))
    ensures AbsOf(items, [order[i]] + RemoveAt(order, i)) ==
            [Slot(order[i], items[order[i]])] + RemoveAt(AbsOf(items, order), i)
  {
    MovedInStep(items, order, i);
    hide InStep;
    var left := AbsOf(items, [order[i]] + RemoveAt(order, i));
    var right := [Slot(order[i], items[order[i]])] + RemoveAt(AbsOf(items, order), i);
    forall j | 0 <= j < |order| ensures left[j] == right[j] {
    }
  }

  lemma MovedInStep<T>(items: map<Cursor, Item<T>>, order: seq<Cursor>, i: nat)
    requires InStep(items, order) && i < |order|
    ensures InStep(items, [order[i]] + RemoveAt(order, i))
  {
  }

  lemma IndexInStep<T>(items: map<Cursor, Item<T>>, order: seq<Cursor>, c: Cursor, i: nat)
    requires InStep(items, order)
    ensures Has(AbsOf(items, order), c) <==> c in items
    ensures i < |order| && order[i] == c ==> IndexOf(AbsOf(items, order), c) == i
    ensures c in items ==> Find(AbsOf(items, order), c) == items[c]
  {
  }

  // ----- The registry ---------------------------------------------------------------------------

  const DEFAULT_CAPACITY: nat := 10_000
  const DEFAULT_TTL: int := 10 * 60

  class Registry<T(!new)> {
    const instId: string
    const capacity: nat
    const ttl: int
    var items: map<Cursor, Item<T>>
    var order: seq<Cursor>

    /** In step, and never more than the capacity. */
    ghost predicate Valid()
      reads this
    {
      capacity > 0 && |order| <= capacity && InStep(items, order)
    }

    ghost function Abs(): Lru<T>
      requires Valid()
      reads this
    {
      AbsOf(items, order)
    }

    constructor (instId: string, capacity: int, ttl: int)
      ensures Valid() && Abs() == []
      ensures this.instId == instId
      ensures this.capacity == (if capacity <= 0 then DEFAULT_CAPACITY else capacity)
      ensures this.ttl == (if ttl <= 0 then DEFAULT_TTL else ttl)
    {
      this.instId := instId;
      this.capacity := if capacity <= 0 then DEFAULT_CAPACITY else capacity;
      this.ttl := if ttl <= 0 then DEFAULT_TTL else ttl;
      items, order := map[], [];
    }

    /** The first draw that is neither zero nor in use. */
    method NewCursor(draws: seq<Cursor>) returns (c: Cursor)
      requires exists k :: 0 <= k < |draws| && draws[k] != 0 && draws[k] !in items
      ensures c != 0 && c !in items && c in draws
    {
      var k := 0;
      while true
        invariant 0 <= k <= |draws|
        invariant exists m :: k <= m < |draws| && draws[m] != 0 && draws[m] !in items
        decreases |draws| - k
      {
        c := draws[k];
        if c != 0 && c !in items {
          return;
        }
        k := k + 1;
      }
    }

    /** Where the list element of a cursor is. */
    method Element(c: Cursor) returns (i: nat)
      requires c in order
      ensures i < |order| && order[i] == c
    {
      i := 0;
      while order[i] != c
        invariant 0 <= i < |order|
        invariant exists j :: i <= j < |order| && order[j] == c
        decreases |order| - i
      {
        i := i + 1;
      }
    }

    /** Remove a list element from the list and its cursor from the map. */
    method RemoveElement(i: nat)
      requires capacity > 0 && InStep(items, order) && i < |order|
      modifies this`items, this`order
      ensures InStep(items, order) && |order| == |old(order)| - 1
      ensures AbsOf(items, order) == RemoveAt(old(AbsOf(items, order)), i)
    {
      DropElement(items, order, i);
      items := items - {order[i]};
      order := RemoveAt(order, i);
    }

    /** Record a token under a fresh cursor, evicting from the back beyond the capacity. */
    method Save(token: T, now: int, draws: seq<Cursor>) returns (c: Cursor)
      requires Valid() && exists k :: 0 <= k < |draws| && draws[k] != 0 && draws[k] !in items
      modifies this`items, this`order
      ensures Valid() && c != 0 && !Has(old(Abs()), c)
      ensures Abs() == Saved(old(Abs()), Slot(c, Item(instId, token, now)), capacity)
    {
      c := NewCursor(draws);
      IndexInStep(items, order, c, 0);
      PushFront(items, order, c, Item(instId, token, now));
      ghost var l := [Slot(c, Item(instId, token, now))] + Abs();
      items := items[c := Item(instId, token, now)];
      order := [c] + order;
      hide InStep, AbsOf;
      while |order| > capacity
        invariant InStep(items, order) && Min(capacity, |l|) <= |order| <= |l| && AbsOf(items, order) == l[..|order|]
        decreases |order|
      {
        RemoveElement(|order| - 1);
      }
    }

    /** Look a cursor up for an instance. */
    method Load(c: Cursor, expectInstId: string, now: int) returns (r: Option<T>)
      requires Valid()
      modifies this`items, this`order
      ensures Valid()
      ensures r == Answer(old(Abs()), c, expectInstId, now, ttl)
      ensures Abs() == Loaded(old(Abs()), c, expectInstId, now, ttl)
    {
      if c == 0 {
        return None;
      }
      IndexInStep(items, order, c, 0);
      if c !in items {
        return None;
      }
      var i := Element(c);
      IndexInStep(items, order, c, i);
      hide InStep, AbsOf, IndexOf;
      var item := items[c];
      if now - item.created >= ttl {
        RemoveElement(i);
        return None;
      }
      if item.instId != expectInstId {
        return None;
      }
      MoveToFront(items, order, i);
      order := [c] + RemoveAt(order, i);
      return Some(item.token);
    }
  }
}
