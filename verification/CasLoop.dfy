/**
 * The retry loop of the INCR family as it is coded, against an item other clients write between its
 * reads and its conditional writes.
 */
module CasLoop {
  import opened Prelude
  import opened Decimal
  import opened Rmw

  /** A write that landed: ours or another client's, and the values before and after it. */
  datatype Change<V> = Change(ours: bool, before: Option<V>, after: Option<V>)

  ghost predicate Foreign<V>(history: seq<Change<V>>) {
    forall k :: 0 <= k < |history| ==> !history[k].ours
  }

  /** Since the history was, one write of ours landed, after foreign ones only. */
  ghost predicate LandedOnce<V>(was: seq<Change<V>>, history: seq<Change<V>>, value: Option<V>) {
    && was <= history && |history| > |was|
    && Foreign(history[|was|..|history| - 1])
    && history[|history| - 1].ours && history[|history| - 1].after == value
  }

  /** Since the history was, no write of ours landed. */
  ghost predicate NotLanded<V>(was: seq<Change<V>>, history: seq<Change<V>>) {
    was <= history && Foreign(history[|was|..])
  }

  class ValueItem<V(==)> {
    var value: Option<V>
    ghost var history: seq<Change<V>>

    constructor (v: Option<V>)
      ensures value == v && history == []
    {
      value, history := v, [];
    }

    /** Other clients' writes and deletions land one after the other. */
    method Interfere(writes: seq<Option<V>>)
      modifies this
      ensures NotLanded(old(history), history)
      ensures value == if writes == [] then old(value) else writes[|writes| - 1]
    {
      for i := 0 to |writes|
        invariant NotLanded(old(history), history)
        invariant value == if i == 0 then old(value) else writes[i - 1]
      {
        history := history + [Change(false, value, writes[i])];
        value := writes[i];
      }
    }

    /** The conditional write: it lands exactly when the item still is what the caller saw. */
    method SetCas(next: V, seen: Option<V>) returns (ok: bool)
      modifies this
      ensures ok <==> old(value) == seen
      ensures ok ==> value == Some(next) && history == old(history) + [Change(true, seen, Some(next))]
      ensures !ok ==> value == old(value) && history == old(history)
    {
      ok := value == seen;
      if ok {
        history := history + [Change(true, value, Some(next))];
        value := Some(next);
      }
    }
  }

  lemma StillForeign<V>(a: seq<Change<V>>, b: seq<Change<V>>, c: seq<Change<V>>)
    requires NotLanded(a, b) && NotLanded(b, c)
    ensures NotLanded(a, c)
  {
    assert c[|a|..] == b[|a|..] + c[|b|..];
  }

  lemma NowLanded<V>(a: seq<Change<V>>, b: seq<Change<V>>, before: Option<V>, after: Option<V>)
    requires NotLanded(a, b)
    ensures LandedOnce(a, b + [Change(true, before, after)], after)
  {
    assert (b + [Change(true, before, after)])[|a|..|b|] == b[|a|..];
  }

  datatype Result = Landed(newVal: int, isNew: bool) | Refused(why: Computed) | Exhausted

  /**
   * INCRBY and HINCRBY. For every sequence of observations, stale or not, and every interference:
   * a landed increment is one write of ours, after foreign ones only, whose value is the number it
   * replaced plus the delta; any other outcome leaves no write of ours.
   */
  method IncrBy(item: ValueItem<Bytes>, delta: int, observed: nat -> Option<Bytes>, others: nat -> seq<Option<Bytes>>)
    returns (r: Result)
    requires InInt64(delta)
    modifies item
    ensures r.Landed? ==>
              && LandedOnce(old(item.history), item.history, item.value)
              && var before := item.history[|item.history| - 1].before;
                 && r.isNew == before.None?
                 && Number(before).Some?
                 && r.newVal == Number(before).value + delta
                 && Number(item.value) == Some(r.newVal)
    ensures !r.Landed? ==> NotLanded(old(item.history), item.history)
    ensures r.Refused? ==> r.why == NotInteger || r.why == Overflow
  {
    hide Number, LandedOnce, NotLanded;
    ghost var was := item.history;
    assert NotLanded(was, was) by { Unchanged(was); }
    var i := 0;
    while i < MAX_RMW_RETRIES
      invariant 0 <= i <= MAX_RMW_RETRIES && NotLanded(was, item.history)
    {
      var rv := observed(i);
      ghost var before := item.history;
      item.Interfere(others(i));
      StillForeign(was, before, item.history);
      var cur := Some(0);
      if rv.Some? {
        cur := ParseInt(rv.value);
      }
      if cur.None? {
        return Refused(NotInteger);
      }
      if (delta > 0 && cur.value > MAX_INT64 - delta) || (delta < 0 && cur.value < MIN_INT64 - delta) {
        return Refused(Overflow);
      }
      var next := cur.value + delta;
      IncrementIsAddition(delta, rv);
      NowLanded(was, item.history, rv, Some(Render(next)));
      var ok := item.SetCas(Render(next), rv);
      if ok {
        return Landed(next, rv.None?);
      }
      i := i + 1;
    }
    return Exhausted;
  }

  lemma Unchanged<V>(was: seq<Change<V>>)
    ensures NotLanded(was, was)
  {
  }
}
