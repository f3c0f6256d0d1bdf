/** ZADD with NX, XX and CH: the batched flag path against pair-by-pair application. */
module ZAdd {
  import opened Prelude
  import Redis

  type Scores<S> = map<Bytes, S>

  datatype Pair<S> = Pair(member: Bytes, score: S)

  datatype Flags = Flags(nx: bool, xx: bool, ch: bool, incr: bool)

  // ----- Pair by pair ---------------------------------------------------------------------------

  /** NX leaves members that exist alone, XX those that do not. */
  predicate Gated<S>(m: Scores<S>, f: Flags, p: Pair<S>) {
    (f.nx && p.member in m) || (f.xx && p.member !in m)
  }

  function ApplyPair<S>(m: Scores<S>, f: Flags, p: Pair<S>): Scores<S> {
    if Gated(m, f, p) then m else m[p.member := p.score]
  }

  /** The first n pairs, left to right. */
  function ApplyPairs<S>(m: Scores<S>, f: Flags, pairs: seq<Pair<S>>, n: nat): Scores<S>
    requires n <= |pairs|
  {
    if n == 0 then m else ApplyPair(ApplyPairs(m, f, pairs, n - 1), f, pairs[n - 1])
  }

  /** The scores the first n pairs set. */
  function Written<S>(m: Scores<S>, f: Flags, pairs: seq<Pair<S>>, n: nat): Scores<S>
    requires n <= |pairs|
  {
    if n == 0 then map[]
    else
      var w, p := Written(m, f, pairs, n - 1), pairs[n - 1];
      if Gated(ApplyPairs(m, f, pairs, n - 1), f, p) then w else w[p.member := p.score]
  }

  /** 1 if the maps differ. */
  function Diff<S(==)>(a: Scores<S>, b: Scores<S>): nat {
    if a != b then 1 else 0
  }

  /** How many of the first n pairs altered the map. */
  function Alterations<S(==)>(m: Scores<S>, f: Flags, pairs: seq<Pair<S>>, n: nat): nat
    requires n <= |pairs|
  {
    if n == 0 then 0
    else Alterations(m, f, pairs, n - 1)
         + Diff(ApplyPairs(m, f, pairs, n), ApplyPairs(m, f, pairs, n - 1))
  }

  /** Stored scores overlaid with written ones. */
  function Overlay<S>(base: Scores<S>, written: Scores<S>): Scores<S> {
    base + written
  }

  // ----- The stored sorted set ------------------------------------------------------------------

  /**
   * The meta item as a sorted-set command sees it: none, a live sorted set with its count, an expired
   * key whose items are not reclaimed yet, or a live key of another type.
   */
  datatype Key = Absent | Live(count: int) | Stale | Foreign

  /** A live sorted set has an exact count; only an expired key keeps items that nobody counts. */
  ghost predicate Sound<S>(key: Key, scores: Scores<S>) {
    match key
    case Live(count) => count == |scores| >= 1
    case Stale => true
    case _ => scores == map[]
  }

  /** What clients see. */
  function Visible<S>(key: Key, scores: Scores<S>): Scores<S> {
    if key.Live? then scores else map[]
  }

  function CountOf(key: Key): int {
    if key.Live? then key.count else 0
  }

  /** A sorted-set key: its meta item and its member items. */
  class ZSet<S(==, !new)> {
    var key: Key
    var scores: Scores<S>

    constructor (key: Key, scores: Scores<S>)
      ensures this.key == key && this.scores == scores
    {
      this.key, this.scores := key, scores;
    }

    method ZScore(member: Bytes) returns (score: Option<S>)
      ensures score == if member in scores then Some(scores[member]) else None
    {
      score := if member in scores then Some(scores[member]) else None;
    }

    /** Create or verify the type; an expired key is taken over and its items reclaimed. */
    method EnsureType() returns (ok: bool)
      modifies this
      ensures ok <==> !old(key).Foreign?
      ensures !ok ==> key == old(key) && scores == old(scores)
      ensures ok ==> key == Live(CountOf(old(key))) && scores == Visible(old(key), old(scores))
    {
      ok := !key.Foreign?;
      if ok && !key.Live? {
        key, scores := Live(0), map[];
      }
    }

    /** Write scores unconditionally; the last of a repeated member wins; the answer counts new members. */
    method ZAdd(members: seq<Pair<S>>) returns (added: nat)
      modifies this`scores
      ensures scores == Overlay(old(scores), LastScores(members))
      ensures added == |scores| - |old(scores)|
    {
      var m := map[];
      for i := 0 to |members|
        invariant m == LastScores(members[..i])
      {
        assert members[..i + 1][..i] == members[..i];
        m := m[members[i].member := members[i].score];
      }
      assert members[..|members|] == members;
      added := |m.Keys - scores.Keys|;
      UnionSize(scores, m);
      scores := Overlay(scores, m);
    }

    method AdjustCount(delta: int)
      requires key.Live? && delta >= 0
      modifies this`key
      ensures key == Live(old(key).count + delta)
    {
      key := Live(key.count + delta);
    }
  }

  function LastScores<S>(members: seq<Pair<S>>): Scores<S> {
    if members == [] then map[]
    else LastScores(members[..|members| - 1])[members[|members| - 1].member := members[|members| - 1].score]
  }

  lemma {:induction false} LastScoresKeys<S>(members: seq<Pair<S>>, i: nat)
    requires i < |members|
    ensures members[i].member in LastScores(members)
  {
    if i < |members| - 1 {
      LastScoresKeys(members[..|members| - 1], i);
    }
  }

  // ----- The flag path --------------------------------------------------------------------------

  /** What the loop's local view knows: every member it has loaded, at its current score. */
  ghost predicate Tracks<S>(cur: Scores<S>, base: Scores<S>, scoreOf: Scores<S>, hasMember: map<Bytes, bool>) {
    && (forall m :: m in hasMember ==> (hasMember[m] <==> m in cur))
    && (forall m :: m in hasMember && m in cur ==> m in scoreOf && scoreOf[m] == cur[m])
    && (forall m :: m !in hasMember ==> (m in cur <==> m in base) && (m in cur ==> cur[m] == base[m]))
  }

  /** The members to write, each once, in order of first use. */
  ghost predicate Lists<S>(writeOrder: seq<Bytes>, final: Scores<S>) {
    && (forall i, j :: 0 <= i < j < |writeOrder| ==> writeOrder[i] != writeOrder[j])
    && (forall m :: m in writeOrder <==> m in final)
  }

  lemma OverlayOne<S>(base: Scores<S>, final: Scores<S>, m: Bytes, score: S)
    ensures Overlay(base, final)[m := score] == Overlay(base, final[m := score])
  {
  }

  lemma OverlayGrows<S>(base: Scores<S>, final: Scores<S>)
    ensures |Overlay(base, final)| >= |base|
  {
    UnionSize(base, final);
  }

  lemma UpdateSize<S>(cur: Scores<S>, m: Bytes, score: S)
    ensures |cur[m := score]| == |cur| + (if m in cur then 0 else 1)
    ensures Diff(cur[m := score], cur) == if m in cur && cur[m] == score then 0 else 1
  {
  }

  lemma SameDoesNotDiffer<S>(cur: Scores<S>)
    ensures Diff(cur, cur) == 0
  {
  }

  lemma FinalWrites<S>(writeOrder: seq<Bytes>, final: Scores<S>, toWrite: seq<Pair<S>>)
    requires Lists(writeOrder, final) && |toWrite| == |writeOrder|
    requires forall i :: 0 <= i < |writeOrder| ==> toWrite[i] == Pair(writeOrder[i], final[writeOrder[i]])
    ensures LastScores(toWrite) == final
  {
    forall m | m in final ensures m in LastScores(toWrite) {
      var i :| 0 <= i < |writeOrder| && writeOrder[i] == m;
      LastScoresKeys(toWrite, i);
    }
    WritesAgree(writeOrder, final, toWrite);
  }

  lemma {:induction false} WritesAgree<S>(writeOrder: seq<Bytes>, final: Scores<S>, toWrite: seq<Pair<S>>)
    requires |toWrite| == |writeOrder| && forall m :: m in writeOrder ==> m in final
    requires forall i :: 0 <= i < |writeOrder| ==> toWrite[i] == Pair(writeOrder[i], final[writeOrder[i]])
    ensures forall m :: m in LastScores(toWrite) ==> m in final && LastScores(toWrite)[m] == final[m]
  {
    if toWrite != [] {
      var n := |toWrite| - 1;
      WritesAgree(writeOrder[..n], final, toWrite[..n]);
      assert writeOrder[n] in writeOrder;
    }
  }

  lemma TrackLoad<S>(cur: Scores<S>, base: Scores<S>, scoreOf: Scores<S>, hasMember: map<Bytes, bool>, m: Bytes)
    requires Tracks(cur, base, scoreOf, hasMember) && m !in hasMember
    ensures Tracks(cur, base, if m in base then scoreOf[m := base[m]] else scoreOf, hasMember[m := m in base])
  {
  }

  lemma TrackWrite<S>(cur: Scores<S>, base: Scores<S>, scoreOf: Scores<S>, hasMember: map<Bytes, bool>,
                      m: Bytes, score: S)
    requires Tracks(cur, base, scoreOf, hasMember) && m in hasMember
    ensures hasMember[m] <==> m in cur
    ensures m in cur ==> m in scoreOf && scoreOf[m] == cur[m]
    ensures Tracks(cur[m := score], base, scoreOf[m := score], hasMember[m := true])
  {
  }

  lemma ListWrite<S>(writeOrder: seq<Bytes>, final: Scores<S>, m: Bytes, score: S)
    requires Lists(writeOrder, final)
    ensures Lists(if m in final then writeOrder else writeOrder + [m], final[m := score])
  {
  }

  /** The in-command view: what is known of each member, what will be written, the two counters. */
  datatype Plan<S> = Plan(
    scoreOf: Scores<S>, hasMember: map<Bytes, bool>, writeOrder: seq<Bytes>, final: Scores<S>, added: int, changed: int)

  /** The view stands for the map cur after a number of alterations. */
  ghost predicate Stands<S>(v: Plan<S>, base: Scores<S>, cur: Scores<S>, alterations: int) {
    && Lists(v.writeOrder, v.final)
    && cur == Overlay(base, v.final)
    && Tracks(cur, base, v.scoreOf, v.hasMember)
    && v.added == |cur| - |base|
    && v.changed == alterations
  }

  /** Read a member's stored score unless it is known already. */
  method Look<S(==, !new)>(z: ZSet<S>, v: Plan<S>, m: Bytes, ghost cur: Scores<S>, ghost alterations: int)
    returns (w: Plan<S>)
    requires Stands(v, z.scores, cur, alterations)
    ensures Stands(w, z.scores, cur, alterations) && m in w.hasMember && (w.hasMember[m] <==> m in cur)
    ensures w.final == v.final
  {
    hide Lists, Overlay;
    w := v;
    if m !in v.hasMember {
      TrackLoad(cur, z.scores, v.scoreOf, v.hasMember, m);
      var found := z.ZScore(m);
      w := v.(hasMember := v.hasMember[m := found.Some?],
              scoreOf := if found.Some? then v.scoreOf[m := found.value] else v.scoreOf);
    }
  }

  /** Record a pair that passed the gate. */
  function Recorded<S(==)>(v: Plan<S>, m: Bytes, score: S): Plan<S>
    requires m in v.hasMember && (v.hasMember[m] ==> m in v.scoreOf)
  {
    var isNew := !v.hasMember[m];
    Plan(
      v.scoreOf[m := score], v.hasMember[m := true],
      if m in v.final then v.writeOrder else v.writeOrder + [m], v.final[m := score],
      if isNew then v.added + 1 else v.added,
      if isNew || score != v.scoreOf[m] then v.changed + 1 else v.changed)
  }

  lemma RecordedFields<S>(v: Plan<S>, base: Scores<S>, cur: Scores<S>, m: Bytes, score: S)
    requires Tracks(cur, base, v.scoreOf, v.hasMember) && m in v.hasMember
    ensures v.hasMember[m] ==> m in v.scoreOf
    ensures var w := Recorded(v, m, score);
            && w.scoreOf == v.scoreOf[m := score] && w.hasMember == v.hasMember[m := true]
            && w.final == v.final[m := score]
            && w.writeOrder == (if m in v.final then v.writeOrder else v.writeOrder + [m])
            && w.added == v.added + (if m in cur then 0 else 1)
            && w.changed == v.changed + (if m in cur && cur[m] == score then 0 else 1)
  {
  }

  lemma RecordedStands<S>(v: Plan<S>, base: Scores<S>, cur: Scores<S>, alterations: int, m: Bytes, score: S)
    requires Stands(v, base, cur, alterations) && m in v.hasMember
    ensures v.hasMember[m] ==> m in v.scoreOf
    ensures Stands(Recorded(v, m, score), base, cur[m := score], alterations + Diff(cur[m := score], cur))
  {
    hide Tracks, Lists, Overlay, Diff, Recorded;
    RecordedFields(v, base, cur, m, score);
    TrackWrite(cur, base, v.scoreOf, v.hasMember, m, score);
    OverlayOne(base, v.final, m, score);
    UpdateSize(cur, m, score);
    ListWrite(v.writeOrder, v.final, m, score);
  }

  /** One pair: read the member, apply the gate, record. */
  method OnePair<S(==, !new)>(z: ZSet<S>, f: Flags, p: Pair<S>, v: Plan<S>,
                              ghost cur: Scores<S>, ghost alterations: int)
    returns (w: Plan<S>)
    requires Stands(v, z.scores, cur, alterations)
    ensures var next := ApplyPair(cur, f, p);
            Stands(w, z.scores, next, alterations + Diff(next, cur))
    ensures w.final == if Gated(cur, f, p) then v.final else v.final[p.member := p.score]
  {
    hide Stands, Diff;
    w := Look(z, v, p.member, cur, alterations);
    if (f.nx && w.hasMember[p.member]) || (f.xx && !w.hasMember[p.member]) {
      SameDoesNotDiffer(cur);
      return;
    }
    RecordedStands(w, z.scores, cur, alterations, p.member, p.score);
    w := Recorded(w, p.member, p.score);
  }

  /** The view after the first n pairs. */
  ghost predicate PlanAt<S>(v: Plan<S>, base: Scores<S>, f: Flags, pairs: seq<Pair<S>>, n: nat)
    requires n <= |pairs|
  {
    && Stands(v, base, ApplyPairs(base, f, pairs, n), Alterations(base, f, pairs, n))
    && v.final == Written(base, f, pairs, n)
  }

  lemma NothingPlanned<S>(base: Scores<S>, f: Flags, pairs: seq<Pair<S>>)
    ensures PlanAt(Plan(map[], map[], [], map[], 0, 0), base, f, pairs, 0)
  {
    NoOverlay(base, map[]);
  }

  lemma NextPlanned<S>(v: Plan<S>, w: Plan<S>, base: Scores<S>, f: Flags, pairs: seq<Pair<S>>, n: nat)
    requires n < |pairs| && PlanAt(v, base, f, pairs, n)
    requires var cur, p := ApplyPairs(base, f, pairs, n), pairs[n];
             var next := ApplyPair(cur, f, p);
             && Stands(w, base, next, Alterations(base, f, pairs, n) + Diff(next, cur))
             && w.final == if Gated(cur, f, p) then v.final else v.final[p.member := p.score]
    ensures PlanAt(w, base, f, pairs, n + 1)
  {
    hide Stands, ApplyPair, Gated, Diff;
  }

  /** The left-to-right pass over the pairs, reading each member at most once. */
  method PlanWrites<S(==, !new)>(z: ZSet<S>, f: Flags, pairs: seq<Pair<S>>) returns (v: Plan<S>)
    ensures PlanAt(v, z.scores, f, pairs, |pairs|)
  {
    hide Stands, Diff, ApplyPair, Gated, ApplyPairs, Written, Alterations;
    v := Plan(map[], map[], [], map[], 0, 0);
    NothingPlanned(z.scores, f, pairs);
    for n := 0 to |pairs|
      invariant PlanAt(v, z.scores, f, pairs, n)
    {
      ghost var was := v;
      v := OnePair(z, f, pairs[n], v, ApplyPairs(z.scores, f, pairs, n), Alterations(z.scores, f, pairs, n));
      NextPlanned(was, v, z.scores, f, pairs, n);
    }
  }

  /** The written pairs, in order of first use. */
  method ToWrite<S(==)>(wo: seq<Bytes>, final: Scores<S>) returns (toWrite: seq<Pair<S>>)
    requires Lists(wo, final)
    ensures LastScores(toWrite) == final
  {
    toWrite := seq(|wo|, i requires 0 <= i < |wo| && wo[i] in final => Pair(wo[i], final[wo[i]]));
    FinalWrites(wo, final, toWrite);
  }

  /** The batched write of a plan. */
  method WritePlan<S(==, !new)>(z: ZSet<S>, plan: Plan<S>)
    requires !z.key.Foreign? && Lists(plan.writeOrder, plan.final) && plan.added >= 0
    modifies z
    ensures plan.final == map[] ==> z.key == old(z.key) && z.scores == old(z.scores)
    ensures plan.final != map[] ==>
              && z.key == Live(CountOf(old(z.key)) + plan.added)
              && z.scores == Overlay(Visible(old(z.key), old(z.scores)), plan.final)
  {
    var wo, final := plan.writeOrder, plan.final;
    hide Lists, LastScores, Overlay, Visible;
    SomethingToWrite(wo, final);
    if |wo| == 0 {
      return;
    }
    var toWrite := ToWrite(wo, final);
    var ok := z.EnsureType();
    var added := z.ZAdd(toWrite);
    if plan.added > 0 {
      z.AdjustCount(plan.added);
    }
  }

  lemma SomethingToWrite<S>(wo: seq<Bytes>, final: Scores<S>)
    requires Lists(wo, final)
    ensures |wo| == 0 <==> final == map[]
  {
    if wo != [] {
      assert wo[0] in final;
    }
  }

  lemma NoOverlay<S>(base: Scores<S>, final: Scores<S>)
    requires final == map[]
    ensures Overlay(base, final) == base
  {
  }

  // ----- Arguments ------------------------------------------------------------------------------

  /** A score token and the member it is for. */
  datatype Raw = Raw(tok: Bytes, member: Bytes)

  /** Score parsing, a parameter of the model. */
  type Parser<!S> = Bytes -> Option<S>

  datatype Reply = Added(n: int) | BadScore(tok: Bytes) | WrongType | TooLarge

  /** The first token that is not a score. */
  function FirstBad<S>(parse: Parser<S>, raw: seq<Raw>): (bad: Option<Bytes>)
    ensures bad.None? ==> forall i :: 0 <= i < |raw| ==> parse(raw[i].tok).Some?
  {
    if raw == [] then None
    else if parse(raw[0].tok).None? then Some(raw[0].tok)
    else FirstBad(parse, raw[1..])
  }

  function Scored<S>(parse: Parser<S>, raw: seq<Raw>): (pairs: seq<Pair<S>>)
    requires FirstBad(parse, raw).None?
    ensures |pairs| == |raw|
  {
    seq(|raw|, i requires 0 <= i < |raw| => Pair(raw[i].member, parse(raw[i].tok).value))
  }

  function MembersOf(raw: seq<Raw>): seq<Bytes> {
    seq(|raw|, i requires 0 <= i < |raw| => raw[i].member)
  }

  /** The error of a ZADD, if any. With flags the type is checked before the sizes, without them after. */
  function Refusal(bad: Option<Bytes>, foreign: bool, fits: bool, flags: bool): Option<Reply> {
    if bad.Some? then Some(BadScore(bad.value))
    else if foreign && (flags || fits) then Some(WrongType)
    else if !fits then Some(TooLarge)
    else None
  }

  /** It is the first one in argument order. */
  lemma {:induction false} FirstBadIsFirst<S>(parse: Parser<S>, raw: seq<Raw>, i: nat)
    requires i < |raw| && parse(raw[i].tok).None? && forall j :: 0 <= j < i ==> parse(raw[j].tok).Some?
    ensures FirstBad(parse, raw) == Some(raw[i].tok)
  {
    if i > 0 {
      FirstBadIsFirst(parse, raw[1..], i - 1);
    }
  }

  /** A bad score is reported before anything else; a wrong type wins over a size with flags, not without. */
  lemma RefusalOrder(tok: Bytes, foreign: bool, fits: bool, flags: bool)
    ensures Refusal(Some(tok), foreign, fits, flags) == Some(BadScore(tok))
    ensures Refusal(None, true, false, true) == Some(WrongType) && Refusal(None, true, false, false) == Some(TooLarge)
    ensures Refusal(None, true, true, flags) == Some(WrongType)
    ensures Refusal(None, false, false, flags) == Some(TooLarge)
    ensures Refusal(None, false, true, flags) == None
  {
  }

  method ParseScores<S>(parse: Parser<S>, raw: seq<Raw>) returns (pairs: seq<Pair<S>>, bad: Option<Bytes>)
    ensures bad == FirstBad(parse, raw)
    ensures bad.None? ==> pairs == Scored(parse, raw)
  {
    pairs := [];
    for j := 0 to |raw|
      invariant FirstBad(parse, raw) == FirstBad(parse, raw[j..])
      invariant |pairs| == j
      invariant forall i :: 0 <= i < j ==> parse(raw[i].tok) == Some(pairs[i].score) && pairs[i].member == raw[i].member
    {
      assert raw[j..][0] == raw[j] && raw[j..][1..] == raw[j + 1..];
      var score := parse(raw[j].tok);
      if score.None? {
        return pairs, Some(raw[j].tok);
      }
      pairs := pairs + [Pair(raw[j].member, score.value)];
    }
    bad := None;
  }

  // ----- The flag path against its specification ------------------------------------------------

  datatype Outcome<S> = Outcome(key: Key, scores: Scores<S>, n: int)

  /** The growth, or with CH the number of pairs that altered the map. */
  function Answer<S(==)>(m: Scores<S>, f: Flags, pairs: seq<Pair<S>>): int {
    if f.ch then Alterations(m, f, pairs, |pairs|) else |ApplyPairs(m, f, pairs, |pairs|)| - |m|
  }

  /** What the flag path does: it plans over the member items, whether or not they are visible. */
  function Planned<S(==)>(key: Key, scores: Scores<S>, f: Flags, pairs: seq<Pair<S>>): Outcome<S> {
    var final := Written(scores, f, pairs, |pairs|);
    var added := |ApplyPairs(scores, f, pairs, |pairs|)| - |scores|;
    if final == map[] then Outcome(key, scores, Answer(scores, f, pairs))
    else Outcome(Live(CountOf(key) + added), Overlay(Visible(key, scores), final), Answer(scores, f, pairs))
  }

  /** What ZADD promises: pair-by-pair application to what is visible, its answer, an exact count. */
  ghost predicate Meets<S>(o: Outcome<S>, key: Key, scores: Scores<S>, f: Flags, pairs: seq<Pair<S>>) {
    var was := Visible(key, scores);
    && Sound(o.key, o.scores)
    && Visible(o.key, o.scores) == ApplyPairs(was, f, pairs, |pairs|)
    && o.n == Answer(was, f, pairs)
  }

  /** A pair names a member that an expired key has left behind. */
  ghost predicate MeetsLeftovers<S>(key: Key, scores: Scores<S>, pairs: seq<Pair<S>>) {
    key.Stale? && exists i :: 0 <= i < |pairs| && pairs[i].member in scores
  }

  lemma {:induction false} AppliedIsOverlay<S>(m: Scores<S>, f: Flags, pairs: seq<Pair<S>>, n: nat)
    requires n <= |pairs|
    ensures ApplyPairs(m, f, pairs, n) == Overlay(m, Written(m, f, pairs, n))
  {
    if n == 0 {
      NoOverlay(m, Written(m, f, pairs, n));
    } else {
      AppliedIsOverlay(m, f, pairs, n - 1);
      OverlayOne(m, Written(m, f, pairs, n - 1), pairs[n - 1].member, pairs[n - 1].score);
    }
  }

  predicate Named<S>(pairs: seq<Pair<S>>, n: nat, m: Bytes)
    requires n <= |pairs|
  {
    exists i :: 0 <= i < n && pairs[i].member == m
  }

  /** Which members are written: with NX the named ones that are not there, with XX those that are. */
  lemma {:induction false} WrittenKeys<S>(base: Scores<S>, f: Flags, pairs: seq<Pair<S>>, n: nat, m: Bytes)
    requires n <= |pairs| && !(f.nx && f.xx)
    ensures m in Written(base, f, pairs, n) <==>
              Named(pairs, n, m) && (f.nx ==> m !in base) && (f.xx ==> m in base)
  {
    if n > 0 {
      WrittenKeys(base, f, pairs, n - 1, m);
      AppliedIsOverlay(base, f, pairs, n - 1);
      if pairs[n - 1].member == m {
        assert Named(pairs, n, m);
      }
    }
  }

  lemma ApplyBeside<S>(base: Scores<S>, cur: Scores<S>, f: Flags, p: Pair<S>)
    requires p.member !in base && forall m :: m in cur ==> m !in base
    ensures ApplyPair(base + cur, f, p) == base + ApplyPair(cur, f, p)
    ensures Gated(base + cur, f, p) == Gated(cur, f, p)
    ensures forall m :: m in ApplyPair(cur, f, p) ==> m !in base
  {
    assert base + cur[p.member := p.score] == (base + cur)[p.member := p.score];
  }

  lemma DiffBeside<S>(base: Scores<S>, a: Scores<S>, b: Scores<S>)
    requires (forall m :: m in a ==> m !in base) && (forall m :: m in b ==> m !in base)
    ensures Diff(base + a, base + b) == Diff(a, b)
  {
    assert a == (base + a) - base.Keys;
    assert b == (base + b) - base.Keys;
  }

  // ----- What the flags mean --------------------------------------------------------------------

  /** NX never touches a score that is there; XX never adds a member. */
  lemma {:induction false} FlagsProtect<S>(m: Scores<S>, f: Flags, pairs: seq<Pair<S>>, n: nat, x: Bytes)
    requires n <= |pairs|
    ensures var after := ApplyPairs(m, f, pairs, n);
            && (x in m ==> x in after)
            && (f.nx && x in m ==> after[x] == m[x])
            && (f.xx && x !in m ==> x !in after)
            && (x in after ==> (x in m && after[x] == m[x])
                               || exists i :: 0 <= i < n && pairs[i] == Pair(x, after[x]))
  {
    if n > 0 {
      FlagsProtect(m, f, pairs, n - 1, x);
    }
  }

  /**
   * One pair. With CH the answer is 1 if it adds its member or changes the score of one that is there,
   * without CH only if it adds; a member the flags let through ends up with that score.
   */
  lemma OnePairAnswers<S>(m: Scores<S>, f: Flags, p: Pair<S>)
    ensures var adds := p.member !in m && !f.xx;
            var sets := p.member in m && !f.nx;
            && Answer(m, f.(ch := false), [p]) == (if adds then 1 else 0)
            && Answer(m, f.(ch := true), [p]) == (if adds || (sets && m[p.member] != p.score) then 1 else 0)
            && ApplyPairs(m, f, [p], 1) == if adds || sets then m[p.member := p.score] else m
  {
    OnePairPlanned(m, f, p);
    OnePairPlanned(m, f.(ch := false), p);
    OnePairPlanned(m, f.(ch := true), p);
    var g := f.(ch := true);
    assert Alterations(m, g, [p], 0) == 0 && ApplyPairs(m, g, [p], 0) == m;
    UpdateSize(m, p.member, p.score);
    SameDoesNotDiffer(m);
    hide Diff;
  }

  /** More pairs act on what the first ones left, and the answers add up. */
  lemma {:induction false} AnswersAddUp<S>(m: Scores<S>, f: Flags, ps: seq<Pair<S>>, qs: seq<Pair<S>>)
    ensures var between := ApplyPairs(m, f, ps, |ps|);
            && ApplyPairs(m, f, ps + qs, |ps + qs|) == ApplyPairs(between, f, qs, |qs|)
            && Answer(m, f, ps + qs) == Answer(m, f, ps) + Answer(between, f, qs)
  {
    AppliedInTwo(m, f, ps, qs, |qs|);
  }

  lemma {:induction false} AppliedInTwo<S>(m: Scores<S>, f: Flags, ps: seq<Pair<S>>, qs: seq<Pair<S>>, n: nat)
    requires n <= |qs|
    ensures var between := ApplyPairs(m, f, ps, |ps|);
            && ApplyPairs(m, f, ps + qs, |ps| + n) == ApplyPairs(between, f, qs, n)
            && Alterations(m, f, ps + qs, |ps| + n) == Alterations(m, f, ps, |ps|) + Alterations(between, f, qs, n)
  {
    hide ApplyPair, Diff;
    if n == 0 {
      SamePrefix(m, f, ps, qs, |ps|);
    } else {
      AppliedInTwo(m, f, ps, qs, n - 1);
      assert (ps + qs)[|ps| + n - 1] == qs[n - 1];
    }
  }

  lemma {:induction false} SamePrefix<S>(m: Scores<S>, f: Flags, ps: seq<Pair<S>>, qs: seq<Pair<S>>, n: nat)
    requires n <= |ps|
    ensures ApplyPairs(m, f, ps + qs, n) == ApplyPairs(m, f, ps, n)
    ensures Alterations(m, f, ps + qs, n) == Alterations(m, f, ps, n)
  {
    hide ApplyPair, Diff;
    if n > 0 {
      SamePrefix(m, f, ps, qs, n - 1);
    }
  }

  /** Items that no pair names make no difference. */
  lemma {:induction false} LeftoversIgnored<S>(base: Scores<S>, f: Flags, pairs: seq<Pair<S>>, n: nat)
    requires n <= |pairs| && forall i :: 0 <= i < |pairs| ==> pairs[i].member !in base
    ensures ApplyPairs(base, f, pairs, n) == base + ApplyPairs(map[], f, pairs, n)
    ensures Written(base, f, pairs, n) == Written(map[], f, pairs, n)
    ensures Alterations(base, f, pairs, n) == Alterations(map[], f, pairs, n)
    ensures forall m :: m in ApplyPairs(map[], f, pairs, n) ==> m !in base
  {
    hide ApplyPair, Gated, Diff;
    if n > 0 {
      LeftoversIgnored(base, f, pairs, n - 1);
      ApplyBeside(base, ApplyPairs(map[], f, pairs, n - 1), f, pairs[n - 1]);
      DiffBeside(base, ApplyPairs(map[], f, pairs, n), ApplyPairs(map[], f, pairs, n - 1));
    }
  }

  /**
   * The flag path keeps its promise, whatever the flags and pairs, except when it names a member that
   * an expired key has left behind: then the reply, the members or the count are wrong.
   */
  lemma FlagPathIsExact<S>(key: Key, scores: Scores<S>, f: Flags, pairs: seq<Pair<S>>)
    requires Sound(key, scores) && !key.Foreign? && !(f.nx && f.xx) && (f.nx || f.xx || f.ch)
    ensures Meets(Planned(key, scores, f, pairs), key, scores, f, pairs) <==> !MeetsLeftovers(key, scores, pairs)
  {
    AppliedIsOverlay(scores, f, pairs, |pairs|);
    if !key.Stale? {
      PlannedWhenVisible(key, scores, f, pairs);
    } else if MeetsLeftovers(key, scores, pairs) {
      var i :| 0 <= i < |pairs| && pairs[i].member in scores;
      PlannedOverLeftover(scores, f, pairs, i);
    } else {
      PlannedBesideLeftovers(scores, f, pairs);
    }
  }

  lemma PlannedWhenVisible<S>(key: Key, scores: Scores<S>, f: Flags, pairs: seq<Pair<S>>)
    requires Sound(key, scores) && (key.Live? || key.Absent?)
    ensures Meets(Planned(key, scores, f, pairs), key, scores, f, pairs)
  {
    hide ApplyPairs, Written, Answer;
    AppliedIsOverlay(scores, f, pairs, |pairs|);
    var final := Written(scores, f, pairs, |pairs|);
    if final == map[] {
      NoOverlay(scores, final);
    } else {
      OverlayHasWritten(scores, final);
    }
  }

  lemma OverlayHasWritten<S>(base: Scores<S>, final: Scores<S>)
    requires final != map[]
    ensures |Overlay(base, final)| >= 1
  {
    var m :| m in final;
    assert m in Overlay(base, final);
  }

  lemma PlannedBesideLeftovers<S>(scores: Scores<S>, f: Flags, pairs: seq<Pair<S>>)
    requires forall i :: 0 <= i < |pairs| ==> pairs[i].member !in scores
    ensures Meets(Planned(Stale, scores, f, pairs), Stale, scores, f, pairs)
  {
    hide ApplyPairs, Written, Alterations;
    hide Overlay;
    LeftoversIgnored(scores, f, pairs, |pairs|);
    AppliedIsOverlay(map[], f, pairs, |pairs|);
    var none: Scores<S> := map[];
    var final := Written(none, f, pairs, |pairs|);
    OntoNothing(final);
    BesideSize(scores, final);
    if final != map[] {
      OverlayHasWritten(none, final);
    }
  }

  lemma OntoNothing<S>(final: Scores<S>)
    ensures var none: Scores<S> := map[]; Overlay(none, final) == final
  {
  }

  lemma BesideSize<S>(a: Scores<S>, b: Scores<S>)
    requires forall m :: m in b ==> m !in a
    ensures |a + b| == |a| + |b|
  {
    UnionSize(a, b);
    assert b.Keys - a.Keys == b.Keys;
  }

  lemma PlannedOverLeftover<S>(scores: Scores<S>, f: Flags, pairs: seq<Pair<S>>, i: nat)
    requires i < |pairs| && pairs[i].member in scores && !(f.nx && f.xx) && (f.nx || f.xx || f.ch)
    ensures !Meets(Planned(Stale, scores, f, pairs), Stale, scores, f, pairs)
  {
    hide ApplyPairs, Written, Alterations;
    var m, n := pairs[i].member, |pairs|;
    var none: Scores<S> := map[];
    var final := Written(scores, f, pairs, n);
    assert Named(pairs, n, m);
    WrittenKeys(scores, f, pairs, n, m);
    WrittenKeys(none, f, pairs, n, m);
    AppliedIsOverlay(scores, f, pairs, n);
    AppliedIsOverlay(none, f, pairs, n);
    if !f.nx && !f.xx {
      UnionSize(scores, final);
      UnionSize(none, final);
      FewerNew(final.Keys, scores.Keys, m);
    }
  }

  lemma FewerNew(a: set<Bytes>, b: set<Bytes>, m: Bytes)
    requires m in a && m in b
    ensures |a - b| < |a - {}|
  {
    assert a - b <= a - {m};
    Cardinality(a - b, a - {m});
  }

  lemma {:induction false} Cardinality(a: set<Bytes>, b: set<Bytes>)
    requires a <= b
    ensures |a| <= |b|
  {
    assert b == a + (b - a);
  }

  lemma OnePairPlanned<S>(scores: Scores<S>, f: Flags, p: Pair<S>)
    ensures Written(scores, f, [p], 1) == if Gated(scores, f, p) then map[] else map[p.member := p.score]
    ensures ApplyPairs(scores, f, [p], 1) == ApplyPair(scores, f, p)
  {
    hide Gated, ApplyPair;
    assert Written(scores, f, [p], 0) == map[] && ApplyPairs(scores, f, [p], 0) == scores;
  }

  /** Examples of both failures: a new member that is not added, and a member that is not counted. */
  lemma LeftoverExamples<S>(m: Bytes, stored: S, score: S)
    ensures var left, pairs := map[m := stored], [Pair(m, score)];
            && Planned(Stale, left, Flags(true, false, true, false), pairs).scores == left
            && Planned(Stale, left, Flags(true, false, true, false), pairs).key == Stale
            && Planned(Stale, left, Flags(false, false, true, false), pairs).scores == map[m := score]
            && Planned(Stale, left, Flags(false, false, true, false), pairs).key == Live(0)
  {
    hide Written, ApplyPairs, Answer;
    OnePairPlanned(map[m := stored], Flags(true, false, true, false), Pair(m, score));
    OnePairPlanned(map[m := stored], Flags(false, false, true, false), Pair(m, score));
    UpdateSize(map[m := stored], m, score);
    OntoNothing(map[m := score]);
  }

  // ----- The two paths --------------------------------------------------------------------------

  method ApplyPlan<S(==, !new)>(z: ZSet<S>, f: Flags, pairs: seq<Pair<S>>) returns (n: int)
    requires !z.key.Foreign?
    modifies z
    ensures Outcome(z.key, z.scores, n) == Planned(old(z.key), old(z.scores), f, pairs)
  {
    hide ApplyPairs, Written, Alterations, Lists, Overlay, Tracks;
    var plan := PlanWrites(z, f, pairs);
    OverlayGrows(z.scores, plan.final);
    WritePlan(z, plan);
    n := if f.ch then plan.changed else plan.added;
  }

  /**
   * The flag path. Errors, in order, leave the key alone. Otherwise it meets its promise if and only if
   * it names no member that an expired key has left behind.
   */
  method FlagPath<S(==, !new)>(z: ZSet<S>, f: Flags, key: Bytes, parse: Parser<S>, raw: seq<Raw>)
    returns (reply: Reply)
    requires Sound(z.key, z.scores) && !(f.nx && f.xx) && (f.nx || f.xx || f.ch)
    modifies z
    ensures var was, scores := old(z.key), old(z.scores);
            var bad := FirstBad(parse, raw);
            var refusal := Refusal(bad, was.Foreign?, Redis.Fits(key, MembersOf(raw), []), true);
            if refusal.Some? then reply == refusal.value && z.key == was && z.scores == scores
            else
              var pairs := Scored(parse, raw);
              && reply.Added?
              && Outcome(z.key, z.scores, reply.n) == Planned(was, scores, f, pairs)
              && (Meets(Outcome(z.key, z.scores, reply.n), was, scores, f, pairs) <==>
                    !MeetsLeftovers(was, scores, pairs))
  {
    hide Planned, Sound, Meets, MeetsLeftovers, Redis.Fits;
    var pairs, bad := ParseScores(parse, raw);
    if bad.Some? {
      return BadScore(bad.value);
    }
    if z.key.Foreign? {
      return WrongType;
    }
    if !Redis.Fits(key, MembersOf(raw), []) {
      return TooLarge;
    }
    FlagPathIsExact(z.key, z.scores, f, pairs);
    var n := ApplyPlan(z, f, pairs);
    return Added(n);
  }

  const NO_FLAGS := Flags(false, false, false, false)

  lemma {:induction false} PlainPairsOverlay<S>(base: Scores<S>, pairs: seq<Pair<S>>, n: nat)
    requires n <= |pairs|
    ensures ApplyPairs(base, NO_FLAGS, pairs, n) == Overlay(base, LastScores(pairs[..n]))
  {
    if n > 0 {
      PlainPairsOverlay(base, pairs, n - 1);
      assert pairs[..n][..n - 1] == pairs[..n - 1];
    }
  }

  /** The path without flags meets its promise, over an expired key too. */
  method FastPath<S(==, !new)>(z: ZSet<S>, key: Bytes, parse: Parser<S>, raw: seq<Raw>) returns (reply: Reply)
    requires Sound(z.key, z.scores) && |raw| > 0
    modifies z
    ensures var was, scores := old(z.key), old(z.scores);
            var bad := FirstBad(parse, raw);
            var refusal := Refusal(bad, was.Foreign?, Redis.Fits(key, MembersOf(raw), []), false);
            if refusal.Some? then reply == refusal.value && z.key == was && z.scores == scores
            else reply.Added? && Meets(Outcome(z.key, z.scores, reply.n), was, scores, NO_FLAGS, Scored(parse, raw))
  {
    hide ApplyPairs, LastScores, Overlay, Redis.Fits;
    var pairs, bad := ParseScores(parse, raw);
    if bad.Some? {
      return BadScore(bad.value);
    }
    if !Redis.Fits(key, MembersOf(raw), []) {
      return TooLarge;
    }
    var ok := z.EnsureType();
    if !ok {
      return WrongType;
    }
    PlainPairsOverlay(z.scores, pairs, |pairs|);
    assert pairs[..|pairs|] == pairs;
    OverlayNotEmpty(z.scores, pairs);
    var added := z.ZAdd(pairs);
    z.AdjustCount(added);
    return Added(added);
  }

  lemma OverlayNotEmpty<S>(base: Scores<S>, pairs: seq<Pair<S>>)
    requires pairs != []
    ensures |Overlay(base, LastScores(pairs))| >= 1
  {
    LastScoresKeys(pairs, 0);
    assert pairs[0].member in Overlay(base, LastScores(pairs));
  }

  // ----- Option tokens --------------------------------------------------------------------------

  datatype Token = NX | XX | CH | INCR | Other

  datatype FlagError = NoError | Syntax | NxXx | IncrPair

  /** The length of the leading run of option tokens. */
  function OptionRun(rest: seq<Token>): (i: nat)
    ensures i <= |rest|
    ensures forall j :: 0 <= j < i ==> rest[j] != Other
    ensures i < |rest| ==> rest[i] == Other
  {
    if rest == [] || rest[0] == Other then 0 else 1 + OptionRun(rest[1..])
  }

  lemma OptionRunIs(rest: seq<Token>, i: nat)
    requires i <= |rest| && (forall j :: 0 <= j < i ==> rest[j] != Other) && (i < |rest| ==> rest[i] == Other)
    ensures OptionRun(rest) == i
  {
  }

  /** Flags are read up to the first other token; the pair shape is judged before NX with XX, INCR last. */
  method ParseZAddFlags(rest: seq<Token>) returns (f: Flags, firstPair: nat, err: FlagError)
    ensures firstPair == OptionRun(rest)
    ensures var options, pairs := rest[..firstPair], |rest| - firstPair;
            && f == Flags(NX in options, XX in options, CH in options, INCR in options)
            && err == if pairs == 0 || pairs % 2 != 0 then Syntax
                      else if NX in options && XX in options then NxXx
                      else if INCR in options && pairs != 2 then IncrPair
                      else NoError
  {
    f := NO_FLAGS;
    var i := 0;
    while i < |rest|
      invariant 0 <= i <= |rest|
      invariant forall j :: 0 <= j < i ==> rest[j] != Other
      invariant f == Flags(NX in rest[..i], XX in rest[..i], CH in rest[..i], INCR in rest[..i])
    {
      assert rest[..i + 1] == rest[..i] + [rest[i]];
      match rest[i] {
        case NX => f := f.(nx := true);
        case XX => f := f.(xx := true);
        case CH => f := f.(ch := true);
        case INCR => f := f.(incr := true);
        case Other => break;
      }
      i := i + 1;
    }
    OptionRunIs(rest, i);
    firstPair := i;
    var pairs := |rest| - i;
    if pairs == 0 || pairs % 2 != 0 {
      return f, firstPair, Syntax;
    }
    if f.nx && f.xx {
      return f, firstPair, NxXx;
    }
    err := if f.incr && pairs != 2 then IncrPair else NoError;
  }
}
