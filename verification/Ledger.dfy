/**
 * The count ledger of one collection key under every interleaving of add and remove commands
 * (SADD, SREM, HSET, HDEL): item writes, atomic count adjustments and the conditional deletion of
 * an emptied key's meta item are separate steps of concurrent clients. No deletion of the whole
 * key, no expiry and no failure.
 */
module Ledger {
  import opened Prelude

  /** Where a client is inside its command; an emptier has seen its removal bring the count to zero or below. */
  datatype Client =
    | Idle
    | Adding(todo: set<Bytes>, added: nat)
    | Removing(todo: set<Bytes>, removed: nat)
    | Emptying

  /** The meta item's count if there is one, the member items, and the counts thrown away so far. */
  datatype State = State(meta: Option<int>, members: set<Bytes>, clients: seq<Client>, discarded: int)

  function Cnt(meta: Option<int>): int {
    if meta.Some? then meta.value else 0
  }

  datatype Step =
    | StartAdd(ms: set<Bytes>)
    | AddOne(m: Bytes)
    | FinishAdd
    | StartRemove(ms: set<Bytes>)
    | RemoveOne(m: Bytes)
    | FinishRemove
    | DeleteMetaIfEmpty

  ghost predicate Enabled(s: State, i: nat, step: Step) {
    && i < |s.clients|
    && var c := s.clients[i];
       match step
       case StartAdd(_) => c.Idle?
       case AddOne(m) => c.Adding? && m in c.todo
       case FinishAdd => c.Adding? && c.todo == {}
       case StartRemove(_) => c.Idle? && s.meta.Some?
       case RemoveOne(m) => c.Removing? && m in c.todo
       case FinishRemove => c.Removing? && c.todo == {}
       case DeleteMetaIfEmpty => c.Emptying?
  }

  /** One atomic storage operation of client i. */
  ghost function Next(s: State, i: nat, step: Step): State
    requires Enabled(s, i, step)
  {
    var c := s.clients[i];
    match step
    case StartAdd(ms) =>
      // EnsureTypeExpiring with delta 0: the key now exists.
      s.(meta := Some(Cnt(s.meta)), clients := s.clients[i := Adding(ms, 0)])
    case AddOne(m) =>
      s.(members := s.members + {m},
         clients := s.clients[i := Adding(c.todo - {m}, if m in s.members then c.added else c.added + 1)])
    case FinishAdd =>
      s.(meta := if c.added == 0 then s.meta else Some(Cnt(s.meta) + c.added), clients := s.clients[i := Idle])
    case StartRemove(ms) =>
      s.(clients := s.clients[i := Removing(ms, 0)])
    case RemoveOne(m) =>
      s.(members := s.members - {m},
         clients := s.clients[i := Removing(c.todo - {m}, if m in s.members then c.removed + 1 else c.removed)])
    case FinishRemove =>
      if c.removed == 0 then s.(clients := s.clients[i := Idle])
      else
        var count := Cnt(s.meta) - c.removed;
        s.(meta := Some(count), clients := s.clients[i := if count <= 0 then Emptying else Idle])
    case DeleteMetaIfEmpty =>
      if s.meta.Some? && s.meta.value <= 0 then
        s.(meta := None, discarded := s.discarded + s.meta.value, clients := s.clients[i := Idle])
      else s.(clients := s.clients[i := Idle])
  }

  /** A run: which client took which step. */
  type Schedule = seq<(nat, Step)>

  ghost predicate Runs(s: State, run: Schedule)
    decreases |run|
  {
    run != [] ==> Enabled(s, run[0].0, run[0].1) && Runs(Next(s, run[0].0, run[0].1), run[1..])
  }

  ghost function After(s: State, run: Schedule): State
    requires Runs(s, run)
    decreases |run|
  {
    if run == [] then s else After(Next(s, run[0].0, run[0].1), run[1..])
  }

  ghost predicate AllIdle(s: State) {
    forall i :: 0 <= i < |s.clients| ==> s.clients[i].Idle?
  }

  /** A key whose count is exact, with every client between commands. */
  ghost predicate Init(s: State) {
    && AllIdle(s) && s.discarded == 0
    && (if s.meta.None? then s.members == {} else s.meta.value == |s.members|)
  }

  // ----- The ledger -----------------------------------------------------------------------------

  /** The part of the count a client has earned but not yet written. */
  function Delta(c: Client): int {
    match c
    case Adding(_, added) => added
    case Removing(_, removed) => -(removed as int)
    case _ => 0
  }

  function Pending(cs: seq<Client>): int {
    if cs == [] then 0 else Pending(cs[..|cs| - 1]) + Delta(cs[|cs| - 1])
  }

  lemma {:induction false} PendingUpdate(cs: seq<Client>, i: nat, c: Client)
    requires i < |cs|
    ensures Pending(cs[i := c]) == Pending(cs) - Delta(cs[i]) + Delta(c)
  {
    var n := |cs| - 1;
    if i == n {
      assert cs[i := c][..n] == cs[..n];
    } else {
      PendingUpdate(cs[..n], i, c);
      assert cs[i := c][..n] == cs[..n][i := c];
    }
  }

  lemma {:induction false} PendingOfIdle(cs: seq<Client>)
    requires forall i :: 0 <= i < |cs| ==> cs[i].Idle?
    ensures Pending(cs) == 0
  {
    if cs != [] {
      PendingOfIdle(cs[..|cs| - 1]);
    }
  }

  ghost predicate Balanced(s: State) {
    && Cnt(s.meta) + Pending(s.clients) + s.discarded == |s.members|
    && s.discarded <= 0
  }

  lemma StepKeepsBalance(s: State, i: nat, step: Step)
    requires Balanced(s) && Enabled(s, i, step)
    ensures Balanced(Next(s, i, step))
    ensures Next(s, i, step).discarded <= s.discarded
  {
    hide Pending;
    var s' := Next(s, i, step);
    OnlyOneMoves(s, i, step);
    PendingUpdate(s.clients, i, s'.clients[i]);
    MovedDelta(s, i, step);
    hide Next, Enabled, Delta, Cnt;
  }

  lemma OnlyOneMoves(s: State, i: nat, step: Step)
    requires Enabled(s, i, step)
    ensures var s' := Next(s, i, step);
            |s'.clients| == |s.clients| && s'.clients == s.clients[i := s'.clients[i]]
  {
  }

  /** A step moves as much into the count or the members as it takes from what its client owes. */
  lemma MovedDelta(s: State, i: nat, step: Step)
    requires Enabled(s, i, step)
    ensures var s' := Next(s, i, step);
            && |s'.clients| == |s.clients|
            && Cnt(s'.meta) + Delta(s'.clients[i]) + s'.discarded - |s'.members| ==
               Cnt(s.meta) + Delta(s.clients[i]) + s.discarded - |s.members|
            && s'.discarded <= s.discarded
  {
    var s' := Next(s, i, step);
    if step.AddOne? {
      SizeWith(s.members, step.m);
      assert s'.members == s.members + {step.m};
    } else if step.RemoveOne? {
      SizeWithout(s.members, step.m);
      assert s'.members == s.members - {step.m};
    } else {
      assert s'.members == s.members;
    }
  }

  lemma SizeWith(members: set<Bytes>, m: Bytes)
    ensures |members + {m}| == |members| + (if m in members then 0 else 1)
  {
    if m in members {
      assert members + {m} == members;
    }
  }

  lemma SizeWithout(members: set<Bytes>, m: Bytes)
    ensures |members - {m}| == |members| - (if m in members then 1 else 0)
  {
    if m in members {
      assert members == (members - {m}) + {m};
    } else {
      assert members - {m} == members;
    }
  }

  lemma {:induction false} RunKeepsBalance(s: State, run: Schedule)
    requires Balanced(s) && Runs(s, run)
    ensures Balanced(After(s, run)) && After(s, run).discarded <= s.discarded
    decreases |run|
  {
    if run != [] {
      StepKeepsBalance(s, run[0].0, run[0].1);
      RunKeepsBalance(Next(s, run[0].0, run[0].1), run[1..]);
    }
  }

  /** The ledger holds at every point of every run. */
  lemma LedgerHolds(s: State, run: Schedule)
    requires Init(s) && Runs(s, run)
    ensures var e := After(s, run);
            && Cnt(e.meta) + Pending(e.clients) + e.discarded == |e.members|
            && e.discarded <= 0
  {
    PendingOfIdle(s.clients);
    RunKeepsBalance(s, run);
  }

  /**
   * Whenever all clients are between commands the count is at least the number of members, no member
   * is left without a meta item, and the count is exact if and only if no conditional deletion of the
   * run removed a count below zero.
   */
  lemma QuiescentCount(s: State, run: Schedule)
    requires Init(s) && Runs(s, run) && AllIdle(After(s, run))
    ensures var e := After(s, run);
            && Cnt(e.meta) >= |e.members|
            && (e.meta.None? ==> e.members == {})
            && (Cnt(e.meta) == |e.members| <==> e.discarded == 0)
            && (Cnt(e.meta) == |e.members| <==> NeverDeletesNegative(s, run))
  {
    PendingOfIdle(s.clients);
    LedgerHolds(s, run);
    PendingOfIdle(After(s, run).clients);
    DiscardedIsNegativeDeletions(s, run);
  }

  /** No DeleteMetaIfEmpty of the run removes a meta item whose count is below zero. */
  ghost predicate NeverDeletesNegative(s: State, run: Schedule)
    requires Runs(s, run)
    decreases |run|
  {
    run != [] ==>
      && !(run[0].1.DeleteMetaIfEmpty? && s.meta.Some? && s.meta.value < 0)
      && NeverDeletesNegative(Next(s, run[0].0, run[0].1), run[1..])
  }

  lemma {:induction false} DiscardedIsNegativeDeletions(s: State, run: Schedule)
    requires Balanced(s) && Runs(s, run)
    ensures After(s, run).discarded == s.discarded <==> NeverDeletesNegative(s, run)
    decreases |run|
  {
    if run != [] {
      var next := Next(s, run[0].0, run[0].1);
      StepKeepsBalance(s, run[0].0, run[0].1);
      RunKeepsBalance(next, run[1..]);
      DiscardedIsNegativeDeletions(next, run[1..]);
    }
  }

  // ----- The members ----------------------------------------------------------------------------

  /** The last item write of the run that concerns a member, if any. */
  ghost predicate LastTouch(run: Schedule, m: Bytes, k: nat) {
    && k < |run| && (run[k].1 == AddOne(m) || run[k].1 == RemoveOne(m))
    && forall j :: k < j < |run| ==> run[j].1 != AddOne(m) && run[j].1 != RemoveOne(m)
  }

  /** Whatever interleaves, a member is there exactly if the last write of its item added it. */
  lemma {:induction false} LastTouchDecides(s: State, run: Schedule, m: Bytes, k: nat)
    requires Runs(s, run)
    ensures LastTouch(run, m, k) ==> (m in After(s, run).members <==> run[k].1 == AddOne(m))
    ensures (forall j :: 0 <= j < |run| ==> run[j].1 != AddOne(m) && run[j].1 != RemoveOne(m)) ==>
              (m in After(s, run).members <==> m in s.members)
    decreases |run|
  {
    if run != [] {
      var next, rest := Next(s, run[0].0, run[0].1), run[1..];
      assert forall j :: 0 <= j < |rest| ==> rest[j] == run[j + 1];
      LastTouchDecides(next, rest, m, if k > 0 then k - 1 else 0);
      if LastTouch(run, m, k) && k > 0 {
        assert LastTouch(rest, m, k - 1);
      }
    }
  }

  // ----- When the count drifts ------------------------------------------------------------------

  /** Once a negative count has been discarded, every later quiescent state overstates the count. */
  lemma DriftIsPermanent(s: State, run: Schedule, more: Schedule)
    requires Init(s) && Runs(s, run) && After(s, run).discarded < 0
    requires Runs(After(s, run), more) && AllIdle(After(After(s, run), more))
    ensures var e := After(After(s, run), more);
            e.meta.Some? && e.meta.value > |e.members|
  {
    LedgerHolds(s, run);
    RunKeepsBalance(After(s, run), more);
    PendingOfIdle(After(After(s, run), more).clients);
  }

  /** A removal overtakes an addition's count write. */
  function Overtaking(m: Bytes): Schedule {
    [(0, StartAdd({m})), (0, AddOne(m)), (1, StartRemove({m})), (1, RemoveOne(m)),
     (1, FinishRemove), (1, DeleteMetaIfEmpty), (0, FinishAdd)]
  }

  /**
   * Two clients suffice: the removal discards -1, and the addition then recreates the key with
   * count 1 and no member.
   */
  lemma DriftHappens(m: Bytes)
    ensures var s, run := State(None, {}, [Idle, Idle], 0), Overtaking(m);
            && Init(s) && Runs(s, run)
            && AllIdle(After(s, run)) && After(s, run).members == {} && After(s, run).meta == Some(1)
  {
    hide Runs, After;
    var s4 := State(Some(0), {}, [Adding({}, 1), Removing({}, 1)], 0);
    var tail := [(1, FinishRemove)] + ([(1, DeleteMetaIfEmpty)] + ([(0, FinishAdd)] + []));
    AddThenRemove(m, s4, tail);
    DeleteThenRecreate(s4);
    assert Overtaking(m) ==
           [(0, StartAdd({m}))] + ([(0, AddOne(m))] + ([(1, StartRemove({m}))] + ([(1, RemoveOne(m))] + tail)));
  }

  lemma AddThenRemove(m: Bytes, s4: State, tail: Schedule)
    requires s4 == State(Some(0), {}, [Adding({}, 1), Removing({}, 1)], 0)
    ensures var s := State(None, {}, [Idle, Idle], 0);
            var remove := [(1, StartRemove({m}))] + ([(1, RemoveOne(m))] + tail);
            var run := [(0, StartAdd({m}))] + ([(0, AddOne(m))] + remove);
            && (Runs(s, run) <==> Runs(s4, tail))
            && (Runs(s, run) ==> After(s, run) == After(s4, tail))
  {
    hide Runs, After;
    var s0 := State(None, {}, [Idle, Idle], 0);
    var s1 := State(Some(0), {}, [Adding({m}, 0), Idle], 0);
    var s2 := State(Some(0), {m}, [Adding({}, 1), Idle], 0);
    var s3 := State(Some(0), {m}, [Adding({}, 1), Removing({m}, 0)], 0);
    assert {m} - {m} == {};
    Unroll(s3, 1, RemoveOne(m), tail, s4);
    Unroll(s2, 1, StartRemove({m}), [(1, RemoveOne(m))] + tail, s3);
    Unroll(s1, 0, AddOne(m), [(1, StartRemove({m}))] + ([(1, RemoveOne(m))] + tail), s2);
    Unroll(s0, 0, StartAdd({m}), [(0, AddOne(m))] + ([(1, StartRemove({m}))] + ([(1, RemoveOne(m))] + tail)), s1);
  }

  lemma DeleteThenRecreate(s4: State)
    requires s4 == State(Some(0), {}, [Adding({}, 1), Removing({}, 1)], 0)
    ensures var tail := [(1, FinishRemove)] + ([(1, DeleteMetaIfEmpty)] + ([(0, FinishAdd)] + []));
            Runs(s4, tail) && After(s4, tail) == State(Some(1), {}, [Idle, Idle], -1)
  {
    var s5 := State(Some(-1), {}, [Adding({}, 1), Emptying], 0);
    var s6 := State(None, {}, [Adding({}, 1), Idle], -1);
    var s7 := State(Some(1), {}, [Idle, Idle], -1);
    assert Runs(s7, []) && After(s7, []) == s7;
    hide Runs, After;
    Unroll(s6, 0, FinishAdd, [], s7);
    Unroll(s5, 1, DeleteMetaIfEmpty, [(0, FinishAdd)] + [], s6);
    Unroll(s4, 1, FinishRemove, [(1, DeleteMetaIfEmpty)] + ([(0, FinishAdd)] + []), s5);
  }

  lemma Unroll(s: State, i: nat, step: Step, rest: Schedule, s': State)
    requires Enabled(s, i, step) && s' == Next(s, i, step)
    ensures Runs(s, [(i, step)] + rest) <==> Runs(s', rest)
    ensures Runs(s', rest) ==> After(s, [(i, step)] + rest) == After(s', rest)
  {
    assert ([(i, step)] + rest)[1..] == rest;
  }

  // ----- Serial runs are exact ------------------------------------------------------------------

  /** Only one command at a time is in progress. */
  ghost predicate Alone(s: State, i: nat) {
    forall j :: 0 <= j < |s.clients| && j != i ==> s.clients[j].Idle?
  }

  ghost predicate Serial(s: State, run: Schedule)
    requires Runs(s, run)
    decreases |run|
  {
    run != [] ==> Alone(s, run[0].0) && Serial(Next(s, run[0].0, run[0].1), run[1..])
  }

  lemma {:induction false} PendingAlone(cs: seq<Client>, i: nat)
    requires i < |cs| && forall j :: 0 <= j < |cs| && j != i ==> cs[j].Idle?
    ensures Pending(cs) == Delta(cs[i])
  {
    PendingUpdate(cs, i, Idle);
    PendingOfIdle(cs[i := Idle]);
  }

  lemma {:induction false} SerialKeepsExact(s: State, run: Schedule)
    requires Balanced(s) && s.discarded == 0 && Runs(s, run) && Serial(s, run)
    ensures After(s, run).discarded == 0
    decreases |run|
  {
    if run != [] {
      StepKeepsBalance(s, run[0].0, run[0].1);
      PendingAlone(s.clients, run[0].0);
      SerialKeepsExact(Next(s, run[0].0, run[0].1), run[1..]);
    }
  }

  /** In a serial run: what the meta item shows, by where the one active client is. */
  ghost predicate Settled(s: State, i: nat) {
    && i < |s.clients| && Alone(s, i)
    && match s.clients[i]
       case Idle => if s.meta.None? then s.members == {} else s.meta.value >= 1
       case Adding(todo, _) => s.meta.Some? && (todo != {} || s.members != {})
       case Removing(_, _) => s.meta.Some? && s.meta.value >= 1
       case Emptying => s.meta.Some? && s.meta.value <= 0
  }

  /** Additions name at least one member. */
  ghost predicate Adds(run: Schedule) {
    forall k :: 0 <= k < |run| && run[k].1.StartAdd? ==> run[k].1.ms != {}
  }

  lemma StepKeepsSettled(s: State, i: nat, step: Step)
    requires Balanced(s) && s.discarded == 0 && Enabled(s, i, step) && Settled(s, i)
    requires step.StartAdd? ==> step.ms != {}
    ensures Settled(Next(s, i, step), i) && Next(s, i, step).discarded == 0
  {
    PendingAlone(s.clients, i);
    hide Pending;
    var s' := Next(s, i, step);
    assert Alone(s', i);
    if s.members != {} {
      var m :| m in s.members;
      assert |s.members| >= 1;
    }
  }

  lemma {:induction false} SerialKeepsSettled(s: State, run: Schedule, i: nat)
    requires Balanced(s) && s.discarded == 0 && Runs(s, run) && Serial(s, run) && Adds(run) && Settled(s, i)
    ensures AllIdle(After(s, run)) ==> (After(s, run).meta.None? ==> After(s, run).members == {})
    ensures AllIdle(After(s, run)) && After(s, run).meta.Some? ==> After(s, run).meta.value >= 1
    decreases |run|
  {
    if run == [] {
    } else {
      var j, step := run[0].0, run[0].1;
      var next := Next(s, j, step);
      StepKeepsBalance(s, j, step);
      StepKeepsSettled(s, j, step);
      assert forall k :: 0 <= k < |run[1..]| ==> run[1..][k] == run[k + 1];
      SerialKeepsSettled(next, run[1..], j);
    }
  }

  /** Without overlapping commands a key exists exactly as long as it has members. */
  lemma SerialEmptyKeyIsGone(s: State, run: Schedule)
    requires Init(s) && (s.meta.Some? ==> s.meta.value >= 1) && |s.clients| > 0
    requires Runs(s, run) && Serial(s, run) && Adds(run) && AllIdle(After(s, run))
    ensures After(s, run).meta.None? <==> After(s, run).members == {}
  {
    PendingOfIdle(s.clients);
    SerialKeepsSettled(s, run, 0);
    SerialRunsAreExact(s, run);
  }

  /** Without overlapping commands the count of an idle key is always exact. */
  lemma SerialRunsAreExact(s: State, run: Schedule)
    requires Init(s) && Runs(s, run) && Serial(s, run) && AllIdle(After(s, run))
    ensures Cnt(After(s, run).meta) == |After(s, run).members|
  {
    PendingOfIdle(s.clients);
    SerialKeepsExact(s, run);
    QuiescentCount(s, run);
  }
}
