/**
 * Concurrent read-modify-write on one value item: INCRBY, HINCRBY, APPEND and any update as bounded
 * compare-and-set loops, interleaved step by step. Reads may be arbitrarily stale unless a lemma
 * says otherwise; for APPEND the key's meta item stays a live String throughout.
 */
module Rmw {
  import opened Prelude
  import opened Decimal
  import Redis

  /** The increments, APPEND, and any other update of a String such as SETRANGE, BITFIELD or PFMERGE. */
  datatype Op = IncrBy(delta: int) | Append(arg: Bytes) | Update(compute: Bytes -> Option<Bytes>)

  datatype Computed = Next(value: Bytes, reply: int) | NotInteger | Overflow | TooLarge | Rejected

  /** What one attempt computes from the value it observed; an absent item counts as 0 or empty. */
  function Compute(op: Op, cur: Option<Bytes>): Computed {
    match op
    case IncrBy(delta) =>
      var parsed := if cur.Some? then IntOf(cur.value) else Some(0);
      if parsed.None? then NotInteger
      else if (delta > 0 && parsed.value > MAX_INT64 - delta) || (delta < 0 && parsed.value < MIN_INT64 - delta) then
        Overflow
      else Next(Render(parsed.value + delta), parsed.value + delta)
    case Append(arg) =>
      var next := (if cur.Some? then cur.value else []) + arg;
      if |next| > Redis.MAX_VALUE then TooLarge else Next(next, |next|)
    case Update(compute) =>
      var next := compute(if cur.Some? then cur.value else []);
      if next.None? then Rejected else Next(next.value, |next.value|)
  }

  // ----- The machine ----------------------------------------------------------------------------

  /**
   * A client about to read for the given attempt, or holding what it saw and about to write. Since
   * and at are the lengths of the commit log at its first and latest read.
   */
  datatype Client =
    | Idle
    | Reading(op: Op, attempt: nat, since: nat)
    | Writing(op: Op, attempt: nat, seen: Option<Bytes>, next: Bytes, reply: int, since: nat, at: nat)

  /** A landed conditional write: who, which operation, the value it replaced and the reply given. */
  datatype Commit = Commit(client: nat, op: Op, before: Option<Bytes>, after: Bytes, reply: int)

  datatype State = State(value: Option<Bytes>, clients: seq<Client>, log: seq<Commit>)

  datatype Step = Start(op: Op) | Read(observed: Option<Bytes>) | Write

  predicate Enabled(s: State, i: nat, step: Step) {
    && i < |s.clients|
    && match step
       case Start(_) => s.clients[i].Idle?
       case Read(_) => s.clients[i].Reading?
       case Write => s.clients[i].Writing?
  }

  predicate Exhausts(s: State, i: nat, step: Step)
    requires Enabled(s, i, step)
  {
    step.Write? && s.value != s.clients[i].seen && s.clients[i].attempt + 1 == MAX_RMW_RETRIES
  }

  function Take(s: State, i: nat, step: Step): State
    requires Enabled(s, i, step)
  {
    var c := s.clients[i];
    match step
    case Start(op) => s.(clients := s.clients[i := Reading(op, 0, 0)])
    case Read(observed) =>
      var since := if c.attempt == 0 then |s.log| else c.since;
      var r := Compute(c.op, observed);
      s.(clients := s.clients[i := if r.Next? then
        Writing(c.op, c.attempt, observed, r.value, r.reply, since, |s.log|) else Idle])
    case Write =>
      if s.value == c.seen then
        s.(value := Some(c.next), clients := s.clients[i := Idle],
           log := s.log + [Commit(i, c.op, c.seen, c.next, c.reply)])
      else if c.attempt + 1 == MAX_RMW_RETRIES then s.(clients := s.clients[i := Idle])
      else s.(clients := s.clients[i := Reading(c.op, c.attempt + 1, c.since)])
  }

  type Schedule = seq<(nat, Step)>

  predicate Runs(s: State, run: Schedule)
    decreases |run|
  {
    run != [] ==> Enabled(s, run[0].0, run[0].1) && Runs(Take(s, run[0].0, run[0].1), run[1..])
  }

  function After(s: State, run: Schedule): State
    requires Runs(s, run)
    decreases |run|
  {
    if run == [] then s else After(Take(s, run[0].0, run[0].1), run[1..])
  }

  predicate Init(s: State) {
    s.log == [] && forall i :: 0 <= i < |s.clients| ==> s.clients[i].Idle?
  }

  // ----- Linearisation --------------------------------------------------------------------------

  /** The value once the first n commits have landed. */
  function ValueAt(init: Option<Bytes>, log: seq<Commit>, n: nat): Option<Bytes>
    requires n <= |log|
  {
    if n == 0 then init else Some(log[n - 1].after)
  }

  /** A commit is its operation applied to what the previous commit left. */
  predicate LinearAt(init: Option<Bytes>, log: seq<Commit>, k: nat)
    requires k < |log|
  {
    && log[k].before == ValueAt(init, log, k)
    && Compute(log[k].op, log[k].before) == Next(log[k].after, log[k].reply)
  }

  predicate Linear(init: Option<Bytes>, log: seq<Commit>) {
    forall k :: 0 <= k < |log| ==> LinearAt(init, log, k)
  }

  predicate HoldsComputed(c: Client) {
    c.Writing? ==> Compute(c.op, c.seen) == Next(c.next, c.reply)
  }

  predicate Sound(init: Option<Bytes>, s: State) {
    && s.value == ValueAt(init, s.log, |s.log|)
    && Linear(init, s.log)
    && forall i :: 0 <= i < |s.clients| ==> HoldsComputed(s.clients[i])
  }

  lemma StepKeepsSound(init: Option<Bytes>, s: State, i: nat, step: Step)
    requires Sound(init, s) && Enabled(s, i, step)
    ensures Sound(init, Take(s, i, step))
    ensures s.log <= Take(s, i, step).log
  {
    hide Compute;
    var s' := Take(s, i, step);
    assert HoldsComputed(s.clients[i]);
    forall k | 0 <= k < |s'.log| ensures LinearAt(init, s'.log, k) {
      if k < |s.log| {
        assert LinearAt(init, s.log, k);
      }
    }
  }

  /**
   * However the steps interleave and however stale the reads: the value is what the landed operations
   * produce when applied one after the other in commit order, and each reply is the one that serial
   * application gives. Rejected and exhausted operations leave no trace.
   */
  lemma {:induction false} RunsLinearise(init: Option<Bytes>, s: State, run: Schedule)
    requires Sound(init, s) && Runs(s, run)
    ensures var e := After(s, run);
            e.value == ValueAt(init, e.log, |e.log|) && Linear(init, e.log) && s.log <= e.log
    decreases |run|
  {
    if run != [] {
      StepKeepsSound(init, s, run[0].0, run[0].1);
      RunsLinearise(init, Take(s, run[0].0, run[0].1), run[1..]);
    }
  }

  // ----- Counters -------------------------------------------------------------------------------

  predicate AllIncr(log: seq<Commit>) {
    forall k :: 0 <= k < |log| ==> log[k].op.IncrBy? && InInt64(log[k].op.delta)
  }

  /** The deltas of the first n commits. */
  function Total(log: seq<Commit>, n: nat): int
    requires AllIncr(log) && n <= |log|
  {
    if n == 0 then 0 else Total(log, n - 1) + log[n - 1].op.delta
  }

  /** The number an item denotes when it is a counter: absent counts as 0. */
  function Number(v: Option<Bytes>): Option<int> {
    if v.None? then Some(0) else IntOf(v.value)
  }

  /** One increment that did not fail: the sum, in range and rendered canonically. */
  lemma IncrementIsAddition(delta: int, cur: Option<Bytes>)
    requires InInt64(delta) && Compute(IncrBy(delta), cur).Next?
    ensures var r := Compute(IncrBy(delta), cur);
            && Number(cur).Some? && r.reply == Number(cur).value + delta && InInt64(r.reply)
            && Number(Some(r.value)) == Some(r.reply)
  {
    var r := Compute(IncrBy(delta), cur);
    IntOfIsExact(r.value, r.reply);
  }

  lemma {:induction false} CounterAt(init: Option<Bytes>, log: seq<Commit>, n: nat)
    requires Linear(init, log) && AllIncr(log) && 0 < n <= |log|
    ensures Number(init).Some?
    ensures Number(ValueAt(init, log, n)) == Some(Number(init).value + Total(log, n))
    ensures log[n - 1].reply == Number(init).value + Total(log, n)
  {
    hide Compute, IntOf, Number;
    assert LinearAt(init, log, n - 1);
    var last := log[n - 1];
    IncrementIsAddition(last.op.delta, last.before);
    assert last.op == IncrBy(last.op.delta);
    if n > 1 {
      CounterAt(init, log, n - 1);
    }
  }

  /**
   * No lost update: with only increments landing, the stored integer is the initial value plus the
   * deltas of the landed operations, and the k-th landed operation answered the running total.
   */
  lemma NoLostIncrement(init: Option<Bytes>, s: State, run: Schedule, k: nat)
    requires Init(s) && s.value == init && Runs(s, run)
    requires k < |After(s, run).log| && AllIncr(After(s, run).log)
    ensures var e := After(s, run);
            && Number(init).Some?
            && Number(e.value) == Some(Number(init).value + Total(e.log, |e.log|))
            && e.log[k].reply == Number(init).value + Total(e.log, k + 1)
  {
    RunsLinearise(init, s, run);
    var log := After(s, run).log;
    hide Runs, After, Linear, Number;
    CounterAt(init, log, |log|);
    CounterAt(init, log, k + 1);
  }

  lemma {:induction false} TotalOfOnes(log: seq<Commit>, n: nat)
    requires AllIncr(log) && n <= |log| && forall k :: 0 <= k < |log| ==> log[k].op.delta == 1
    ensures Total(log, n) == n
  {
    if n > 0 {
      TotalOfOnes(log, n - 1);
    }
  }

  /** Pure INCR: the replies are the consecutive integers after the initial one, each exactly once. */
  lemma PureIncrRepliesAreConsecutive(init: Option<Bytes>, s: State, run: Schedule, k: nat)
    requires Init(s) && s.value == init && Runs(s, run)
    requires k < |After(s, run).log| && AllIncr(After(s, run).log)
    requires forall j :: 0 <= j < |After(s, run).log| ==> After(s, run).log[j].op.delta == 1
    ensures Number(init).Some? && After(s, run).log[k].reply == Number(init).value + k + 1
  {
    NoLostIncrement(init, s, run, k);
    TotalOfOnes(After(s, run).log, k + 1);
  }

  /** At most the first landed operation finds no item: HINCRBY reports a new field at most once. */
  lemma NewAtMostOnce(init: Option<Bytes>, s: State, run: Schedule, k: nat)
    requires Init(s) && s.value == init && Runs(s, run) && k < |After(s, run).log|
    ensures After(s, run).log[k].before.None? <==> k == 0 && init.None?
  {
    RunsLinearise(init, s, run);
    assert LinearAt(init, After(s, run).log, k);
  }

  // ----- APPEND ---------------------------------------------------------------------------------

  predicate AllAppend(log: seq<Commit>) {
    forall k :: 0 <= k < |log| ==> log[k].op.Append?
  }

  /** The arguments of the first n commits, in commit order. */
  function Args(log: seq<Commit>, n: nat): Bytes
    requires AllAppend(log) && n <= |log|
  {
    if n == 0 then [] else Args(log, n - 1) + log[n - 1].op.arg
  }

  function Text(v: Option<Bytes>): Bytes {
    if v.None? then [] else v.value
  }

  lemma {:induction false} TextAt(init: Option<Bytes>, log: seq<Commit>, n: nat)
    requires Linear(init, log) && AllAppend(log) && n <= |log|
    ensures Text(ValueAt(init, log, n)) == Text(init) + Args(log, n)
    ensures n > 0 ==> log[n - 1].reply == |Text(init) + Args(log, n)|
  {
    if n > 0 {
      TextAt(init, log, n - 1);
      assert LinearAt(init, log, n - 1);
      var last := log[n - 1];
      assert Compute(last.op, last.before) == Next(last.after, last.reply);
      assert Text(init) + Args(log, n - 1) + last.op.arg == Text(init) + Args(log, n);
    }
  }

  /** Appends linearise: every landed argument, in commit order, each reply the length at its commit. */
  lemma AppendsLinearise(init: Option<Bytes>, s: State, run: Schedule, k: nat)
    requires Init(s) && s.value == init && Runs(s, run)
    requires k < |After(s, run).log| && AllAppend(After(s, run).log)
    ensures var e := After(s, run);
            && Text(e.value) == Text(init) + Args(e.log, |e.log|)
            && e.log[k].reply == |Text(init)| + |Args(e.log, k + 1)|
  {
    RunsLinearise(init, s, run);
    var log := After(s, run).log;
    hide Runs, After, Linear;
    TextAt(init, log, |log|);
    TextAt(init, log, k + 1);
  }

  // ----- The retry bound under strong reads -----------------------------------------------------

  /** Every read observes the value of the moment. */
  predicate StrongReads(s: State, run: Schedule)
    requires Runs(s, run)
    decreases |run|
  {
    run != [] ==>
      && (run[0].1.Read? ==> run[0].1.observed == s.value)
      && StrongReads(Take(s, run[0].0, run[0].1), run[1..])
  }

  predicate Changed(c: Commit) {
    c.before != Some(c.after)
  }

  /** The commits from the given one on that changed the value. */
  function Changes(log: seq<Commit>, start: nat, end: nat): nat
    requires start <= end <= |log|
  {
    if start == end then 0 else Changes(log, start, end - 1) + (if Changed(log[end - 1]) then 1 else 0)
  }

  lemma {:induction false} ChangesConcat(log: seq<Commit>, a: nat, b: nat, c: nat)
    requires a <= b <= c <= |log|
    ensures Changes(log, a, c) == Changes(log, a, b) + Changes(log, b, c)
  {
    if b < c {
      ChangesConcat(log, a, b, c - 1);
    }
  }

  lemma {:induction false} ChangesOfPrefix(log: seq<Commit>, more: seq<Commit>, a: nat, b: nat)
    requires a <= b <= |log| && log <= more
    ensures Changes(log, a, b) == Changes(more, a, b)
  {
    if a < b {
      ChangesOfPrefix(log, more, a, b - 1);
    }
  }

  /** Without a change the value stays what it was. */
  lemma {:induction false} SomethingChanged(init: Option<Bytes>, log: seq<Commit>, at: nat, end: nat)
    requires Linear(init, log) && at <= end <= |log|
    requires ValueAt(init, log, end) != ValueAt(init, log, at)
    ensures Changes(log, at, end) >= 1
  {
    assert LinearAt(init, log, end - 1);
    if !Changed(log[end - 1]) {
      SomethingChanged(init, log, at, end - 1);
    }
  }

  predicate NotBy(log: seq<Commit>, since: nat, i: nat) {
    forall k :: since <= k < |log| ==> log[k].client != i
  }

  /** Every attempt a client has lost was lost to a change by somebody else since its first read. */
  predicate Charged(init: Option<Bytes>, log: seq<Commit>, c: Client, i: nat) {
    match c
    case Idle => true
    case Reading(_, attempt, since) =>
      attempt > 0 ==> since <= |log| && NotBy(log, since, i) && Changes(log, since, |log|) >= attempt
    case Writing(_, attempt, seen, _, _, since, at) =>
      && since <= at <= |log| && NotBy(log, since, i)
      && Changes(log, since, at) >= attempt
      && seen == ValueAt(init, log, at)
  }

  predicate AllCharged(init: Option<Bytes>, s: State) {
    forall i :: 0 <= i < |s.clients| ==> Charged(init, s.log, s.clients[i], i)
  }

  /** A client that does not move stays charged while others commit. */
  lemma OthersStayCharged(init: Option<Bytes>, log: seq<Commit>, more: seq<Commit>, c: Client, i: nat)
    requires Charged(init, log, c, i)
    requires log <= more && NotBy(more, |log|, i)
    ensures Charged(init, more, c, i)
  {
    if c.Reading? && c.attempt > 0 {
      ChangesOfPrefix(log, more, c.since, |log|);
      ChangesConcat(more, c.since, |log|, |more|);
      assert NotBy(log, c.since, i);
    } else if c.Writing? {
      ChangesOfPrefix(log, more, c.since, c.at);
      assert NotBy(log, c.since, i);
    }
  }

  /** A lost write adds the change that lost it. */
  lemma LostWriteIsCharged(init: Option<Bytes>, log: seq<Commit>, c: Client, i: nat)
    requires Linear(init, log) && c.Writing? && Charged(init, log, c, i)
    requires ValueAt(init, log, |log|) != c.seen
    ensures Changes(log, c.since, |log|) >= c.attempt + 1
  {
    SomethingChanged(init, log, c.at, |log|);
    ChangesConcat(log, c.since, c.at, |log|);
  }

  lemma StepKeepsCharged(init: Option<Bytes>, s: State, i: nat, step: Step)
    requires Sound(init, s) && AllCharged(init, s) && Enabled(s, i, step)
    requires step.Read? ==> step.observed == s.value
    ensures AllCharged(init, Take(s, i, step))
  {
    MoverStaysCharged(init, s, i, step);
    var s' := Take(s, i, step);
    assert forall j :: 0 <= j < |s.clients| && j != i ==> s'.clients[j] == s.clients[j];
    assert s.log <= s'.log && forall j :: j != i ==> NotBy(s'.log, |s.log|, j);
    hide Take, Charged;
    forall j | 0 <= j < |s'.clients| ensures Charged(init, s'.log, s'.clients[j], j) {
      if j != i {
        OthersStayCharged(init, s.log, s'.log, s.clients[j], j);
      }
    }
  }

  lemma MoverStaysCharged(init: Option<Bytes>, s: State, i: nat, step: Step)
    requires Sound(init, s) && Enabled(s, i, step) && Charged(init, s.log, s.clients[i], i)
    requires step.Read? ==> step.observed == s.value
    ensures var s' := Take(s, i, step);
            |s'.clients| == |s.clients| && Charged(init, s'.log, s'.clients[i], i)
  {
    hide Compute, Linear;
    if step.Write? && s.value != s.clients[i].seen {
      LostWriteIsCharged(init, s.log, s.clients[i], i);
    }
  }

  /** The retry bound over whole runs: from its start, nobody is ever charged too little. */
  lemma {:induction false} RunKeepsCharged(init: Option<Bytes>, s: State, run: Schedule)
    requires Sound(init, s) && AllCharged(init, s) && Runs(s, run) && StrongReads(s, run)
    ensures Sound(init, After(s, run)) && AllCharged(init, After(s, run))
    decreases |run|
  {
    if run != [] {
      StepKeepsSound(init, s, run[0].0, run[0].1);
      StepKeepsCharged(init, s, run[0].0, run[0].1);
      RunKeepsCharged(init, Take(s, run[0].0, run[0].1), run[1..]);
    }
  }

  /** No client ever makes a 51st attempt. */
  lemma {:induction false} AtMostFiftyAttempts(s: State, run: Schedule, i: nat)
    requires Runs(s, run) && i < |After(s, run).clients|
    requires forall j :: 0 <= j < |s.clients| && !s.clients[j].Idle? ==> s.clients[j].attempt < 50
    ensures !After(s, run).clients[i].Idle? ==> After(s, run).clients[i].attempt < 50
    decreases |run|
  {
    hide Compute;
    if run != [] {
      AtMostFiftyAttempts(Take(s, run[0].0, run[0].1), run[1..], i);
    }
  }

  /**
   * An operation gives up only when at least 50 commits by other clients changed the value between its
   * first read and its last conditional write: somebody always makes progress.
   */
  lemma ExhaustionNeedsFiftyCommits(init: Option<Bytes>, s: State, run: Schedule, i: nat)
    requires Init(s) && s.value == init && Runs(s, run) && StrongReads(s, run)
    requires var e := After(s, run);
             Enabled(e, i, Write) && Exhausts(e, i, Write)
    ensures var e := After(s, run);
            var since := e.clients[i].since;
            && since <= |e.log|
            && NotBy(e.log, since, i)
            && Changes(e.log, since, |e.log|) >= 50
  {
    RunKeepsCharged(init, s, run);
    var e := After(s, run);
    hide Runs, After;
    assert Charged(init, e.log, e.clients[i], i);
    LostWriteIsCharged(init, e.log, e.clients[i], i);
  }
}
