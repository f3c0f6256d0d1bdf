/** The refinement: every run of commands over the table answers and ends as a plain Redis does. */
module Keyspace {
  import opened Expiry
  import opened Redis
  import opened Table
  import opened Storage
  import opened Seam
  import opened StringCommands
  import opened KeyCommands
  import opened CounterCommands
  import opened HashCommands
  import opened SetCommands
  import opened ListCommands

  /** String commands. */
  method ExecuteStrings(st: Store, now: int, c: Command) returns (reply: Reply)
    requires Inv(st.parts) && ClockOk(now) && ArityOk(c) && Parsed(c) && OnStrings(c)
    modifies st
    ensures Done(st, now, reply, Apply(old(View(st.parts, now)), now, c))
  {
    hide Inv, View, AddTo, Redis.IncrBy, Get, Strlen, GetRange, SetStr, SetNX, SetEx, GetSet, Append, SetRange;
    if c.CGet? {
      reply := HandleGet(st, now, c.k);
    } else if c.CStrlen? {
      reply := HandleStrlen(st, now, c.k);
    } else if c.CGetRange? {
      reply := HandleGetRange(st, now, c.k, c.startTok, c.stopTok);
    } else if c.CSet? {
      reply := HandleSet(st, now, c.k, c.v, c.mode, c.span);
    } else if c.CSetNX? {
      reply := HandleSetNX(st, now, c.k, c.v);
    } else if c.CSetEx? {
      reply := HandleSetEx(st, now, c.k, c.tok, c.v, c.millis);
    } else if c.CGetSet? {
      reply := HandleGetSet(st, now, c.k, c.v);
    } else if c.CIncr? {
      reply := AddToKey(st, now, c.k, if c.up then 1 else -1);
    } else if c.CIncrBy? {
      reply := HandleIncrBy(st, now, c.k, c.tok, c.negate);
    } else if c.CAppend? {
      reply := HandleAppend(st, now, c.k, c.v);
    } else {
      reply := HandleSetRange(st, now, c.k, c.tok, c.v);
    }
  }

  /** Keyspace commands. */
  method ExecuteKeys(st: Store, now: int, c: Command) returns (reply: Reply)
    requires Inv(st.parts) && ClockOk(now) && ArityOk(c) && Parsed(c) && OnKeys(c)
    modifies st
    ensures Done(st, now, reply, Apply(old(View(st.parts, now)), now, c))
  {
    hide Inv, View, Del, Exists, Type, Expire, Ttl, Redis.Persist;
    if c.CDel? {
      reply := HandleDel(st, now, c.ks);
    } else if c.CExists? {
      reply := HandleExists(st, now, c.ks);
    } else if c.CType? {
      reply := HandleType(st, now, c.k);
    } else if c.CExpire? {
      reply := HandleExpire(st, now, c.form, c.k, c.tok);
    } else if c.CTtl? {
      reply := HandleTtl(st, now, c.k, c.millis);
    } else {
      reply := HandlePersist(st, now, c.k);
    }
  }

  /** Hash and cardinality commands. */
  method ExecuteHashes(st: Store, now: int, c: Command) returns (reply: Reply)
    requires Inv(st.parts) && ClockOk(now) && ArityOk(c) && Parsed(c) && OnHashes(c)
    modifies st
    ensures Done(st, now, reply, Apply(old(View(st.parts, now)), now, c))
  {
    hide Inv, View, Redis.HIncrBy, HSet, HSetNX, HGet, HDel, Card;
    if c.CHSet? {
      reply := HandleHSet(st, now, c.k, c.pairs);
    } else if c.CHSetNX? {
      reply := HandleHSetNX(st, now, c.k, c.f, c.v);
    } else if c.CHIncrBy? {
      reply := HandleHIncrBy(st, now, c.k, c.f, c.tok);
    } else if c.CHGet? {
      reply := HandleHGet(st, now, c.k, c.f);
    } else if c.CHDel? {
      reply := HandleHDel(st, now, c.k, c.fs);
    } else {
      reply := HandleCard(st, now, c.t, c.k);
    }
  }

  /** Set commands. */
  method ExecuteSets(st: Store, now: int, c: Command) returns (reply: Reply)
    requires Inv(st.parts) && ClockOk(now) && ArityOk(c) && Parsed(c) && OnSets(c)
    modifies st
    ensures Done(st, now, reply, Apply(old(View(st.parts, now)), now, c))
  {
    hide Inv, View, SAdd, SRem, SIsMember, SMove, SStore;
    if c.CSAdd? {
      reply := HandleSAdd(st, now, c.k, c.ms);
    } else if c.CSRem? {
      reply := HandleSRem(st, now, c.k, c.ms);
    } else if c.CSIsMember? {
      reply := HandleSIsMember(st, now, c.k, c.m);
    } else if c.CSMove? {
      reply := HandleSMove(st, now, c.src, c.dst, c.m);
    } else {
      reply := HandleSStore(st, now, c.op, c.dst, c.srcs);
    }
  }

  /** Commands that move elements at the ends of a list. */
  predicate OnEnds(c: Command) {
    c.CPush? || c.CPushX? || c.CPop? || c.CRPopLPush?
  }

  method ExecuteEnds(st: Store, now: int, c: Command) returns (reply: Reply)
    requires Inv(st.parts) && ClockOk(now) && ArityOk(c) && OnEnds(c)
    modifies st
    ensures Guarded(old(View(st.parts, now)), c) ==> Done(st, now, reply, Apply(old(View(st.parts, now)), now, c))
    ensures !Guarded(old(View(st.parts, now)), c) ==>
              c.CPush? && reply == Error(TooLarge) && st.parts == old(st.parts)[c.k := Fresh(ListT)]
  {
    hide Inv, View, Push, PushX, Pop, RPopLPush;
    if c.CPush? {
      reply := HandlePush(st, now, c.left, c.k, c.es);
    } else if c.CPushX? {
      reply := HandlePushX(st, now, c.left, c.k, c.es);
    } else if c.CPop? {
      reply := HandlePop(st, now, c.left, c.k);
    } else {
      reply := HandleRPopLPush(st, now, c.src, c.dst);
    }
  }

  /** The other list commands. */
  method ExecuteLists(st: Store, now: int, c: Command) returns (reply: Reply)
    requires Inv(st.parts) && ClockOk(now) && ArityOk(c) && OnLists(c) && !OnEnds(c)
    modifies st
    ensures Done(st, now, reply, Apply(old(View(st.parts, now)), now, c))
  {
    hide Inv, View, LSet, LTrim, LRem, LInsert, LIndex;
    if c.CLSet? {
      reply := HandleLSet(st, now, c.k, c.tok, c.v);
    } else if c.CLTrim? {
      reply := HandleLTrim(st, now, c.k, c.startTok, c.stopTok);
    } else if c.CLRem? {
      reply := HandleLRem(st, now, c.k, c.tok, c.v);
    } else if c.CLInsert? {
      reply := HandleLInsert(st, now, c.k, c.w, c.pivot, c.v);
    } else {
      reply := HandleLIndex(st, now, c.k, c.tok);
    }
  }

  /**
   * Route a command to its family and handler. It meets its specification exactly unless it is an
   * oversized push onto an absent key, which answers the size error and leaves an empty list.
   */
  method Execute(st: Store, now: int, c: Command) returns (reply: Reply)
    requires Inv(st.parts) && ClockOk(now) && ArityOk(c) && Parsed(c)
    modifies st
    ensures Guarded(old(View(st.parts, now)), c) <==> Done(st, now, reply, Apply(old(View(st.parts, now)), now, c))
    ensures !Guarded(old(View(st.parts, now)), c) ==>
              c.CPush? && reply == Error(TooLarge) && st.parts == old(st.parts)[c.k := Fresh(ListT)]
  {
    hide Inv, View, Apply, Done;
    if OnStrings(c) {
      reply := ExecuteStrings(st, now, c);
    } else if OnKeys(c) {
      reply := ExecuteKeys(st, now, c);
    } else if OnHashes(c) {
      reply := ExecuteHashes(st, now, c);
    } else if OnSets(c) {
      reply := ExecuteSets(st, now, c);
    } else if !OnEnds(c) {
      reply := ExecuteLists(st, now, c);
    } else {
      reply := ExecuteEnds(st, now, c);
      if !Guarded(old(View(st.parts, now)), c) {
        NotDone(st, now, reply, old(st.parts), c);
      }
    }
  }

  lemma NotDone(st: Store, now: int, reply: Reply, was: Parts, c: Command)
    requires Inv(was) && ArityOk(c) && c.CPush? && !Guarded(View(was, now), c)
    requires st.parts == was[c.k := Fresh(ListT)]
    ensures !Done(st, now, reply, Apply(View(was, now), now, c))
  {
    OversizedPushIsWrong(was, now, c.left, c.k, c.es);
  }

  /**
   * Every admissible run, from any sound table: the replies are those of a plain Redis started on
   * the keyspace the table represents, the table ends up representing the keyspace Redis ends in,
   * and the serial invariant holds after every command.
   */
  method ServeAll(st: Store, start: int, trace: seq<Request>) returns (replies: seq<Reply>, end: int)
    requires Inv(st.parts) && Admissible(View(st.parts, start), start, trace)
    modifies st
    ensures forall i :: 0 <= i < |trace| ==> ArityOk(trace[i].cmd)
    ensures Inv(st.parts)
    ensures Run(View(st.parts, end), replies) == Redis.Serve(old(View(st.parts, start)), trace)
    ensures end == if trace == [] then start else trace[|trace| - 1].now
  {
    hide View, Apply, Guarded, Parsed;
    ghost var db := View(st.parts, start);
    AdmissibleArity(db, start, trace);
    replies, end := [], start;
    assert trace[0..] == trace;
    for i := 0 to |trace|
      invariant Inv(st.parts)
      invariant end == if i == 0 then start else trace[i - 1].now
      invariant Admissible(View(st.parts, end), end, trace[i..])
      invariant Redis.Serve(db, trace) == Prepend(replies, Redis.Serve(View(st.parts, end), trace[i..]))
    {
      ghost var r := trace[i];
      assert trace[i..][0] == r && trace[i..][1..] == trace[i + 1..];
      Later(st.parts, end, r.now);
      ghost var o := Apply(View(st.parts, r.now), r.now, r.cmd);
      var reply := Execute(st, trace[i].now, trace[i].cmd);
      PrependSnoc(replies, reply, Redis.Serve(o.db, trace[i + 1..]));
      replies, end := replies + [reply], trace[i].now;
    }
  }

  ghost function Prepend(replies: seq<Reply>, r: Run): Run {
    Run(r.db, replies + r.replies)
  }

  lemma PrependSnoc(replies: seq<Reply>, reply: Reply, rest: Run)
    ensures Prepend(replies + [reply], rest) == Prepend(replies, Run(rest.db, [reply] + rest.replies))
  {
  }
}
