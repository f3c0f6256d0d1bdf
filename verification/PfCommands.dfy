/**
 * PFADD and PFMERGE on stored blobs. PFADD runs inside the compare-and-set loop: its flag outlives the
 * attempts that lose the race.
 */
module PfCommands {
  import opened Prelude
  import opened HyperLogLog
  import opened CasLoop
  import Redis

  const HDR_SIZE: nat := 16

  /** "HYLL", the dense encoding, and zeros. */
  const HEADER: Blob := [0x48, 0x59, 0x4C, 0x4C, 0, 0, 0, 0, 0, 0, 0, 0, 0, 0, 0, 0]

  predicate IsHLL(blob: Blob) {
    |blob| == HDR_SIZE + REG_BYTES && blob[..5] == HEADER[..5]
  }

  /** 12304 bytes that begin with "HYLL" and the dense encoding. */
  lemma HeaderIsHYLL(blob: Blob)
    ensures IsHLL(blob) <==> |blob| == 12304 && blob[..5] == [72, 89, 76, 76, 0]
  {
  }

  function NewDenseHLL(): Blob {
    HEADER + seq(REG_BYTES, _ => 0)
  }

  function RegistersOf(blob: Blob): (v: seq<bv8>)
    requires IsHLL(blob)
    ensures SixBits(v)
  {
    Unpack(blob[HDR_SIZE..])
  }

  lemma NewIsBlank()
    ensures IsHLL(NewDenseHLL()) && RegistersOf(NewDenseHLL()) == Blank()
  {
    var regs := NewDenseHLL()[HDR_SIZE..];
    assert NewDenseHLL()[..5] == HEADER[..5];
    forall r | 0 <= r < REGISTERS ensures Unpack(regs)[r] == 0 {
      Layout(r);
      assert Cell(0, 0, Offset(r)) == 0;
    }
  }

  function Blank(): (v: seq<bv8>)
    ensures SixBits(v)
  {
    seq(REGISTERS, _ => 0)
  }

  /** The registers an update starts from: all zero for an absent value. */
  ghost function StartRegisters(base: Blob): (v: seq<bv8>)
    ensures SixBits(v)
  {
    if IsHLL(base) then RegistersOf(base) else Blank()
  }

  /** The blob an update copies. */
  function StartBlob(base: Blob): (blob: Blob)
    requires base == [] || IsHLL(base)
    ensures IsHLL(blob) && RegistersOf(blob) == StartRegisters(base)
  {
    NewIsBlank();
    if base == [] then NewDenseHLL() else base
  }

  method CopyRegisters(blob: Blob) returns (regs: array<bv8>)
    requires IsHLL(blob)
    ensures fresh(regs) && regs[..] == blob[HDR_SIZE..]
  {
    regs := new bv8[REG_BYTES](i requires 0 <= i < REG_BYTES => blob[HDR_SIZE + i]);
  }

  lemma BlobOf(blob: Blob, regs: Blob)
    requires IsHLL(blob) && Packed(regs)
    ensures IsHLL(blob[..HDR_SIZE] + regs) && RegistersOf(blob[..HDR_SIZE] + regs) == Unpack(regs)
  {
    assert (blob[..HDR_SIZE] + regs)[HDR_SIZE..] == regs;
    assert (blob[..HDR_SIZE] + regs)[..5] == blob[..5];
  }

  // ----- Raising registers ----------------------------------------------------------------------

  /** The elements added one by one. */
  ghost function RaiseAll(hash: Hash, v: seq<bv8>, es: seq<Bytes>): (w: seq<bv8>)
    requires SixBits(v)
    ensures SixBits(w)
  {
    if es == [] then v
    else
      var e := es[|es| - 1];
      Raise(RaiseAll(hash, v, es[..|es| - 1]), Index(hash(e)), Rank(hash, e))
  }

  predicate Below(v: seq<bv8>, w: seq<bv8>) {
    |v| == |w| && forall r :: 0 <= r < |v| ==> v[r] <= w[r]
  }

  /** No element would raise a register. */
  ghost predicate Covers(hash: Hash, v: seq<bv8>, es: seq<Bytes>)
    requires |v| == REGISTERS
  {
    forall e :: e in es ==> Rank(hash, e) <= v[Index(hash(e))]
  }

  lemma RaisePreserves(was: seq<bv8>, now: seq<bv8>, r: nat, x: bv8)
    requires r < |now| && Below(was, now)
    ensures Below(was, Raise(now, r, x)) && Below(now, Raise(now, r, x))
    ensures Raise(now, r, x) == was <==> now == was && x <= now[r]
    ensures x <= Raise(now, r, x)[r]
  {
  }

  lemma CoversMore(hash: Hash, v: seq<bv8>, w: seq<bv8>, es: seq<Bytes>)
    requires Below(v, w) && |v| == REGISTERS && Covers(hash, v, es)
    ensures Covers(hash, w, es)
  {
    hide Rank, Index;
  }

  lemma CoversSnoc(hash: Hash, v: seq<bv8>, es: seq<Bytes>)
    requires |v| == REGISTERS && es != []
    ensures var e := es[|es| - 1];
            Covers(hash, v, es) <==> Covers(hash, v, es[..|es| - 1]) && Rank(hash, e) <= v[Index(hash(e))]
  {
    hide Rank, Index;
    assert es == es[..|es| - 1] + [es[|es| - 1]];
  }

  /** Adding elements raises registers, covers the elements, and changes nothing exactly if they were covered. */
  lemma {:induction false} RaiseAllCovers(hash: Hash, v: seq<bv8>, es: seq<Bytes>)
    requires SixBits(v)
    ensures Below(v, RaiseAll(hash, v, es))
    ensures Covers(hash, RaiseAll(hash, v, es), es)
    ensures RaiseAll(hash, v, es) == v <==> Covers(hash, v, es)
  {
    hide Raise, Rank, Index, Below, Covers;
    if es == [] {
      BelowItself(v);
      CoversNone(hash, v, es);
    } else {
      var e, most := es[|es| - 1], es[..|es| - 1];
      var u, w := RaiseAll(hash, v, most), RaiseAll(hash, v, es);
      RaiseAllCovers(hash, v, most);
      RaisePreserves(v, u, Index(hash(e)), Rank(hash, e));
      RaisePreserves(u, u, Index(hash(e)), Rank(hash, e)) by { BelowItself(u); }
      CoversMore(hash, u, w, most);
      CoversSnoc(hash, w, es);
      CoversSnoc(hash, v, es);
    }
  }

  lemma BelowItself(v: seq<bv8>)
    ensures Below(v, v)
  {
  }

  lemma CoversNone(hash: Hash, v: seq<bv8>, es: seq<Bytes>)
    requires |v| == REGISTERS && es == []
    ensures Covers(hash, v, es)
  {
  }

  function Elements(es: seq<Bytes>): set<Bytes> {
    set e | e in es
  }

  /** Adding elements to the summary of a set gives the summary of the larger set. */
  lemma {:induction false} RaiseAllSummarises(hash: Hash, v: seq<bv8>, known: set<Bytes>, es: seq<Bytes>)
    requires SixBits(v) && Summarises(hash, v, known)
    ensures Summarises(hash, RaiseAll(hash, v, es), known + Elements(es))
  {
    hide Summarises, Rank, Index, Raise, SixBits;
    if es == [] {
      assert known + Elements(es) == known;
    } else {
      var e, most := es[|es| - 1], es[..|es| - 1];
      RaiseAllSummarises(hash, v, known, most);
      RaiseSummarises(hash, RaiseAll(hash, v, most), known + Elements(most), e);
      assert es == most + [e];
      assert known + Elements(es) == known + Elements(most) + {e};
    }
  }

  /** Add elements one by one, noting whether any register grew. */
  method AddAll(regs: array<bv8>, hash: Hash, elements: seq<Bytes>) returns (grown: bool)
    requires regs.Length == REG_BYTES
    modifies regs
    ensures Unpack(regs[..]) == RaiseAll(hash, Unpack(old(regs[..])), elements)
    ensures grown <==> Unpack(regs[..]) != Unpack(old(regs[..]))
  {
    hide Unpack, Rank, Index, Raise, Below;
    ghost var v := Unpack(regs[..]);
    grown := false;
    assert Below(v, v) by { BelowItself(v); }
    for i := 0 to |elements|
      invariant Unpack(regs[..]) == RaiseAll(hash, v, elements[..i])
      invariant Below(v, Unpack(regs[..]))
      invariant grown <==> Unpack(regs[..]) != v
    {
      RaisePreserves(v, Unpack(regs[..]), Index(hash(elements[i])), Rank(hash, elements[i]));
      var grew := HllAdd(regs, hash, elements[i]);
      grown := grown || grew;
      assert elements[..i + 1][..i] == elements[..i];
    }
    assert elements[..|elements|] == elements;
  }

  // ----- PFADD ----------------------------------------------------------------------------------

  /** What PFADD stores over a base that is absent or a HyperLogLog. */
  ghost function Stored(hash: Hash, base: Blob, es: seq<Bytes>): (blob: Blob)
    requires base == [] || IsHLL(base)
    ensures IsHLL(blob) && RegistersOf(blob) == RaiseAll(hash, StartRegisters(base), es)
  {
    var regs := RaiseAll(hash, StartRegisters(base), es);
    PackingIsBijective([], regs);
    BlobOf(StartBlob(base), Pack(regs));
    StartBlob(base)[..HDR_SIZE] + Pack(regs)
  }

  /** One attempt creates the key or grows a register. */
  ghost predicate Changes(hash: Hash, base: Blob, es: seq<Bytes>) {
    base == [] || RaiseAll(hash, StartRegisters(base), es) != StartRegisters(base)
  }

  datatype Update = Store(blob: Blob) | NotHLL | TooLarge

  /** The callback of PFADD: one attempt over the base it read. */
  method AddTo(hash: Hash, key: Bytes, base: Blob, elements: seq<Bytes>) returns (r: Update, changed: bool)
    ensures base != [] && !IsHLL(base) ==> r == NotHLL && !changed
    ensures base == [] || IsHLL(base) ==>
              && r == (if |key| > Redis.MAX_NAME then TooLarge else Store(Stored(hash, base, elements)))
              && (changed <==> Changes(hash, base, elements))
  {
    hide Unpack, RaiseAll, Pack;
    if base != [] && !IsHLL(base) {
      return NotHLL, false;
    }
    var blob := StartBlob(base);
    var regs := CopyRegisters(blob);
    var grown := AddAll(regs, hash, elements);
    changed := |base| == 0 || grown;
    PackingIsBijective(regs[..], []);
    blob := blob[..HDR_SIZE] + regs[..];
    r := if |key| > Redis.MAX_NAME || |blob| > Redis.MAX_VALUE then TooLarge else Store(blob);
  }

  /** What an attempt reads, stale or not, and whether its claim of the type succeeds. */
  datatype Attempt = Attempt(kind: Lookup, phys: Option<Blob>, claimed: bool)

  datatype Lookup = LiveString | LiveOther | NotLive

  function BaseOf(a: Attempt): Blob {
    if a.kind.LiveString? && a.phys.Some? then a.phys.value else []
  }

  datatype PfReply = Answered(n: int) | Failed(why: Update) | WrongType | MaxRetries

  /** The reply of PFADD after attempts over these bases, the last of which landed. */
  ghost function Answer(hash: Hash, bases: seq<Blob>, es: seq<Bytes>): int {
    if exists i :: 0 <= i < |bases| && Changes(hash, bases[i], es) then 1 else 0
  }

  lemma AnswerNone(hash: Hash, es: seq<Bytes>)
    ensures Answer(hash, [], es) == 0
  {
  }

  lemma AnswerSnoc(hash: Hash, bases: seq<Blob>, base: Blob, es: seq<Bytes>)
    ensures Answer(hash, bases + [base], es) == if Answer(hash, bases, es) == 1 || Changes(hash, base, es) then 1 else 0
  {
    hide Changes;
    var all := bases + [base];
    assert all[|bases|] == base;
    assert forall i :: 0 <= i < |bases| ==> all[i] == bases[i];
  }

  /** One write of ours landed, over what the attempt read, and it stores the elements added to it. */
  ghost predicate Added(was: seq<Change<Blob>>, now: seq<Change<Blob>>, value: Option<Blob>,
                        hash: Hash, a: Attempt, es: seq<Bytes>)
  {
    && (BaseOf(a) == [] || IsHLL(BaseOf(a)))
    && LandedOnce(was, now, value)
    && now[|now| - 1].before == a.phys
    && value == Some(Stored(hash, BaseOf(a), es))
  }

  datatype Tried = Won | Lost | Ended(why: PfReply)

  /** One attempt: read, compute, claim the type, write if nothing changed since the read. */
  method TryAdd(item: ValueItem<Blob>, hash: Hash, key: Bytes, elements: seq<Bytes>,
                a: Attempt, writes: seq<Option<Blob>>, ghost was: seq<Change<Blob>>)
    returns (r: Tried, grew: bool)
    requires NotLanded(was, item.history) && !a.kind.LiveOther?
    modifies item
    ensures r.Won? ==> Added(was, item.history, item.value, hash, a, elements) && |key| <= Redis.MAX_NAME
    ensures !r.Won? ==> NotLanded(was, item.history)
    ensures r.Lost? ==> item.value != a.phys && (writes == [] ==> item.value == old(item.value))
    ensures r.Ended? ==> r.why == WrongType || r.why == Failed(NotHLL) || r.why == Failed(TooLarge)
    ensures r == Ended(WrongType) ==> !a.claimed
    ensures r == Ended(Failed(NotHLL)) <==> BaseOf(a) != [] && !IsHLL(BaseOf(a))
    ensures r == Ended(Failed(TooLarge)) ==> |key| > Redis.MAX_NAME
    ensures grew <==> (BaseOf(a) == [] || IsHLL(BaseOf(a))) && Changes(hash, BaseOf(a), elements)
  {
    hide LandedOnce, NotLanded, Changes, Stored, IsHLL, BaseOf;
    var u;
    u, grew := AddTo(hash, key, BaseOf(a), elements);
    if !u.Store? {
      return Ended(Failed(u)), grew;
    }
    ghost var before := item.history;
    item.Interfere(writes);
    StillForeign(was, before, item.history);
    if !a.claimed {
      return Ended(WrongType), grew;
    }
    NowLanded(was, item.history, a.phys, Some(u.blob));
    var ok := item.SetCas(u.blob, a.phys);
    r := if ok then Won else Lost;
  }

  /**
   * PFADD, for every sequence of reads and every interference. A landed one wrote once, over the base
   * its last attempt read; it answers 1 exactly if some attempt, lost or landed, created the key or
   * grew a register. Any other outcome leaves no write of ours.
   */
  method PfAdd(item: ValueItem<Blob>, hash: Hash, key: Bytes, elements: seq<Bytes>,
               seen: nat -> Attempt, others: nat -> seq<Option<Blob>>)
    returns (reply: PfReply, ghost bases: seq<Blob>)
    modifies item
    ensures |bases| <= MAX_RMW_RETRIES && forall i :: 0 <= i < |bases| ==> bases[i] == BaseOf(seen(i))
    ensures reply.Answered? ==>
              && bases != [] && |key| <= Redis.MAX_NAME
              && Added(old(item.history), item.history, item.value, hash, seen(|bases| - 1), elements)
              && reply.n == Answer(hash, bases, elements)
    ensures !reply.Answered? ==> NotLanded(old(item.history), item.history)
    ensures seen(0).phys == old(item.value) && others(0) == [] ==> |bases| <= 1
    ensures reply == MaxRetries ==> |bases| == MAX_RMW_RETRIES
    ensures reply == Failed(NotHLL) ==> bases != [] && bases[|bases| - 1] != [] && !IsHLL(bases[|bases| - 1])
    ensures reply == Failed(TooLarge) ==> |key| > Redis.MAX_NAME
    ensures reply == WrongType ==>
              exists i :: 0 <= i < MAX_RMW_RETRIES && (seen(i).kind.LiveOther? || !seen(i).claimed)
  {
    hide NotLanded, Changes, IsHLL, Answer, BaseOf, Added;
    ghost var was := item.history;
    CasLoop.Unchanged(was);
    AnswerNone(hash, elements);
    bases := [];
    var changed, i := false, 0;
    while i < MAX_RMW_RETRIES
      invariant 0 <= i == |bases| <= MAX_RMW_RETRIES && NotLanded(was, item.history)
      invariant forall j :: 0 <= j < i ==> bases[j] == BaseOf(seen(j))
      invariant i > 0 ==> seen(0).phys != old(item.value) || others(0) != []
      invariant i == 0 ==> item.value == old(item.value)
      invariant Answer(hash, bases, elements) == if changed then 1 else 0
    {
      var a := seen(i);
      if a.kind.LiveOther? {
        return WrongType, bases;
      }
      var r, grew := TryAdd(item, hash, key, elements, a, others(i), was);
      AnswerSnoc(hash, bases, BaseOf(a), elements);
      bases := bases + [BaseOf(a)];
      if r.Ended? {
        return r.why, bases;
      }
      changed := changed || grew;
      if r.Won? {
        return Answered(if changed then 1 else 0), bases;
      }
      i := i + 1;
    }
    return MaxRetries, bases;
  }

  /** A stored header is kept. */
  lemma StoredKeepsHeader(hash: Hash, base: Blob, es: seq<Bytes>)
    requires IsHLL(base)
    ensures Stored(hash, base, es)[..16] == base[..16]
  {
    hide RaiseAll, Pack;
  }

  /** The value PFADD leaves summarises the old set and the added elements. */
  lemma StoredSummarises(hash: Hash, base: Blob, es: seq<Bytes>, known: set<Bytes>)
    requires base == [] || IsHLL(base)
    requires Summarises(hash, StartRegisters(base), known)
    ensures Summarises(hash, RegistersOf(Stored(hash, base, es)), known + Elements(es))
  {
    hide Summarises, RaiseAll;
    RaiseAllSummarises(hash, StartRegisters(base), known, es);
  }

  /** The key is absent, or the blobs are HyperLogLogs and no register shrank. */
  predicate Grew(base: Blob, next: Blob) {
    base == [] || (IsHLL(base) && IsHLL(next) && Below(RegistersOf(base), RegistersOf(next)))
  }

  /**
   * As long as the other writers only add and merge, the reply is the one PFADD would have given alone
   * at its first read.
   */
  lemma AnswersAsAtFirstRead(hash: Hash, bases: seq<Blob>, es: seq<Bytes>)
    requires bases != [] && forall i :: 0 <= i < |bases| ==> Grew(bases[0], bases[i])
    ensures Answer(hash, bases, es) == Answer(hash, [bases[0]], es)
  {
    hide Grew, Changes;
    assert [bases[0]][0] == bases[0];
    forall i | 0 <= i < |bases| && Changes(hash, bases[i], es) ensures Changes(hash, bases[0], es) {
      GrowthOnlyHides(hash, bases[0], bases[i], es);
    }
  }

  lemma GrowthOnlyHides(hash: Hash, base: Blob, next: Blob, es: seq<Bytes>)
    requires Grew(base, next) && Changes(hash, next, es)
    ensures Changes(hash, base, es)
  {
    hide Below, Covers, RaiseAll;
    if base != [] {
      RaiseAllCovers(hash, StartRegisters(base), es);
      RaiseAllCovers(hash, StartRegisters(next), es);
      if Covers(hash, StartRegisters(base), es) {
        CoversMore(hash, StartRegisters(base), StartRegisters(next), es);
      }
    }
  }

  /**
   * The serial reply, that of the landed attempt alone, is given exactly if the landed attempt made a
   * change or no lost attempt did; so it always is when every attempt read the same base.
   */
  lemma AnswerIsSerialIff(hash: Hash, bases: seq<Blob>, es: seq<Bytes>)
    requires bases != []
    ensures var n := |bases| - 1;
            && (Answer(hash, bases, es) == Answer(hash, [bases[n]], es) <==>
                  Changes(hash, bases[n], es) || forall i :: 0 <= i < n ==> !Changes(hash, bases[i], es))
            && ((forall i :: 0 <= i < n ==> bases[i] == bases[n]) ==>
                  Answer(hash, bases, es) == Answer(hash, [bases[n]], es))
  {
    hide Changes;
    assert [bases[|bases| - 1]][0] == bases[|bases| - 1];
  }

  /**
   * Two clients add the same elements to an absent key. The second loses its first attempt to what the
   * first one stored, then changes nothing, and still answers 1 where any serial order gives 1 and 0.
   */
  lemma LostAttemptAnswers(hash: Hash, es: seq<Bytes>)
    ensures var winner := Stored(hash, [], es);
            && Answer(hash, [[], winner], es) == 1
            && Answer(hash, [winner], es) == 0
            && Stored(hash, winner, es) == winner
  {
    hide RaiseAll, Covers, Pack;
    var winner := Stored(hash, [], es);
    RaiseAllCovers(hash, StartRegisters([]), es);
    RaiseAllCovers(hash, StartRegisters(winner), es);
    assert [[], winner][0] == [];
    PackingIsBijective(winner[HDR_SIZE..], []);
    assert winner == winner[..HDR_SIZE] + winner[HDR_SIZE..];
  }

  // ----- PFMERGE --------------------------------------------------------------------------------

  ghost function UnionOf(sets: seq<set<Bytes>>): set<Bytes> {
    set i, e | 0 <= i < |sets| && e in sets[i] :: e
  }

  lemma UnionSnoc(sets: seq<set<Bytes>>, s: set<Bytes>)
    ensures UnionOf(sets + [s]) == UnionOf(sets) + s
  {
    var all := sets + [s];
    assert all[|sets|] == s;
    assert forall i :: 0 <= i < |sets| ==> all[i] == sets[i];
  }

  /** What the lookup of a source key found. */
  datatype Source = Missing | Foreign | Found(blob: Blob)

  predicate Mergeable(s: Source) {
    s.Missing? || (s.Found? && IsHLL(s.blob))
  }

  ghost predicate SourceStandsFor(hash: Hash, s: Source, elements: set<Bytes>) {
    match s
    case Missing => elements == {}
    case Foreign => true
    case Found(blob) => IsHLL(blob) ==> Summarises(hash, RegistersOf(blob), elements)
  }

  ghost predicate AllStandFor(hash: Hash, ss: seq<Source>, sets: seq<set<Bytes>>) {
    |sets| == |ss| && forall i :: 0 <= i < |ss| ==> SourceStandsFor(hash, ss[i], sets[i])
  }

  ghost predicate AllSummarise(hash: Hash, blobs: seq<Blob>, sets: seq<set<Bytes>>) {
    && |sets| == |blobs|
    && forall i :: 0 <= i < |blobs| ==> IsHLL(blobs[i]) && Summarises(hash, RegistersOf(blobs[i]), sets[i])
  }

  /** Read the sources in order; the first that is not a HyperLogLog decides the error. */
  method ReadSources(hash: Hash, ss: seq<Source>, ghost sets: seq<set<Bytes>>)
    returns (blobs: seq<Blob>, ghost kept: seq<set<Bytes>>, failed: Option<PfReply>)
    requires AllStandFor(hash, ss, sets)
    ensures failed.None? ==> (forall i :: 0 <= i < |ss| ==> Mergeable(ss[i]))
    ensures failed.None? ==> AllSummarise(hash, blobs, kept) && UnionOf(kept) == UnionOf(sets)
    ensures failed.Some? ==> exists i :: 0 <= i < |ss| && FirstUnmergeable(ss, i) && failed.value == ErrorOf(ss[i])
  {
    hide Summarises, UnionOf, IsHLL;
    blobs, kept, failed := [], [], None;
    assert sets[..0] == [];
    for i := 0 to |ss|
      invariant forall j :: 0 <= j < i ==> Mergeable(ss[j])
      invariant AllSummarise(hash, blobs, kept) && UnionOf(kept) == UnionOf(sets[..i])
    {
      assert SourceStandsFor(hash, ss[i], sets[i]);
      UnionSnoc(sets[..i], sets[i]);
      assert sets[..i] + [sets[i]] == sets[..i + 1];
      if ss[i].Foreign? {
        failed := Some(WrongType);
        assert FirstUnmergeable(ss, i);
        return;
      }
      if ss[i].Found? {
        if !IsHLL(ss[i].blob) {
          failed := Some(Failed(NotHLL));
          assert FirstUnmergeable(ss, i);
          return;
        }
        UnionSnoc(kept, sets[i]);
        blobs, kept := blobs + [ss[i].blob], kept + [sets[i]];
      }
    }
    assert sets[..|ss|] == sets;
  }

  predicate FirstUnmergeable(ss: seq<Source>, i: nat) {
    i < |ss| && !Mergeable(ss[i]) && forall j :: 0 <= j < i ==> Mergeable(ss[j])
  }

  function ErrorOf(s: Source): PfReply {
    if s.Foreign? then WrongType else Failed(NotHLL)
  }

  method MergeAll(regs: array<bv8>, hash: Hash, blobs: seq<Blob>, ghost known: set<Bytes>, ghost sets: seq<set<Bytes>>)
    requires regs.Length == REG_BYTES && Summarises(hash, Unpack(regs[..]), known)
    requires AllSummarise(hash, blobs, sets)
    modifies regs
    ensures Summarises(hash, Unpack(regs[..]), known + UnionOf(sets))
  {
    hide Summarises, Unpack, UnionOf, MergeOf;
    UnionOfNone();
    assert sets[..0] == [];
    assert known + {} == known;
    for i := 0 to |blobs|
      invariant Summarises(hash, Unpack(regs[..]), known + UnionOf(sets[..i]))
    {
      MergeSummarisesUnion(hash, Unpack(regs[..]), known + UnionOf(sets[..i]), RegistersOf(blobs[i]), sets[i]);
      HllMergeInto(regs, blobs[i][HDR_SIZE..]);
      UnionSnoc(sets[..i], sets[i]);
      assert sets[..i] + [sets[i]] == sets[..i + 1];
      assert known + UnionOf(sets[..i]) + sets[i] == known + UnionOf(sets[..i + 1]);
    }
    assert sets[..|sets|] == sets;
  }

  lemma UnionOfNone()
    ensures UnionOf([]) == {}
  {
  }

  /**
   * PFMERGE: errors of the sources in order, then of the destination, then the size guard; otherwise
   * the destination stands for the union of its set and the sources' sets.
   */
  method PfMerge(hash: Hash, key: Bytes, base: Blob, ss: seq<Source>,
                 ghost known: set<Bytes>, ghost sets: seq<set<Bytes>>)
    returns (blob: Blob, failed: Option<PfReply>)
    requires AllStandFor(hash, ss, sets)
    requires base == [] || IsHLL(base) ==> Summarises(hash, StartRegisters(base), known)
    ensures forall i :: 0 <= i < |ss| && !Mergeable(ss[i]) && (forall j :: 0 <= j < i ==> Mergeable(ss[j])) ==>
              failed == Some(if ss[i].Foreign? then WrongType else Failed(NotHLL))
    ensures (forall i :: 0 <= i < |ss| ==> Mergeable(ss[i])) ==>
              failed == if base != [] && !IsHLL(base) then Some(Failed(NotHLL))
                        else if |key| > Redis.MAX_NAME then Some(Failed(TooLarge))
                        else None
    ensures failed.None? ==> IsHLL(blob) && Summarises(hash, RegistersOf(blob), known + UnionOf(sets))
  {
    hide Summarises, Unpack, UnionOf;
    blob := [];
    ghost var kept;
    var blobs;
    blobs, kept, failed := ReadSources(hash, ss, sets);
    if failed.Some? {
      return;
    }
    if base != [] && !IsHLL(base) {
      failed := Some(Failed(NotHLL));
      return;
    }
    var start := StartBlob(base);
    var regs := CopyRegisters(start);
    MergeAll(regs, hash, blobs, known, kept);
    BlobOf(start, regs[..]);
    blob := start[..HDR_SIZE] + regs[..];
    if |key| > Redis.MAX_NAME || |blob| > Redis.MAX_VALUE {
      failed := Some(Failed(TooLarge));
    }
  }
}
