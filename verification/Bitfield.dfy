/** BITFIELD: fields of a zero-extended bit string, overflow modes and operation lists. */
module Bitfield {
  import opened Prelude
  import opened Powers
  import Redis

  type Buffer = seq<bv8>

  // ----- Bits -----------------------------------------------------------------------------------

  /** The mask of bit k of a byte, most significant first. */
  function Mask(k: nat): bv8
    requires k < 8
  {
    match k
    case 0 => 0x80
    case 1 => 0x40
    case 2 => 0x20
    case 3 => 0x10
    case 4 => 0x08
    case 5 => 0x04
    case 6 => 0x02
    case _ => 0x01
  }

  predicate ByteBit(b: bv8, k: nat)
    requires k < 8
  {
    b & Mask(k) != 0
  }

  /** The buffer as an unbounded tape: past its end every bit is 0. */
  type Tape = nat -> bool

  predicate Bit(buf: Buffer, i: nat) {
    i / 8 < |buf| && ByteBit(buf[i / 8], i % 8)
  }

  function TapeOf(buf: Buffer): Tape {
    (i: nat) => Bit(buf, i)
  }

  /** The unsigned value of n bits from an offset, most significant first. */
  function Field(t: Tape, offset: nat, n: nat): nat {
    if n == 0 then 0 else 2 * Field(t, offset, n - 1) + (if t(offset + n - 1) then 1 else 0)
  }

  /** The tape with n bits from an offset replaced by the low n bits of v. */
  function Written(t: Tape, offset: nat, n: nat, v: nat): Tape {
    (i: nat) => if offset <= i < offset + n then BitOf(v, n - 1 - (i - offset)) else t(i)
  }

  ghost predicate SameTape(t: Tape, u: Tape) {
    forall i: nat :: t(i) == u(i)
  }

  lemma {:induction false} FieldBound(t: Tape, offset: nat, n: nat)
    ensures Field(t, offset, n) < Pow2(n)
  {
    if n > 0 {
      FieldBound(t, offset, n - 1);
    }
  }

  lemma {:induction false} SameField(t: Tape, u: Tape, offset: nat, n: nat)
    requires forall i: nat :: offset <= i < offset + n ==> t(i) == u(i)
    ensures Field(t, offset, n) == Field(u, offset, n)
  {
    if n > 0 {
      SameField(t, u, offset, n - 1);
    }
  }

  /** Reading back what was written. */
  lemma {:induction false} FieldOfWritten(t: Tape, offset: nat, n: nat, v: nat)
    requires v < Pow2(n)
    ensures Field(Written(t, offset, n, v), offset, n) == v
  {
    if n > 0 {
      var t', u := Written(t, offset, n, v), Written(t, offset, n - 1, v / 2);
      FieldOfWritten(t, offset, n - 1, v / 2);
      forall i: nat | offset <= i < offset + n - 1 ensures t'(i) == u(i) {
        HalfBits(v, n - 2 - (i - offset));
      }
      SameField(t', u, offset, n - 1);
      assert t'(offset + n - 1) == BitOf(v, 0);
      assert v / Pow2(0) == v;
    }
  }

  // ----- Bit order ------------------------------------------------------------------------------

  /** Tape position i is the bit of weight 2^(7 - i % 8) of byte i / 8, and clear past the last byte. */
  lemma TapeIsBigEndian(buf: Buffer, i: nat)
    ensures TapeOf(buf)(i) <==> i / 8 < |buf| && (buf[i / 8] >> (7 - i % 8)) & 1 == 1
  {
    if i / 8 < |buf| {
      ShiftedBit(buf[i / 8], i % 8);
    }
  }

  lemma ShiftedBit(b: bv8, k: nat)
    requires k < 8
    ensures ByteBit(b, k) <==> (b >> (7 - k)) & 1 == 1
  {
    EightBits(b);
  }

  lemma EightBits(b: bv8)
    ensures (b & 0x80 != 0 <==> (b >> 7) & 1 == 1) && (b & 0x40 != 0 <==> (b >> 6) & 1 == 1)
    ensures (b & 0x20 != 0 <==> (b >> 5) & 1 == 1) && (b & 0x10 != 0 <==> (b >> 4) & 1 == 1)
    ensures (b & 0x08 != 0 <==> (b >> 3) & 1 == 1) && (b & 0x04 != 0 <==> (b >> 2) & 1 == 1)
    ensures (b & 0x02 != 0 <==> (b >> 1) & 1 == 1) && (b & 0x01 != 0 <==> (b >> 0) & 1 == 1)
  {
  }

  /** A field is its upper part followed by its lower part; a field of one bit is that bit. */
  lemma {:induction false} FieldConcat(t: Tape, offset: nat, a: nat, b: nat)
    ensures Field(t, offset, a + b) == Field(t, offset, a) * Pow2(b) + Field(t, offset + a, b)
    ensures Field(t, offset, 1) == if t(offset) then 1 else 0
  {
    assert Field(t, offset, 0) == 0;
    if b > 0 {
      FieldConcat(t, offset, a, b - 1);
      Doubled(Field(t, offset, a), b);
      hide Pow2;
    }
  }

  lemma Doubled(x: nat, b: nat)
    requires b > 0
    ensures x * Pow2(b) == 2 * (x * Pow2(b - 1))
  {
  }

  /** The bytes a write needs are the fewest that hold its last bit. */
  lemma BytesForIsLeast(offset: nat, n: nat, bytes: nat)
    ensures BytesFor(offset, n) <= bytes <==> offset + n <= 8 * bytes
  {
  }

  // ----- Encoding -------------------------------------------------------------------------------

  predicate WidthOk(signed: bool, n: nat) {
    1 <= n <= (if signed then 64 else 63)
  }

  function MinOf(signed: bool, n: nat): int
    requires n >= 1
  {
    if signed then -Pow2(n - 1) else 0
  }

  function MaxOf(signed: bool, n: nat): int
    requires n >= 1
  {
    if signed then Pow2(n - 1) - 1 else Pow2(n) - 1
  }

  /** Go's conversion of a uint64 to int64. */
  function ToInt64(v: int): int {
    if v >= TWO63 then v - TWO64 else v
  }

  /** Sign extension fills the bits above the field, which are clear, so it adds their weight. */
  function Decode(v: nat, n: nat, signed: bool): int
    requires n >= 1
  {
    ToInt64(if signed && n < 64 && BitOf(v, n - 1) then v + (TWO64 - Pow2(n)) else v)
  }

  /** Two's complement on n bits; the mask keeps the n bits that the remainder already fits. */
  function Encode(v: int, n: nat): nat {
    v % Pow2(n)
  }

  /** Decoding gives the number in range that the field denotes. */
  lemma DecodeIsTwosComplement(v: nat, n: nat, signed: bool)
    requires WidthOk(signed, n) && v < Pow2(n)
    ensures Decode(v, n, signed) == (if signed && v >= Pow2(n - 1) then v - Pow2(n) else v)
    ensures MinOf(signed, n) <= Decode(v, n, signed) <= MaxOf(signed, n)
  {
    Pow2Of64();
    Pow2Grows(n, 64);
    if !signed {
      Pow2Grows(n, 63);
    } else if n < 64 {
      Pow2Grows(n, 63);
    }
    var h := Pow2(n - 1);
    assert Pow2(n) == 2 * h;
    if v >= h {
      DivMod(v, h, 1, v - h);
    } else {
      DivMod(v, h, 0, v);
    }
  }

  lemma ResidueShift(v: int, m: int)
    requires m > 0
    ensures (v - m) % m == v % m
  {
    var q := v / m - 1;
    assert v - m == m * q + v % m;
    DivMod(v - m, m, q, v % m);
  }

  /** What is stored decodes into the type's range, to a number congruent to the argument modulo 2^n. */
  lemma WrapIsCongruent(want: int, n: nat, signed: bool)
    requires WidthOk(signed, n)
    ensures var r := Decode(Encode(want, n), n, signed);
            MinOf(signed, n) <= r <= MaxOf(signed, n) && r % Pow2(n) == want % Pow2(n)
  {
    hide Decode;
    var v := Encode(want, n);
    DecodeIsTwosComplement(v, n, signed);
    assert v % Pow2(n) == v by { DivMod(v, Pow2(n), 0, v); }
    ResidueShift(v, Pow2(n));
  }

  /** No two numbers of the type's range are congruent. */
  lemma RangeIsResidueSystem(n: nat, signed: bool, x: int, y: int)
    requires WidthOk(signed, n)
    requires MinOf(signed, n) <= x <= MaxOf(signed, n) && MinOf(signed, n) <= y <= MaxOf(signed, n)
    requires x % Pow2(n) == y % Pow2(n)
    ensures x == y
  {
    assert Pow2(n) == 2 * Pow2(n - 1);
    SameResidue(x, y, Pow2(n));
  }

  /** The one number of the type's range that is congruent to the argument modulo 2^n. */
  lemma WrapIsUnique(want: int, n: nat, signed: bool, x: int)
    requires WidthOk(signed, n)
    ensures var r := Decode(Encode(want, n), n, signed);
            && MinOf(signed, n) <= r <= MaxOf(signed, n)
            && r % Pow2(n) == want % Pow2(n)
            && (MinOf(signed, n) <= x <= MaxOf(signed, n) && x % Pow2(n) == want % Pow2(n) ==> x == r)
  {
    hide Decode, Encode, MinOf, MaxOf, Pow2;
    WrapIsCongruent(want, n, signed);
    if MinOf(signed, n) <= x <= MaxOf(signed, n) && x % Pow2(n) == want % Pow2(n) {
      RangeIsResidueSystem(n, signed, x, Decode(Encode(want, n), n, signed));
    }
  }

  datatype Overflow = Wrap | Sat | Fail

  function ClampToWidth(mode: Overflow, signed: bool, n: nat, want: int): Option<nat>
    requires n >= 1
  {
    var min, max := MinOf(signed, n), MaxOf(signed, n);
    match mode
    case Fail => if min <= want <= max then Some(Encode(want, n)) else None
    case Sat => Some(Encode(if want < min then min else if want > max then max else want, n))
    case Wrap => Some(Encode(want, n))
  }

  /**
   * The three overflow modes for every argument: FAIL answers nothing exactly out of range, SAT stores
   * the nearest bound, WRAP the congruent number; in range all three store the argument.
   */
  lemma OverflowModes(mode: Overflow, signed: bool, n: nat, want: int)
    requires WidthOk(signed, n)
    ensures var min, max := MinOf(signed, n), MaxOf(signed, n);
            var stored := ClampToWidth(mode, signed, n, want);
            && (stored.None? <==> mode == Fail && !(min <= want <= max))
            && (stored.Some? ==> stored.value < Pow2(n))
            && (min <= want <= max ==> stored.Some? && Decode(stored.value, n, signed) == want)
            && (mode == Sat ==> Decode(stored.value, n, signed) == Max(min, Min(max, want)))
            && (mode == Wrap ==> Decode(stored.value, n, signed) % Pow2(n) == want % Pow2(n))
  {
    var min, max := MinOf(signed, n), MaxOf(signed, n);
    WrapIsUnique(want, n, signed, want);
    WrapIsUnique(min, n, signed, min);
    WrapIsUnique(max, n, signed, max);
  }

  // ----- Operations on a tape -------------------------------------------------------------------

  datatype Op =
    | Get(signed: bool, n: nat, offset: nat)
    | Set(signed: bool, n: nat, offset: nat, arg: int, mode: Overflow)
    | IncrBy(signed: bool, n: nat, offset: nat, arg: int, mode: Overflow)

  /** What an operation answers (None is nil) and stores, given the value of its field. */
  datatype Effect = Effect(reply: Option<int>, write: Option<nat>)

  function Act(op: Op, field: nat): Effect
    requires op.n >= 1
  {
    var was := Decode(field, op.n, op.signed);
    match op
    case Get(_, _, _) => Effect(Some(was), None)
    case Set(_, _, _, _, _) =>
      var stored := ClampToWidth(op.mode, op.signed, op.n, op.arg);
      Effect(if stored.Some? then Some(was) else None, stored)
    case IncrBy(_, _, _, _, _) =>
      var stored := ClampToWidth(op.mode, op.signed, op.n, was + op.arg);
      Effect(if stored.Some? then Some(Decode(stored.value, op.n, op.signed)) else None, stored)
  }

  predicate OpsOk(ops: seq<Op>) {
    forall i :: 0 <= i < |ops| ==> WidthOk(ops[i].signed, ops[i].n)
  }

  function Replies(t: Tape, ops: seq<Op>): seq<Option<int>>
    requires OpsOk(ops)
  {
    if ops == [] then []
    else [Act(ops[0], Field(t, ops[0].offset, ops[0].n)).reply] + Replies(After(t, ops[0]), ops[1..])
  }

  function After(t: Tape, op: Op): Tape
    requires op.n >= 1
  {
    var write := Act(op, Field(t, op.offset, op.n)).write;
    if write.Some? then Written(t, op.offset, op.n, write.value) else t
  }

  function AfterAll(t: Tape, ops: seq<Op>): Tape
    requires OpsOk(ops)
  {
    if ops == [] then t else AfterAll(After(t, ops[0]), ops[1..])
  }

  /** Operations see only bits: equal tapes give equal replies and stay equal. */
  lemma {:induction false} SameTapeSameRun(t: Tape, u: Tape, ops: seq<Op>)
    requires SameTape(t, u) && OpsOk(ops)
    ensures Replies(t, ops) == Replies(u, ops)
    ensures SameTape(AfterAll(t, ops), AfterAll(u, ops))
  {
    if ops != [] {
      SameField(t, u, ops[0].offset, ops[0].n);
      assert SameTape(After(t, ops[0]), After(u, ops[0]));
      SameTapeSameRun(After(t, ops[0]), After(u, ops[0]), ops[1..]);
    }
  }

  /** A list acts operation by operation: the second part runs on what the first part left. */
  lemma {:induction false} OpsInOrder(t: Tape, first: seq<Op>, more: seq<Op>)
    requires OpsOk(first) && OpsOk(more)
    ensures OpsOk(first + more)
    ensures Replies(t, first + more) == Replies(t, first) + Replies(AfterAll(t, first), more)
    ensures AfterAll(t, first + more) == AfterAll(AfterAll(t, first), more)
  {
    hide Act, After, Field;
    if first == [] {
      assert first + more == more;
    } else {
      var op, rest := first[0], first[1..];
      assert first == [op] + rest && first + more == [op] + (rest + more);
      OpsInOrder(After(t, op), rest, more);
      FirstOp(t, op, rest);
      FirstOp(t, op, rest + more);
    }
  }

  lemma FirstOp(t: Tape, op: Op, rest: seq<Op>)
    requires WidthOk(op.signed, op.n) && OpsOk(rest)
    ensures OpsOk([op] + rest)
    ensures Replies(t, [op] + rest) ==
            [Act(op, Field(t, op.offset, op.n)).reply] + Replies(After(t, op), rest)
    ensures AfterAll(t, [op] + rest) == AfterAll(After(t, op), rest)
  {
    hide Act, After, Field;
    assert ([op] + rest)[1..] == rest;
  }

  /** One operation: its reply and what it leaves. */
  lemma OneOp(t: Tape, op: Op)
    requires WidthOk(op.signed, op.n)
    ensures Replies(t, [op]) == [Act(op, Field(t, op.offset, op.n)).reply] && AfterAll(t, [op]) == After(t, op)
  {
    hide Act, After;
    assert [op][1..] == [];
  }

  /** What a GET of the operation's field reads. */
  function Reads(t: Tape, op: Op): int
    requires op.n >= 1
  {
    Decode(Field(t, op.offset, op.n), op.n, op.signed)
  }

  /**
   * What a GET of the field reads after a write, for every mode and argument: in range the argument or
   * sum itself; out of range the nearest bound under SAT, the number of the range congruent to it modulo
   * 2^n under WRAP, and under FAIL what it read before, with a nil reply and no bit changed. INCRBY
   * answers what is read then, SET what was read before.
   */
  lemma WritesAreRead(t: Tape, op: Op)
    requires !op.Get? && WidthOk(op.signed, op.n)
    ensures var n := op.n;
            var want := if op.Set? then op.arg else Reads(t, op) + op.arg;
            var low := if op.signed then -Pow2(n - 1) else 0;
            var high := if op.signed then Pow2(n - 1) - 1 else Pow2(n) - 1;
            var reply, now := Act(op, Field(t, op.offset, n)).reply, Reads(After(t, op), op);
            && low <= now <= high
            && (low <= want <= high ==> now == want)
            && (op.mode == Sat ==> now == Max(low, Min(high, want)))
            && (op.mode == Wrap ==> now % Pow2(n) == want % Pow2(n))
            && (op.mode == Fail && !(low <= want <= high) ==> After(t, op) == t && reply == None)
            && (op.mode != Fail || low <= want <= high ==> reply == Some(if op.IncrBy? then now else Reads(t, op)))
  {
    hide Decode, Encode, Pow2;
    var field := Field(t, op.offset, op.n);
    OverflowModes(op.mode, op.signed, op.n, if op.Set? then op.arg else Reads(t, op) + op.arg);
    FieldBound(t, op.offset, op.n);
    DecodeIsTwosComplement(field, op.n, op.signed);
    var write := Act(op, field).write;
    if write.Some? {
      FieldOfWritten(t, op.offset, op.n, write.value);
      DecodeIsTwosComplement(write.value, op.n, op.signed);
    }
  }

  /** GET answers what the field reads and changes nothing. */
  lemma GetReads(t: Tape, op: Op)
    requires op.Get? && WidthOk(op.signed, op.n)
    ensures Act(op, Field(t, op.offset, op.n)).reply == Some(Reads(t, op)) && After(t, op) == t
  {
  }

  /** An INCRBY that does not fail answers what a GET of the same field answers next. */
  lemma IncrByRepliesWhatGetReads(t: Tape, op: Op)
    requires op.IncrBy? && WidthOk(op.signed, op.n)
    ensures var reply := Act(op, Field(t, op.offset, op.n)).reply;
            reply.Some? ==>
              Act(Get(op.signed, op.n, op.offset), Field(After(t, op), op.offset, op.n)).reply == reply
  {
    OverflowModes(op.mode, op.signed, op.n, Decode(Field(t, op.offset, op.n), op.n, op.signed) + op.arg);
    var write := Act(op, Field(t, op.offset, op.n)).write;
    if write.Some? {
      FieldOfWritten(t, op.offset, op.n, write.value);
    }
  }

  /** A SET that does not fail answers the old value, and the next GET reads the clamped new one. */
  lemma SetThenGet(t: Tape, op: Op)
    requires op.Set? && WidthOk(op.signed, op.n)
    ensures var effect := Act(op, Field(t, op.offset, op.n));
            effect.write.Some? ==>
              && effect.reply == Act(Get(op.signed, op.n, op.offset), Field(t, op.offset, op.n)).reply
              && Act(Get(op.signed, op.n, op.offset), Field(After(t, op), op.offset, op.n)).reply
                 == Some(Decode(effect.write.value, op.n, op.signed))
  {
    OverflowModes(op.mode, op.signed, op.n, op.arg);
    var write := Act(op, Field(t, op.offset, op.n)).write;
    if write.Some? {
      FieldOfWritten(t, op.offset, op.n, write.value);
    }
  }

  // ----- The loops ------------------------------------------------------------------------------

  lemma NoTruncation(t: Tape, offset: nat, i: nat)
    requires i < 64
    ensures (2 * Field(t, offset, i)) % TWO64 == 2 * Field(t, offset, i)
  {
    FieldBound(t, offset, i);
    Pow2Of64();
    Pow2Grows(i, 63);
  }

  method ReadBit(val: Buffer, bitIndex: nat) returns (bit: nat)
    ensures bit == if TapeOf(val)(bitIndex) then 1 else 0
  {
    var byteIdx := bitIndex / 8;
    bit := 0;
    if byteIdx < |val| && val[byteIdx] & Mask(bitIndex % 8) != 0 {
      bit := 1;
    }
  }

  /** Read a field bit by bit; bits past the end are 0. */
  method BfGet(val: Buffer, offset: nat, n: nat, signed: bool) returns (r: int)
    requires WidthOk(signed, n)
    ensures r == Decode(Field(TapeOf(val), offset, n), n, signed)
  {
    hide Pow2, Decode, TapeOf;
    var v := 0;
    for i := 0 to n
      invariant v == Field(TapeOf(val), offset, i)
    {
      var bit := ReadBit(val, offset + i);
      NoTruncation(TapeOf(val), offset, i);
      v := (2 * v) % TWO64 + bit;
    }
    r := Decode(v, n, signed);
  }

  function WithBit(b: bv8, k: nat, bit: bool): bv8
    requires k < 8
  {
    if bit then b | Mask(k) else b & !Mask(k)
  }

  /** Setting or clearing one bit of a byte leaves the others. */
  lemma OneBit(b: bv8, k: nat, bit: bool, j: nat)
    requires k < 8 && j < 8
    ensures ByteBit(WithBit(b, k, bit), j) == if j == k then bit else ByteBit(b, j)
  {
  }

  function BytesFor(offset: nat, n: nat): nat {
    (offset + n + 7) / 8
  }

  /** Zero bytes at the end do not change the tape. */
  method GrowTo(val: Buffer, size: nat) returns (r: Buffer)
    ensures |r| == Max(|val|, size)
    ensures val <= r && forall i :: |val| <= i < |r| ==> r[i] == 0
    ensures SameTape(TapeOf(r), TapeOf(val))
  {
    r := val;
    while |r| < size
      invariant |val| <= |r| <= Max(|val|, size)
      invariant val <= r && forall i :: |val| <= i < |r| ==> r[i] == 0
    {
      r := r + [0];
    }
    forall i: nat ensures Bit(r, i) == Bit(val, i) {
      if |val| <= i / 8 < |r| {
        assert r[i / 8] == 0;
      }
    }
  }

  lemma PutBitAt(val: Buffer, index: nat, bit: bool, i: nat)
    requires index / 8 < |val|
    ensures Bit(val[index / 8 := WithBit(val[index / 8], index % 8, bit)], i) == if i == index then bit else Bit(val, i)
  {
    hide ByteBit, WithBit;
    if i / 8 == index / 8 {
      OneBit(val[index / 8], index % 8, bit, i % 8);
      assert i == index <==> i % 8 == index % 8;
    }
  }

  /** Set one bit of a buffer long enough to hold it. */
  method PutBit(val: Buffer, bitIndex: nat, bit: bool) returns (r: Buffer)
    requires bitIndex / 8 < |val|
    ensures |r| == |val|
    ensures forall i: nat :: Bit(r, i) == if i == bitIndex then bit else Bit(val, i)
  {
    hide Bit, WithBit;
    var byteIdx := bitIndex / 8;
    r := val[byteIdx := WithBit(val[byteIdx], bitIndex % 8, bit)];
    forall i: nat ensures Bit(r, i) == if i == bitIndex then bit else Bit(val, i) {
      PutBitAt(val, bitIndex, bit, i);
    }
  }

  /** Write a field bit by bit, growing the buffer with zero bytes: exactly those bits change. */
  method BfSet(val: Buffer, offset: nat, n: nat, v: nat) returns (r: Buffer)
    requires n >= 1
    ensures |r| == Max(|val|, BytesFor(offset, n))
    ensures SameTape(TapeOf(r), Written(TapeOf(val), offset, n, v))
  {
    ghost var t := TapeOf(val);
    r := GrowTo(val, BytesFor(offset, n));
    for i := 0 to n
      invariant |r| == Max(|val|, BytesFor(offset, n))
      invariant forall k: nat ::
                  TapeOf(r)(k) == if offset <= k < offset + i then Written(t, offset, n, v)(k) else t(k)
    {
      ghost var before := r;
      r := PutBit(r, offset + i, BitOf(v, n - 1 - i));
      assert forall k: nat :: k != offset + i ==> TapeOf(r)(k) == TapeOf(before)(k);
      assert TapeOf(r)(offset + i) == Written(t, offset, n, v)(offset + i);
    }
  }

  /** The highest byte count any write operation addresses, whether or not it stores. */
  function WriteBytes(ops: seq<Op>): nat {
    if ops == [] then 0
    else
      var last := ops[|ops| - 1];
      Max(WriteBytes(ops[..|ops| - 1]), if last.Get? then 0 else BytesFor(last.offset, last.n))
  }

  lemma {:induction false} WriteBytesCovers(ops: seq<Op>, i: nat)
    requires i < |ops| && !ops[i].Get?
    ensures BytesFor(ops[i].offset, ops[i].n) <= WriteBytes(ops)
  {
    if i < |ops| - 1 {
      WriteBytesCovers(ops[..|ops| - 1], i);
    }
  }

  /** Run the operations in order over the buffer: they act on its zero-extended tape. */
  method ApplyBitfield(val: Buffer, ops: seq<Op>) returns (results: seq<Option<int>>, out: Buffer)
    requires OpsOk(ops)
    ensures results == Replies(TapeOf(val), ops)
    ensures SameTape(TapeOf(out), AfterAll(TapeOf(val), ops))
    ensures |val| <= |out| <= Max(|val|, WriteBytes(ops))
  {
    ghost var t := TapeOf(val);
    var cur := val;
    results := [];
    assert ops[0..] == ops;
    for i := 0 to |ops|
      invariant |val| <= |cur| <= Max(|val|, WriteBytes(ops))
      invariant Replies(t, ops) == results + Replies(TapeOf(cur), ops[i..])
      invariant SameTape(AfterAll(t, ops), AfterAll(TapeOf(cur), ops[i..]))
    {
      var op := ops[i];
      ghost var was, rest := TapeOf(cur), ops[i + 1..];
      assert ops[i..][0] == op && ops[i..][1..] == rest;
      var reply;
      cur, reply := ApplyOne(cur, op);
      SameTapeSameRun(TapeOf(cur), After(was, op), rest);
      if !op.Get? {
        WriteBytesCovers(ops, i);
      }
      assert results + ([reply] + Replies(TapeOf(cur), rest)) == (results + [reply]) + Replies(TapeOf(cur), rest);
      results := results + [reply];
    }
    out := cur;
  }

  /** One operation of the list. */
  method ApplyOne(cur: Buffer, op: Op) returns (next: Buffer, reply: Option<int>)
    requires WidthOk(op.signed, op.n)
    ensures reply == Act(op, Field(TapeOf(cur), op.offset, op.n)).reply
    ensures SameTape(TapeOf(next), After(TapeOf(cur), op))
    ensures |cur| <= |next| <= Max(|cur|, if op.Get? then 0 else BytesFor(op.offset, op.n))
  {
    next := cur;
    var was := BfGet(cur, op.offset, op.n, op.signed);
    if op.Get? {
      return next, Some(was);
    }
    var stored := ClampToWidth(op.mode, op.signed, op.n, if op.Set? then op.arg else was + op.arg);
    if stored.None? {
      return next, None;
    }
    next := BfSet(cur, op.offset, op.n, stored.value);
    reply := Some(if op.Set? then was else Decode(stored.value, op.n, op.signed));
  }

  /** How far the writes of a list reach. */
  method HighestWrite(ops: seq<Op>) returns (maxBytes: nat)
    requires OpsOk(ops)
    ensures maxBytes == WriteBytes(ops)
  {
    maxBytes := 0;
    for i := 0 to |ops|
      invariant maxBytes == WriteBytes(ops[..i])
    {
      assert ops[..i + 1][..i] == ops[..i];
      if !ops[i].Get? {
        var nb := BytesFor(ops[i].offset, ops[i].n);
        if nb > maxBytes {
          maxBytes := nb;
        }
      }
    }
    assert ops[..|ops|] == ops;
  }

  /**
   * The write path rejects a list that reaches too far, and grows the buffer up front to the highest
   * byte any write addresses. The replies and the bits are those of the ungrown buffer, and the final
   * length is fixed even if every write fails; nothing is stored exactly if the key or it is too long.
   */
  method GrowThenApply(key: Bytes, base: Buffer, ops: seq<Op>)
    returns (results: seq<Option<int>>, out: Option<Buffer>)
    requires OpsOk(ops)
    ensures out.None? <==> |key| > Redis.MAX_NAME || Max(|base|, WriteBytes(ops)) > Redis.MAX_VALUE
    ensures out.Some? ==>
              && results == Replies(TapeOf(base), ops)
              && SameTape(TapeOf(out.value), AfterAll(TapeOf(base), ops))
              && |out.value| == Max(|base|, WriteBytes(ops))
  {
    var maxBytes := HighestWrite(ops);
    if maxBytes > Redis.MAX_VALUE {
      return [], None;
    }
    var next := GrowTo(base, maxBytes);
    var applied;
    results, applied := ApplyBitfield(next, ops);
    SameTapeSameRun(TapeOf(next), TapeOf(base), ops);
    out := if |key| > Redis.MAX_NAME || |applied| > Redis.MAX_VALUE then None else Some(applied);
  }
}
