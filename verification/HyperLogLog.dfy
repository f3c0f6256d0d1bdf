/**
 * HyperLogLog: 16384 registers of 6 bits packed into 12288 bytes, adding and merging. The 64-bit hash
 * of an element is a parameter.
 */
module HyperLogLog {
  import opened Prelude
  import opened Powers
  import opened Words

  newtype uint64 = x: int | 0 <= x < 0x1_0000_0000_0000_0000

  type Blob = seq<bv8>

  const HLL_Q: nat := 50
  const REGISTERS: nat := 16384
  const REG_BYTES: nat := 12288

  // ----- One register across two bytes ----------------------------------------------------------

  predicate Aligned(fb: nat) {
    fb == 0 || fb == 2 || fb == 4 || fb == 6
  }

  /** The six bits that start at bit fb of the first byte. */
  function Cell(b0: bv8, b1: bv8, fb: nat): (v: bv8)
    requires Aligned(fb)
    ensures v < 64
  {
    (((b0 as bv16 >> fb) | (b1 as bv16 << (8 - fb))) & 0x3F) as bv8
  }

  function Low(b0: bv8, fb: nat, v: bv8): bv8
    requires Aligned(fb)
  {
    (b0 & !(0x3F << fb)) | (v << fb)
  }

  function High(b1: bv8, fb: nat, v: bv8): bv8
    requires Aligned(fb)
  {
    (b1 & !(0x3F >> (8 - fb))) | (v >> (8 - fb))
  }

  lemma CellReadsBack(b0: bv8, b1: bv8, fb: nat, v: bv8)
    requires Aligned(fb) && v < 64
    ensures Cell(Low(b0, fb, v), High(b1, fb, v), fb) == v
    ensures fb == 2 ==> Cell(Low(b0, fb, v), b1, fb) == v
  {
    if fb == 0 {
    } else if fb == 2 {
    } else if fb == 4 {
    } else {
    }
  }

  /** Two registers whose first byte is the same. */
  lemma SameFirstByte(b0: bv8, b1: bv8, fr: nat, fq: nat, v: bv8)
    requires (fr == 0 && fq == 6) || (fr == 6 && fq == 0)
    requires v < 64
    ensures Cell(Low(b0, fr, v), High(b1, fr, v), fq) == Cell(b0, b1, fq)
  {
    if fr == 0 {
    } else {
    }
  }

  predicate Consecutive(f: nat, g: nat) {
    (f == 0 && g == 4) || (f == 6 && g == 4) || (f == 4 && g == 2) || (f == 2 && g == 0) || (f == 2 && g == 6)
  }

  /** A register that starts in the byte where another may spill over. */
  lemma NextByte(b0: bv8, b1: bv8, fr: nat, fq: nat, v: bv8)
    requires Consecutive(fr, fq) && v < 64
    ensures Cell(High(b0, fr, v), b1, fq) == Cell(b0, b1, fq)
    ensures Cell(b0, Low(b1, fq, v), fr) == Cell(b0, b1, fr)
  {
    if fr == 0 {
    } else if fr == 6 {
    } else if fr == 4 {
    } else if fq == 0 {
    } else {
    }
  }

  // ----- The register array ---------------------------------------------------------------------

  function First(r: nat): nat {
    r * 6 / 8
  }

  function Offset(r: nat): nat {
    r * 6 % 8
  }

  /** Four registers share three bytes. */
  lemma Layout(r: nat)
    ensures First(r) == 3 * (r / 4) + (match r % 4 case 0 => 0 case 1 => 0 case 2 => 1 case _ => 2)
    ensures Offset(r) == (match r % 4 case 0 => 0 case 1 => 6 case 2 => 4 case _ => 2)
    ensures Aligned(Offset(r))
    ensures r < REGISTERS ==> First(r) < REG_BYTES && (First(r) + 1 == REG_BYTES ==> Offset(r) == 2)
  {
  }

  /** Which registers can meet in a byte. */
  lemma Meet(r: nat, q: nat)
    requires r != q
    ensures First(r) == First(q) ==>
              (Offset(r) == 0 && Offset(q) == 6) || (Offset(r) == 6 && Offset(q) == 0)
    ensures First(q) == First(r) + 1 ==> Consecutive(Offset(r), Offset(q))
  {
    Layout(r);
    Layout(q);
    hide First, Offset;
  }

  predicate Packed(regs: Blob) {
    |regs| == REG_BYTES
  }

  function Byte(regs: Blob, b: nat): bv8 {
    if b < |regs| then regs[b] else 0
  }

  function GetRegister(regs: Blob, r: nat): (v: bv8)
    requires Packed(regs) && r < REGISTERS
    ensures v < 64
  {
    Layout(r);
    Cell(Byte(regs, First(r)), Byte(regs, First(r) + 1), Offset(r))
  }

  function SetRegister(regs: Blob, r: nat, v: bv8): (out: Blob)
    requires Packed(regs) && r < REGISTERS
    ensures Packed(out)
  {
    Layout(r);
    var b, fb := First(r), Offset(r);
    var low := regs[b := Low(regs[b], fb, v)];
    if b + 1 < |regs| then low[b + 1 := High(regs[b + 1], fb, v)] else low
  }

  /** Writing a register reads back, and leaves every other register intact. */
  lemma SetThenGet(regs: Blob, r: nat, v: bv8, q: nat)
    requires Packed(regs) && r < REGISTERS && q < REGISTERS && v < 64
    ensures GetRegister(SetRegister(regs, r, v), q) == if q == r then v else GetRegister(regs, q)
  {
    Layout(r);
    Layout(q);
    if q != r {
      Meet(r, q);
      Meet(q, r);
    }
    var b, c, fr, fq := First(r), First(q), Offset(r), Offset(q);
    hide First, Offset, Cell, Low, High;
    if q == r {
      CellReadsBack(regs[b], Byte(regs, b + 1), fr, v);
    } else if b == c {
      SameFirstByte(regs[b], Byte(regs, b + 1), fr, fq, v);
    } else if c == b + 1 {
      NextByte(regs[c], Byte(regs, c + 1), fr, fq, v);
    } else if b == c + 1 {
      NextByte(regs[c], regs[b], fq, fr, v);
    }
  }

  /** Register r is bits 6r to 6r + 5 of the bytes, the least significant bit of each byte first. */
  lemma RegisterBits(regs: Blob, r: nat, j: nat)
    requires Packed(regs) && r < REGISTERS && j < 6
    ensures (6 * r + j) / 8 < |regs|
    ensures (GetRegister(regs, r) >> j) & 1 == (regs[(6 * r + j) / 8] >> ((6 * r + j) % 8)) & 1
  {
    Layout(r);
    var b, fb := First(r), Offset(r);
    assert 6 * r + j == 8 * b + fb + j;
    CellBits(regs[b], Byte(regs, b + 1), fb, j);
  }

  lemma CellBits(b0: bv8, b1: bv8, fb: nat, j: nat)
    requires Aligned(fb) && j < 6
    ensures (Cell(b0, b1, fb) >> j) & 1 == if fb + j < 8 then (b0 >> (fb + j)) & 1 else (b1 >> (fb + j - 8)) & 1
  {
    hide Cell;
    match fb
    case 0 => CellBitsAt(b0, b1, 0, j);
    case 2 => CellBitsAt(b0, b1, 2, j);
    case 4 => CellBitsAt(b0, b1, 4, j);
    case _ => CellBitsAt(b0, b1, 6, j);
  }

  lemma CellBitsAt(b0: bv8, b1: bv8, fb: nat, j: nat)
    requires Aligned(fb) && j < 6
    ensures (Cell(b0, b1, fb) >> j) & 1 == if fb + j < 8 then (b0 >> (fb + j)) & 1 else (b1 >> (fb + j - 8)) & 1
  {
    match j
    case 0 =>
    case 1 =>
    case 2 =>
    case 3 =>
    case 4 =>
    case _ =>
  }

  /** All registers, in order. */
  function Unpack(regs: Blob): (v: seq<bv8>)
    requires Packed(regs)
    ensures |v| == REGISTERS && forall r :: 0 <= r < REGISTERS ==> v[r] == GetRegister(regs, r) < 64
  {
    seq(REGISTERS, r requires 0 <= r < REGISTERS => GetRegister(regs, r))
  }

  lemma SetIsUpdate(regs: Blob, r: nat, v: bv8)
    requires Packed(regs) && r < REGISTERS && v < 64
    ensures Unpack(SetRegister(regs, r, v)) == Unpack(regs)[r := v]
  {
    forall q | 0 <= q < REGISTERS ensures Unpack(SetRegister(regs, r, v))[q] == Unpack(regs)[r := v][q] {
      SetThenGet(regs, r, v, q);
    }
  }

  predicate SixBits(v: seq<bv8>) {
    |v| == REGISTERS && forall r :: 0 <= r < REGISTERS ==> v[r] < 64
  }

  // The three bytes of four registers.
  function Join0(a: bv8, b: bv8): bv8 { a | (b << 6) }

  function Join1(b: bv8, c: bv8): bv8 { (b >> 2) | (c << 4) }

  function Join2(c: bv8, d: bv8): bv8 { (c >> 4) | (d << 2) }

  function PackByte(v: seq<bv8>, b: nat): bv8
    requires |v| == REGISTERS && b < REG_BYTES
  {
    var g := 4 * (b / 3);
    match b % 3
    case 0 => Join0(v[g], v[g + 1])
    case 1 => Join1(v[g + 1], v[g + 2])
    case _ => Join2(v[g + 2], v[g + 3])
  }

  function Pack(v: seq<bv8>): (regs: Blob)
    requires |v| == REGISTERS
    ensures Packed(regs)
  {
    seq(REG_BYTES, b requires 0 <= b < REG_BYTES => PackByte(v, b))
  }

  lemma PackedCells(a: bv8, b: bv8, c: bv8, d: bv8, next: bv8)
    requires a < 64 && b < 64 && c < 64 && d < 64
    ensures Cell(Join0(a, b), Join1(b, c), 0) == a && Cell(Join0(a, b), Join1(b, c), 6) == b
    ensures Cell(Join1(b, c), Join2(c, d), 4) == c
    ensures Cell(Join2(c, d), next, 2) == d
  {
  }

  /** The four registers of a group, in terms of its three bytes. */
  lemma Group(regs: Blob, j: nat)
    requires Packed(regs) && j < REG_BYTES / 3
    ensures var x, y, z := regs[3 * j], regs[3 * j + 1], regs[3 * j + 2];
            && GetRegister(regs, 4 * j) == Cell(x, y, 0)
            && GetRegister(regs, 4 * j + 1) == Cell(x, y, 6)
            && GetRegister(regs, 4 * j + 2) == Cell(y, z, 4)
            && GetRegister(regs, 4 * j + 3) == Cell(z, Byte(regs, 3 * j + 3), 2)
  {
    Layout(4 * j);
    Layout(4 * j + 1);
    Layout(4 * j + 2);
    Layout(4 * j + 3);
    hide Cell, First, Offset;
  }

  lemma GetOfPack(v: seq<bv8>, r: nat)
    requires SixBits(v) && r < REGISTERS
    ensures GetRegister(Pack(v), r) == v[r]
  {
    hide Cell, GetRegister, Join0, Join1, Join2;
    var j := r / 4;
    Group(Pack(v), j);
    PackedGroup(v, j);
    PackedCells(v[4 * j], v[4 * j + 1], v[4 * j + 2], v[4 * j + 3], Byte(Pack(v), 3 * j + 3));
    assert r == 4 * j || r == 4 * j + 1 || r == 4 * j + 2 || r == 4 * j + 3;
  }

  lemma PackedGroup(v: seq<bv8>, j: nat)
    requires |v| == REGISTERS && j < REG_BYTES / 3
    ensures Pack(v)[3 * j] == Join0(v[4 * j], v[4 * j + 1])
    ensures Pack(v)[3 * j + 1] == Join1(v[4 * j + 1], v[4 * j + 2])
    ensures Pack(v)[3 * j + 2] == Join2(v[4 * j + 2], v[4 * j + 3])
  {
    hide Join0, Join1, Join2;
    assert Pack(v)[3 * j] == PackByte(v, 3 * j);
    assert Pack(v)[3 * j + 1] == PackByte(v, 3 * j + 1);
    assert Pack(v)[3 * j + 2] == PackByte(v, 3 * j + 2);
  }

  lemma RepackedBytes(x: bv8, y: bv8, z: bv8, next: bv8)
    ensures Join0(Cell(x, y, 0), Cell(x, y, 6)) == x
    ensures Join1(Cell(x, y, 6), Cell(y, z, 4)) == y
    ensures Join2(Cell(y, z, 4), Cell(z, next, 2)) == z
  {
  }

  lemma PackOfGet(regs: Blob, b: nat)
    requires Packed(regs) && b < REG_BYTES
    ensures Pack(Unpack(regs))[b] == regs[b]
  {
    hide Cell, GetRegister, Join0, Join1, Join2;
    var j := b / 3;
    Group(regs, j);
    PackedGroup(Unpack(regs), j);
    RepackedBytes(regs[3 * j], regs[3 * j + 1], regs[3 * j + 2], Byte(regs, 3 * j + 3));
    assert b == 3 * j || b == 3 * j + 1 || b == 3 * j + 2;
  }

  /** 12288 bytes and 16384 six-bit registers are the same thing. */
  lemma PackingIsBijective(regs: Blob, v: seq<bv8>)
    ensures Packed(regs) ==> SixBits(Unpack(regs)) && Pack(Unpack(regs)) == regs
    ensures SixBits(v) ==> Unpack(Pack(v)) == v
  {
    if Packed(regs) {
      forall b | 0 <= b < REG_BYTES ensures Pack(Unpack(regs))[b] == regs[b] {
        PackOfGet(regs, b);
      }
    }
    if SixBits(v) {
      forall r | 0 <= r < REGISTERS ensures Unpack(Pack(v))[r] == v[r] {
        GetOfPack(v, r);
      }
    }
  }

  // ----- Pattern length -------------------------------------------------------------------------

  function Index(h: uint64): (i: nat)
    ensures i < REGISTERS
  {
    h as int % REGISTERS
  }

  /** The hash without its register index. */
  function Upper(h: uint64): nat {
    h as nat / REGISTERS
  }

  /** The hash is its upper fifty bits followed by the fourteen of the register index. */
  lemma HashIsUpperThenIndex(h: uint64)
    ensures h as nat == 16384 * Upper(h) + Index(h) && Index(h) < 16384
  {
  }

  /** Bit by bit: bit k of the index is bit k of the hash, bit k of the upper part is bit k + 14. */
  lemma HashBits(h: uint64, k: nat)
    ensures k < 14 ==> BitOf(Index(h), k) == BitOf(h as nat, k)
    ensures BitOf(Upper(h), k) == BitOf(h as nat, k + 14)
  {
    assert Pow2(14) == 16384;
    UpperBits(h as nat, 14, Upper(h), Index(h), k);
    if k < 14 {
      Pow2Adds(14 - k, k);
      Doubles(14 - k);
      hide Pow2, HasBit;
      LowBit(Index(h), Upper(h), Pow2(k), Pow2(13 - k), 16384);
    }
  }

  /** What is added above a bit leaves it alone. */
  lemma LowBit(i: nat, u: nat, p: nat, c: nat, q: nat)
    requires p > 0 && q == 2 * c * p
    ensures HasBit(q * u + i, p) == HasBit(i, p)
  {
    var m := 2 * (u * c);
    assert q * u == m * p;
    BitOfSum(i, p, m, q * u);
  }

  /** The bits of a quotient by a power of two are the upper bits. */
  lemma {:induction false} UpperBits(x: nat, n: nat, q: nat, r: nat, k: nat)
    requires r < Pow2(n) && x == Pow2(n) * q + r
    ensures BitOf(q, k) == BitOf(x, k + n)
    decreases n
  {
    Doubles(n);
    hide Pow2, HasBit;
    if n > 0 {
      var half := Pow2(n - 1) * q;
      assert x == 2 * half + r;
      HalfBits(x, k + n - 1);
      UpperBits(x / 2, n - 1, q, r / 2, k);
    }
  }

  /** One plus the number of clear bits from bit 14 up, at most 51. */
  ghost function PatLen(h: uint64): (n: nat)
    ensures 1 <= n <= HLL_Q + 1
    ensures forall k :: 0 <= k < n - 1 ==> !BitOf(Upper(h), k)
    ensures n == HLL_Q + 1 || BitOf(Upper(h), n - 1)
  {
    FirstSet(Upper(h), 0) + 1
  }

  ghost function FirstSet(x: nat, k: nat): (n: nat)
    requires k <= HLL_Q
    ensures k <= n <= HLL_Q
    ensures forall j :: k <= j < n ==> !BitOf(x, j)
    ensures n == HLL_Q || BitOf(x, n)
    decreases HLL_Q - k
  {
    if k == HLL_Q || BitOf(x, k) then k else FirstSet(x, k + 1)
  }

  lemma FiftyBits(h: uint64)
    ensures Upper(h) < Pow2(HLL_Q)
  {
    Pow2Of64();
    assert Pow2(14) == 16384;
    Pow2Adds(14, 50);
  }

  /** The loop over the sentinel-bounded hash. */
  method HllPatLen(h: uint64) returns (patlen: nat, index: nat)
    ensures patlen == PatLen(h) && index == Index(h)
    ensures 1 <= patlen <= 51
  {
    index := h as int % REGISTERS;
    ghost var x := Upper(h);
    FiftyBits(h);
    hide Pow2, HasBit;
    Doubles(0);
    var hash := h as nat / REGISTERS + Pow2(HLL_Q);
    var bit := 1;
    patlen := 1;
    TopBit(x, HLL_Q, 0);
    while !HasBit(hash, bit)
      invariant 1 <= patlen <= HLL_Q + 1 && bit == Pow2(patlen - 1)
      invariant HasBit(hash, bit) <==> patlen == HLL_Q + 1 || BitOf(x, patlen - 1)
      invariant FirstSet(x, 0) == FirstSet(x, patlen - 1)
      decreases HLL_Q + 1 - patlen
    {
      Doubles(patlen);
      patlen := patlen + 1;
      bit := bit * 2;
      TopBit(x, HLL_Q, patlen - 1);
    }
  }

  // ----- Adding and merging ---------------------------------------------------------------------

  type Hash = Bytes -> uint64

  /** The pattern length of an element as a register value. */
  ghost function Rank(hash: Hash, e: Bytes): (v: bv8)
    ensures 0 < v < 64
  {
    OctetOrder(ToOctet(PatLen(hash(e))), 64);
    OctetOrder(0, ToOctet(PatLen(hash(e))));
    ToOctet(PatLen(hash(e)))
  }

  /** The registers with one of them raised to at least a value. */
  function Raise(v: seq<bv8>, r: nat, x: bv8): seq<bv8>
    requires r < |v|
  {
    if x > v[r] then v[r := x] else v
  }

  function Larger(x: bv8, y: bv8): bv8 {
    if y > x then y else x
  }

  function MergeOf(v: seq<bv8>, w: seq<bv8>): (m: seq<bv8>)
    requires |v| == |w|
    ensures |m| == |v| && forall r :: 0 <= r < |v| ==> m[r] == Larger(v[r], w[r])
  {
    seq(|v|, r requires 0 <= r < |v| => Larger(v[r], w[r]))
  }

  method DenseSetRegister(regs: array<bv8>, r: nat, v: bv8)
    requires regs.Length == REG_BYTES && r < REGISTERS
    modifies regs
    ensures regs[..] == SetRegister(old(regs[..]), r, v)
  {
    Layout(r);
    ghost var was := regs[..];
    var b, fb := r * 6 / 8, r * 6 % 8;
    assert b == First(r) && fb == Offset(r);
    regs[b] := Low(regs[b], fb, v);
    assert regs[..] == was[b := Low(was[b], fb, v)];
    if b + 1 < regs.Length {
      regs[b + 1] := High(regs[b + 1], fb, v);
    }
  }

  method DenseGetRegister(regs: array<bv8>, r: nat) returns (v: bv8)
    requires regs.Length == REG_BYTES && r < REGISTERS
    ensures v == GetRegister(regs[..], r)
  {
    Layout(r);
    var b, fb := r * 6 / 8, r * 6 % 8;
    var b1: bv8 := 0;
    if b + 1 < regs.Length {
      b1 := regs[b + 1];
    }
    v := Cell(regs[b], b1, fb);
  }

  method HllAdd(regs: array<bv8>, hash: Hash, e: Bytes) returns (grew: bool)
    requires regs.Length == REG_BYTES
    modifies regs
    ensures var v := Unpack(old(regs[..]));
            && Unpack(regs[..]) == Raise(v, Index(hash(e)), Rank(hash, e))
            && grew == (Rank(hash, e) > v[Index(hash(e))])
  {
    hide PatLen, Index, GetRegister, SetRegister, ToOctet;
    var patlen, index := HllPatLen(hash(e));
    var cur := DenseGetRegister(regs, index);
    OctetOrder(cur, ToOctet(patlen));
    grew := patlen > cur as nat;
    if grew {
      SetIsUpdate(regs[..], index, ToOctet(patlen));
      DenseSetRegister(regs, index, ToOctet(patlen));
    }
  }

  /** The merge has reached register i. */
  predicate MergedUpTo(now: seq<bv8>, v: seq<bv8>, w: seq<bv8>, i: nat)
    requires |now| == |v| == |w|
  {
    forall r :: 0 <= r < |v| ==> now[r] == if r < i then MergeOf(v, w)[r] else v[r]
  }

  method HllMergeInto(dst: array<bv8>, src: Blob)
    requires dst.Length == REG_BYTES && Packed(src)
    modifies dst
    ensures Unpack(dst[..]) == MergeOf(Unpack(old(dst[..])), Unpack(src))
  {
    hide SetRegister, GetRegister, MergeOf;
    ghost var v, w := Unpack(dst[..]), Unpack(src);
    for i := 0 to REGISTERS
      invariant MergedUpTo(Unpack(dst[..]), v, w, i)
    {
      var d := DenseGetRegister(dst, i);
      var s := GetRegister(src, i);
      if s > d {
        SetIsUpdate(dst[..], i, s);
        DenseSetRegister(dst, i, s);
      }
    }
  }

  // ----- Registers summarise sets ---------------------------------------------------------------

  /** Each register holds the largest rank among the elements that hash to it, 0 if there is none. */
  ghost predicate Summarises(hash: Hash, v: seq<bv8>, elements: set<Bytes>) {
    && |v| == REGISTERS
    && (forall e :: e in elements ==> Rank(hash, e) <= v[Index(hash(e))])
    && (forall r :: 0 <= r < REGISTERS && v[r] != 0 ==>
          exists e :: e in elements && Index(hash(e)) == r && Rank(hash, e) == v[r])
  }

  /** The registers depend on the set of elements alone, not on their order or repetition. */
  lemma SummaryIsUnique(hash: Hash, v: seq<bv8>, w: seq<bv8>, elements: set<Bytes>)
    requires Summarises(hash, v, elements) && Summarises(hash, w, elements)
    ensures v == w
  {
  }

  lemma RaiseSummarises(hash: Hash, v: seq<bv8>, elements: set<Bytes>, e: Bytes)
    requires Summarises(hash, v, elements)
    ensures Summarises(hash, Raise(v, Index(hash(e)), Rank(hash, e)), elements + {e})
  {
    hide Rank, Index;
  }

  /** Merging the registers of two sets gives the registers of their union. */
  lemma MergeSummarisesUnion(hash: Hash, v: seq<bv8>, a: set<Bytes>, w: seq<bv8>, b: set<Bytes>)
    requires Summarises(hash, v, a) && Summarises(hash, w, b)
    ensures Summarises(hash, MergeOf(v, w), a + b)
  {
    hide Rank, Index;
  }

  lemma MergeCommutes(v: seq<bv8>, w: seq<bv8>)
    requires |v| == |w|
    ensures MergeOf(v, w) == MergeOf(w, v)
  {
  }

  lemma MergeAssociates(u: seq<bv8>, v: seq<bv8>, w: seq<bv8>)
    requires |u| == |v| == |w|
    ensures MergeOf(MergeOf(u, v), w) == MergeOf(u, MergeOf(v, w))
  {
    hide MergeOf, Larger;
    var left, right := MergeOf(MergeOf(u, v), w), MergeOf(u, MergeOf(v, w));
    forall r | 0 <= r < |u| ensures left[r] == right[r] {
      LargerAssociates(u[r], v[r], w[r]);
    }
  }

  lemma LargerAssociates(x: bv8, y: bv8, z: bv8)
    ensures Larger(Larger(x, y), z) == Larger(x, Larger(y, z))
  {
  }

  lemma MergeIdempotent(v: seq<bv8>)
    ensures MergeOf(v, v) == v
  {
  }
}
