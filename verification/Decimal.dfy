/** Canonical decimal text: what strconv renders and what the strict integer parser accepts. */
module Decimal {
  import opened Prelude

  const MINUS: byte := 45
  const ZERO: byte := 48
  const NINE: byte := 57

  predicate IsDigit(b: byte) {
    ZERO <= b <= NINE
  }

  predicate AllDigits(b: Bytes) {
    forall i :: 0 <= i < |b| ==> IsDigit(b[i])
  }

  /** The decimal rendering of a natural number, without leading zeros. */
  function Digits(n: nat): (b: Bytes)
    ensures |b| > 0 && AllDigits(b)
    ensures b[0] == ZERO ==> n == 0 && b == [ZERO]
  {
    if n < 10 then [ZERO + n as byte] else Digits(n / 10) + [ZERO + (n % 10) as byte]
  }

  /** The decimal rendering of any integer. */
  function Render(n: int): (b: Bytes)
    ensures |b| > 0
  {
    if n < 0 then [MINUS] + Digits(-n) else Digits(n)
  }

  /** The number a digit string denotes, most significant digit first. */
  function Value(b: Bytes): nat
    requires AllDigits(b)
  {
    if |b| == 0 then 0 else 10 * Value(b[..|b| - 1]) + (b[|b| - 1] - ZERO) as nat
  }

  lemma {:induction false} ValueOfDigits(n: nat)
    ensures Value(Digits(n)) == n
  {
    if n >= 10 {
      var b := Digits(n);
      assert b[..|b| - 1] == Digits(n / 10);
      ValueOfDigits(n / 10);
    }
  }

  lemma {:induction false} DigitsOfValue(b: Bytes)
    requires |b| > 0 && AllDigits(b) && (b[0] == ZERO ==> |b| == 1)
    ensures Digits(Value(b)) == b
    ensures b[0] != ZERO ==> Value(b) > 0
  {
    var init := b[..|b| - 1];
    if |b| == 1 {
      assert Value(init) == 0;
    } else {
      assert init[0] == b[0];
      DigitsOfValue(init);
      assert b == init + [b[|b| - 1]];
    }
  }

  lemma {:induction false} ValueOfPrefix(b: Bytes, i: nat)
    requires i <= |b| && AllDigits(b)
    ensures Value(b[..i]) <= Value(b)
    decreases |b|
  {
    if i < |b| {
      var init := b[..|b| - 1];
      ValueOfPrefix(init, i);
      assert init[..i] == b[..i];
    } else {
      assert b[..i] == b;
    }
  }

  /** The shape the parser accepts: an optional minus, then digits without a leading zero. */
  predicate Canonical(arg: Bytes) {
    var s := Sign(arg);
    && |arg| > s
    && AllDigits(arg[s..])
    && (arg[s] == ZERO ==> arg == [ZERO])
  }

  /** The length of the sign. */
  function Sign(arg: Bytes): nat {
    if |arg| > 0 && arg[0] == MINUS then 1 else 0
  }

  function Signed(arg: Bytes): int
    requires Canonical(arg)
  {
    var magnitude: int := Value(arg[Sign(arg)..]);
    if Sign(arg) == 1 then -magnitude else magnitude
  }

  lemma RenderOfSigned(arg: Bytes)
    requires Canonical(arg)
    ensures Render(Signed(arg)) == arg
  {
    if Sign(arg) == 1 {
      DigitsOfValue(arg[1..]);
      assert arg == [MINUS] + arg[1..];
    } else {
      assert arg[0..] == arg;
      DigitsOfValue(arg);
    }
  }

  lemma SignedOfRender(n: int)
    ensures Canonical(Render(n)) && Signed(Render(n)) == n
  {
    var b := Render(n);
    if n < 0 {
      assert b[1..] == Digits(-n);
      ValueOfDigits(-n);
    } else {
      assert b[0..] == Digits(n);
      ValueOfDigits(n);
    }
  }

  lemma RenderInjective(m: int, n: int)
    requires Render(m) == Render(n)
    ensures m == n
  {
    SignedOfRender(m);
    SignedOfRender(n);
  }

  /** "0", "7", "-120" and "1020", most significant digit first. */
  lemma RenderExamples()
    ensures Render(0) == [48] && Render(7) == [55] && Render(-120) == [45, 49, 50, 48]
    ensures Render(1020) == [49, 48, 50, 48]
  {
  }

  /** The int64 a token denotes, if it denotes one. */
  function IntOf(arg: Bytes): Option<int> {
    if Canonical(arg) && InInt64(Signed(arg)) then Some(Signed(arg)) else None
  }

  /** A token denotes v exactly when it is the canonical rendering of v and v fits int64. */
  lemma IntOfIsExact(arg: Bytes, v: int)
    ensures IntOf(arg) == Some(v) <==> InInt64(v) && Render(v) == arg
  {
    SignedOfRender(v);
    if Canonical(arg) {
      RenderOfSigned(arg);
    }
  }

  /** The uint64 guard fires exactly when the next accumulator value would leave uint64. */
  lemma GuardIsExact(v: nat, d: nat)
    requires d <= 9
    ensures v > (MAX_UINT64 - d) / 10 <==> v * 10 + d > MAX_UINT64
  {
  }

  /** One more digit: what the accumulator becomes, and that an overflow settles the answer. */
  lemma Accumulate(arg: Bytes, i: nat)
    requires Sign(arg) < i < |arg| && AllDigits(arg[Sign(arg)..i]) && IsDigit(arg[i])
    ensures AllDigits(arg[Sign(arg)..i + 1])
    ensures var v := 10 * Value(arg[Sign(arg)..i]) + (arg[i] - ZERO) as int;
            && Value(arg[Sign(arg)..i + 1]) == v
            && (v > MAX_UINT64 ==> IntOf(arg) == None)
  {
    var s := Sign(arg);
    var longer := arg[s..i + 1];
    assert longer == arg[s..i] + [arg[i]];
    assert longer[..|longer| - 1] == arg[s..i];
    assert AllDigits(longer) by {
      forall j | 0 <= j < |longer| ensures IsDigit(longer[j]) {
        assert j < i - s ==> longer[j] == arg[s..i][j];
      }
    }
    if Canonical(arg) {
      ValueOfPrefix(arg[s..], i + 1 - s);
      assert arg[s..][..i + 1 - s] == longer;
    }
  }

  lemma StrayByte(arg: Bytes, i: nat)
    requires Sign(arg) <= i < |arg| && !IsDigit(arg[i])
    ensures IntOf(arg) == None
  {
  }

  lemma OneDigit(b: byte)
    requires IsDigit(b)
    ensures AllDigits([b]) && Value([b]) == (b - ZERO) as int
  {
  }

  lemma WholeToken(arg: Bytes)
    requires |arg| > Sign(arg) && arg[Sign(arg)] != ZERO && AllDigits(arg[Sign(arg)..|arg|])
    ensures Canonical(arg)
    ensures var digits := arg[Sign(arg)..|arg|];
            Signed(arg) == (if Sign(arg) == 1 then -(Value(digits) as int) else Value(digits))
  {
    assert arg[Sign(arg)..|arg|] == arg[Sign(arg)..];
  }

  /**
   * The strict parser of integer arguments, with its uint64 accumulator: it answers v exactly for
   * the int64 values v whose canonical rendering is the argument.
   */
  method ParseInt(arg: Bytes) returns (r: Option<int>)
    ensures r == IntOf(arg)
  {
    var n := |arg|;
    if n == 0 {
      return None;
    }
    if n == 1 && arg[0] == ZERO {
      OneDigit(ZERO);
      assert arg == [ZERO] && arg[0..] == arg;
      return Some(0);
    }
    var i := 0;
    var negative := false;
    if arg[0] == MINUS {
      negative := true;
      i := 1;
      if i == n {
        return None;
      }
    }
    ghost var s := Sign(arg);
    if arg[i] <= ZERO || arg[i] > NINE {
      if arg[i] != ZERO {
        StrayByte(arg, i);
      }
      return None;
    }

    var v: int := (arg[i] - ZERO) as int;
    OneDigit(arg[i]);
    i := i + 1;
    assert arg[s..i] == [arg[s]];
    while i < n
      invariant s < i <= n
      invariant AllDigits(arg[s..i])
      invariant v == Value(arg[s..i]) <= MAX_UINT64
    {
      var c := arg[i];
      if c < ZERO || c > NINE {
        StrayByte(arg, i);
        return None;
      }
      var d := (c - ZERO) as int;
      GuardIsExact(v, d);
      Accumulate(arg, i);
      if v > (MAX_UINT64 - d) / 10 {
        return None;
      }
      v := v * 10 + d;
      i := i + 1;
    }
    WholeToken(arg);
    if negative {
      return if v > MAX_INT64 + 1 then None else Some(-v);
    }
    return if v > MAX_INT64 then None else Some(v);
  }
}
