/** The glob matcher behind KEYS and SCAN MATCH, against a token semantics of patterns. */
module Glob {
  import opened Prelude

  const STAR: byte := 42
  const DASH: byte := 45
  const QUESTION: byte := 63
  const OPEN: byte := 91
  const BACKSLASH: byte := 92
  const CLOSE: byte := 93
  const CARET: byte := 94

  // ----- Token semantics ------------------------------------------------------------------------

  /** A class member: one byte, or the bytes between two, in either order. */
  datatype Item = One(b: byte) | Range(a: byte, b: byte)

  datatype Token = Star | Any | Lit(b: byte) | Class(negate: bool, items: seq<Item>)

  predicate In(c: byte, item: Item) {
    match item
    case One(b) => c == b
    case Range(a, b) => a <= c <= b || b <= c <= a
  }

  predicate Hit(c: byte, items: seq<Item>) {
    exists i :: 0 <= i < |items| && In(c, items[i])
  }

  predicate Accepts(t: Token, c: byte) {
    match t
    case Star => false
    case Any => true
    case Lit(b) => c == b
    case Class(negate, items) => Hit(c, items) != negate
  }

  /** A star stands for any bytes, every other token for one accepted byte. */
  predicate Matches(ts: seq<Token>, s: Bytes) {
    if ts == [] then s == []
    else if ts[0].Star? then exists i :: 0 <= i <= |s| && Matches(ts[1..], s[i..])
    else s != [] && Accepts(ts[0], s[0]) && Matches(ts[1..], s[1..])
  }

  datatype Body = Body(items: seq<Item>, rest: Bytes)

  /**
   * The members of a class after its bracket and caret, and the pattern behind it. A class that is
   * never closed, or ends in a lone backslash, takes the rest of the pattern.
   */
  function ClassBody(p: Bytes): (r: Body)
    ensures |r.rest| <= |p|
  {
    if p == [] || (p[0] == BACKSLASH && |p| < 2) then Body([], [])
    else if p[0] == BACKSLASH then Add(One(p[1]), ClassBody(p[2..]))
    else if p[0] == CLOSE then Body([], p[1..])
    else if |p| >= 3 && p[1] == DASH then Add(Range(p[0], p[2]), ClassBody(p[3..]))
    else Add(One(p[0]), ClassBody(p[1..]))
  }

  function Add(item: Item, b: Body): Body {
    Body([item] + b.items, b.rest)
  }

  function ClassStart(p: Bytes): nat
    requires |p| > 0
    ensures 1 <= ClassStart(p) <= |p|
  {
    if |p| > 1 && p[1] == CARET then 2 else 1
  }

  function Tokens(p: Bytes): seq<Token>
    decreases |p|
  {
    if p == [] then []
    else if p[0] == STAR then [Star] + Tokens(p[1..])
    else if p[0] == QUESTION then [Any] + Tokens(p[1..])
    else if p[0] == OPEN then
      var body := ClassBody(p[ClassStart(p)..]);
      [Class(ClassStart(p) == 2, body.items)] + Tokens(body.rest)
    else if p[0] == BACKSLASH && |p| > 1 then [Lit(p[1])] + Tokens(p[2..])
    else [Lit(p[0])] + Tokens(p[1..])
  }

  // ----- Laws of the semantics ------------------------------------------------------------------

  lemma TrailingStar(s: Bytes)
    ensures Matches([Star], s)
  {
    assert Matches([Star][1..], s[|s|..]);
  }

  lemma StarToken(q: Bytes)
    requires q != [] && q[0] == STAR
    ensures Tokens(q) == [Star] + Tokens(q[1..])
  {
  }

  lemma NoTokens()
    ensures Tokens([]) == [] && [Star] + Tokens([]) == [Star]
  {
  }

  lemma StarsCollapse(ts: seq<Token>, s: Bytes)
    requires ts != [] && ts[0].Star?
    ensures Matches([Star] + ts, s) <==> Matches(ts, s)
  {
    assert ([Star] + ts)[1..] == ts;
    if Matches([Star] + ts, s) {
      var i :| 0 <= i <= |s| && Matches(ts, s[i..]);
      var j :| 0 <= j <= |s[i..]| && Matches(ts[1..], s[i..][j..]);
      assert s[i..][j..] == s[i + j..];
    }
    if Matches(ts, s) {
      assert s[0..] == s;
    }
  }

  /** Against the empty string only stars match. */
  lemma EmptyString(p: Bytes)
    ensures p == [] ==> Matches(Tokens(p), [])
    ensures p != [] && p[0] == STAR ==> Matches(Tokens(p), []) == Matches(Tokens(p[1..]), [])
    ensures p != [] && p[0] != STAR ==> !Matches(Tokens(p), [])
  {
    if p != [] && p[0] == STAR {
      var ts := Tokens(p);
      assert ts[1..] == Tokens(p[1..]);
      var empty: Bytes := [];
      assert empty[0..] == empty;
    }
  }

  lemma EndOfPattern(t: Bytes)
    ensures Matches(Tokens([]), t) <==> t == []
  {
  }

  /** One byte against a pattern that starts with anything but a star or a class. */
  lemma OneByte(q: Bytes, t: Bytes)
    requires q != [] && t != [] && q[0] != STAR && q[0] != OPEN
    ensures q[0] == QUESTION ==> Matches(Tokens(q), t) == Matches(Tokens(q[1..]), t[1..])
    ensures q[0] == BACKSLASH && |q| > 1 ==>
              Matches(Tokens(q), t) == (t[0] == q[1] && Matches(Tokens(q[2..]), t[1..]))
    ensures q[0] != QUESTION && (q[0] != BACKSLASH || |q| == 1) ==>
              Matches(Tokens(q), t) == (t[0] == q[0] && Matches(Tokens(q[1..]), t[1..]))
  {
  }

  /** One byte against a pattern that starts with a class. */
  lemma OneClass(q: Bytes, t: Bytes)
    requires q != [] && t != [] && q[0] == OPEN
    ensures var body := ClassBody(q[ClassStart(q)..]);
            Matches(Tokens(q), t) ==
            (Hit(t[0], body.items) != (ClassStart(q) == 2) && Matches(Tokens(body.rest), t[1..]))
  {
  }

  lemma HitAdd(c: byte, item: Item, b: Body)
    ensures Hit(c, Add(item, b).items) <==> In(c, item) || Hit(c, b.items)
  {
    var items := Add(item, b).items;
    if In(c, item) {
      assert In(c, items[0]);
    }
    if Hit(c, b.items) {
      var i :| 0 <= i < |b.items| && In(c, b.items[i]);
      assert items[i + 1] == b.items[i];
    }
  }

  /** Where a class scan ends, and what its next member adds. */
  lemma ClassNext(q: Bytes, c: byte)
    ensures q == [] || (q[0] == BACKSLASH && |q| < 2) ==> !Hit(c, ClassBody(q).items) && ClassBody(q).rest == []
    ensures q != [] && q[0] == CLOSE ==> !Hit(c, ClassBody(q).items) && ClassBody(q).rest == q[1..]
    ensures |q| >= 2 && q[0] == BACKSLASH ==>
              && (Hit(c, ClassBody(q).items) <==> c == q[1] || Hit(c, ClassBody(q[2..]).items))
              && ClassBody(q).rest == ClassBody(q[2..]).rest
    ensures |q| >= 3 && q[0] != BACKSLASH && q[0] != CLOSE && q[1] == DASH ==>
              && (Hit(c, ClassBody(q).items) <==> In(c, Range(q[0], q[2])) || Hit(c, ClassBody(q[3..]).items))
              && ClassBody(q).rest == ClassBody(q[3..]).rest
    ensures |q| >= 1 && q[0] != BACKSLASH && q[0] != CLOSE && !(|q| >= 3 && q[1] == DASH) ==>
              && (Hit(c, ClassBody(q).items) <==> c == q[0] || Hit(c, ClassBody(q[1..]).items))
              && ClassBody(q).rest == ClassBody(q[1..]).rest
  {
    if |q| >= 2 && q[0] == BACKSLASH {
      HitAdd(c, One(q[1]), ClassBody(q[2..]));
    } else if |q| >= 3 && q[0] != CLOSE && q[1] == DASH {
      HitAdd(c, Range(q[0], q[2]), ClassBody(q[3..]));
    } else if |q| >= 1 {
      HitAdd(c, One(q[0]), ClassBody(q[1..]));
    }
  }

  /** Scan a class from its first member: whether c is in it, and the index after it. */
  method ScanClass(pattern: Bytes, start: nat, c: byte) returns (found: bool, next: nat)
    requires start <= |pattern|
    ensures var body := ClassBody(pattern[start..]);
            && found == Hit(c, body.items)
            && start <= next <= |pattern|
            && pattern[next..] == body.rest
  {
    hide ClassBody, Hit;
    ghost var body := ClassBody(pattern[start..]);
    found := false;
    var p := start;
    while true
      invariant start <= p <= |pattern|
      invariant Hit(c, body.items) <==> found || Hit(c, ClassBody(pattern[p..]).items)
      invariant body.rest == ClassBody(pattern[p..]).rest
      decreases |pattern| - p
    {
      ghost var q, at := pattern[p..], p;
      ClassNext(q, c);
      if p >= |pattern| {
        p := p - 1;
        break;
      }
      if pattern[p] == BACKSLASH {
        if |pattern| - p < 2 {
          break;
        }
        p := p + 1;
        if pattern[p] == c {
          found := true;
        }
      } else if pattern[p] == CLOSE {
        break;
      } else if |pattern| - p >= 3 && pattern[p + 1] == DASH {
        var lo, hi := pattern[p], pattern[p + 2];
        if lo > hi {
          lo, hi := hi, lo;
        }
        p := p + 2;
        if c >= lo && c <= hi {
          found := true;
        }
      } else {
        if pattern[p] == c {
          found := true;
        }
      }
      p := p + 1;
      assert q[p - at..] == pattern[p..];
    }
    next := p + 1;
  }

  /** The recursion at a star: the rest of the pattern against every suffix. */
  method MatchStar(rest: Bytes, str: Bytes) returns (r: bool)
    ensures r == Matches([Star] + Tokens(rest), str)
    decreases |rest|, 1
  {
    assert ([Star] + Tokens(rest))[1..] == Tokens(rest);
    for i := 0 to |str| + 1
      invariant forall j :: 0 <= j < i ==> !Matches(Tokens(rest), str[j..])
    {
      var found := StringMatchLen(rest, str[i..]);
      if found {
        return true;
      }
    }
    return false;
  }

  /** Collapse a run of stars into its last one. */
  method LastStar(pattern: Bytes, start: nat, ghost t: Bytes) returns (p: nat)
    requires start < |pattern| && pattern[start] == STAR
    ensures start <= p < |pattern| && pattern[p] == STAR
    ensures Matches(Tokens(pattern[start..]), t) == Matches([Star] + Tokens(pattern[p + 1..]), t)
    ensures p + 1 < |pattern| || Matches(Tokens(pattern[start..]), t)
  {
    hide Matches, Tokens;
    p := start;
    StarToken(pattern[p..]);
    assert pattern[p..][1..] == pattern[p + 1..];
    while p + 1 < |pattern| && pattern[p + 1] == STAR
      invariant start <= p < |pattern| && pattern[p] == STAR
      invariant Matches(Tokens(pattern[start..]), t) == Matches([Star] + Tokens(pattern[p + 1..]), t)
    {
      StarToken(pattern[p + 1..]);
      assert pattern[p + 1..][1..] == pattern[p + 2..];
      StarsCollapse(Tokens(pattern[p + 1..]), t);
      p := p + 1;
    }
    if p + 1 == |pattern| {
      assert pattern[p + 1..] == [];
      NoTokens();
      TrailingStar(t);
    }
  }

  /** The matcher decides the token semantics for every pattern and string, and terminates. */
  method StringMatchLen(pattern: Bytes, str: Bytes) returns (r: bool)
    ensures r == Matches(Tokens(pattern), str)
    decreases |pattern|, 0
  {
    hide Matches, Tokens, ClassBody, Hit;
    var p, s := 0, 0;
    ghost var goal := Matches(Tokens(pattern), str);
    assert pattern[0..] == pattern && str[0..] == str;
    while p < |pattern| && s < |str|
      invariant 0 <= p <= |pattern| && 0 <= s <= |str|
      invariant goal == Matches(Tokens(pattern[p..]), str[s..])
    {
      ghost var q, t, at := pattern[p..], str[s..], p;
      if pattern[p] == STAR {
        p := LastStar(pattern, p, t);
        if p + 1 == |pattern| {
          return true;
        }
        r := MatchStar(pattern[p + 1..], str[s..]);
        return;
      } else if pattern[p] == OPEN {
        OneClass(q, t);
        var negate := false;
        p := p + 1;
        if p < |pattern| && pattern[p] == CARET {
          negate := true;
          p := p + 1;
        }
        assert q[p - at..] == pattern[p..];
        var found, next := ScanClass(pattern, p, str[s]);
        if negate {
          found := !found;
        }
        if !found {
          return false;
        }
        s := s + 1;
        p := next;
      } else {
        OneByte(q, t);
        if pattern[p] == QUESTION {
          s := s + 1;
        } else {
          if pattern[p] == BACKSLASH && p + 1 < |pattern| {
            p := p + 1;
          }
          if pattern[p] != str[s] {
            return false;
          }
          s := s + 1;
        }
        p := p + 1;
        assert q[p - at..] == pattern[p..];
      }
      assert t[1..] == str[s..];
      if s == |str| {
        p := SkipStars(pattern, p);
        break;
      }
    }
    p := SkipStars(pattern, p);
    assert s == |str| ==> str[s..] == [];
    assert p == |pattern| ==> pattern[p..] == [];
    EmptyString(pattern[p..]);
    EndOfPattern(str[s..]);
    return p == |pattern| && s == |str|;
  }

  /** Skip stars, which match the empty remainder. */
  method SkipStars(pattern: Bytes, start: nat) returns (p: nat)
    requires start <= |pattern|
    ensures start <= p <= |pattern|
    ensures p < |pattern| ==> pattern[p] != STAR
    ensures Matches(Tokens(pattern[p..]), []) == Matches(Tokens(pattern[start..]), [])
    ensures start == |pattern| ==> p == start
  {
    p := start;
    while p < |pattern| && pattern[p] == STAR
      invariant start <= p <= |pattern|
      invariant Matches(Tokens(pattern[p..]), []) == Matches(Tokens(pattern[start..]), [])
    {
      EmptyString(pattern[p..]);
      assert pattern[p..][1..] == pattern[p + 1..];
      p := p + 1;
    }
  }

  // ----- Escaping -------------------------------------------------------------------------------

  predicate Special(b: byte) {
    b == STAR || b == QUESTION || b == OPEN || b == BACKSLASH
  }

  function Escape(s: Bytes): Bytes {
    if s == [] then [] else (if Special(s[0]) then [BACKSLASH, s[0]] else [s[0]]) + Escape(s[1..])
  }

  /** An escaped string is a pattern that matches that string and nothing else. */
  lemma {:induction false} EscapedMatchesOnlyItself(s: Bytes, t: Bytes)
    ensures Matches(Tokens(Escape(s)), t) <==> t == s
  {
    if s != [] {
      var p := Escape(s);
      var rest := Escape(s[1..]);
      assert p[if Special(s[0]) then 2 else 1..] == rest;
      assert Tokens(p) == [Lit(s[0])] + Tokens(rest);
      assert Tokens(p)[1..] == Tokens(rest);
      if t != [] {
        EscapedMatchesOnlyItself(s[1..], t[1..]);
        assert t == [t[0]] + t[1..] && s == [s[0]] + s[1..];
      }
    }
  }
}
