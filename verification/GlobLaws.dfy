/** What glob patterns mean, told by patterns a user would write and without the token semantics. */
module GlobLaws {
  import opened Prelude
  import opened Glob

  // ----- Special bytes --------------------------------------------------------------------------

  /** The bytes with a meaning in patterns. */
  lemma SpecialBytes()
    ensures STAR as int == '*' as int && QUESTION as int == '?' as int
    ensures OPEN as int == '[' as int && CLOSE as int == ']' as int && CARET as int == '^' as int
    ensures DASH as int == '-' as int && BACKSLASH as int == '\\' as int
  {
  }

  // ----- Token sequences ------------------------------------------------------------------------

  /** A pattern in two parts matches a string that splits accordingly. */
  ghost predicate SplitsInto(ts: seq<Token>, us: seq<Token>, s: Bytes) {
    exists i :: 0 <= i <= |s| && Matches(ts, s[..i]) && Matches(us, s[i..])
  }

  lemma {:induction false} MatchesConcat(ts: seq<Token>, us: seq<Token>, s: Bytes)
    ensures Matches(ts + us, s) <==> SplitsInto(ts, us, s)
    decreases |ts|, 1
  {
    if ts == [] {
      assert ts + us == us && s[..0] == [] && s[0..] == s;
    } else {
      assert (ts + us)[0] == ts[0] && (ts + us)[1..] == ts[1..] + us;
      if ts[0].Star? {
        StarConcat(ts, us, s);
      } else {
        OneConcat(ts, us, s);
      }
    }
  }

  lemma {:induction false} StarConcat(ts: seq<Token>, us: seq<Token>, s: Bytes)
    requires ts != [] && ts[0].Star? && (ts + us)[1..] == ts[1..] + us
    ensures Matches(ts + us, s) <==> SplitsInto(ts, us, s)
    decreases |ts|, 0
  {
    if Matches(ts + us, s) {
      var i :| 0 <= i <= |s| && Matches(ts[1..] + us, s[i..]);
      MatchesConcat(ts[1..], us, s[i..]);
      var j :| 0 <= j <= |s[i..]| && Matches(ts[1..], s[i..][..j]) && Matches(us, s[i..][j..]);
      assert s[..i + j][i..] == s[i..][..j] && s[i..][j..] == s[i + j..];
      assert Matches(ts, s[..i + j]);
    }
    if SplitsInto(ts, us, s) {
      var j :| 0 <= j <= |s| && Matches(ts, s[..j]) && Matches(us, s[j..]);
      var i :| 0 <= i <= j && Matches(ts[1..], s[..j][i..]);
      assert s[i..][..j - i] == s[..j][i..] && s[i..][j - i..] == s[j..];
      MatchesConcat(ts[1..], us, s[i..]);
    }
  }

  lemma {:induction false} OneConcat(ts: seq<Token>, us: seq<Token>, s: Bytes)
    requires ts != [] && !ts[0].Star? && (ts + us)[1..] == ts[1..] + us
    ensures Matches(ts + us, s) <==> SplitsInto(ts, us, s)
    decreases |ts|, 0
  {
    if s != [] {
      MatchesConcat(ts[1..], us, s[1..]);
      if Matches(ts + us, s) {
        var j :| 0 <= j <= |s[1..]| && Matches(ts[1..], s[1..][..j]) && Matches(us, s[1..][j..]);
        assert s[..j + 1][1..] == s[1..][..j] && s[1..][j..] == s[j + 1..];
        assert Matches(ts, s[..j + 1]);
      }
      if SplitsInto(ts, us, s) {
        var j :| 0 <= j <= |s| && Matches(ts, s[..j]) && Matches(us, s[j..]);
        assert j > 0 && s[..j][1..] == s[1..][..j - 1] && s[1..][j - 1..] == s[j..];
      }
    }
  }

  // ----- Patterns -------------------------------------------------------------------------------

  /** A lone question mark matches the strings of one byte, a lone star every string. */
  lemma Wildcards(s: Bytes)
    ensures Matches(Tokens([QUESTION]), s) <==> |s| == 1
    ensures Matches(Tokens([STAR]), s)
  {
    assert [QUESTION][1..] == [] && [STAR][1..] == [];
    assert Tokens([]) == [];
    assert Tokens([QUESTION]) == [Any] && [Any][1..] == [];
    assert Tokens([STAR]) == [Star];
    TrailingStar(s);
  }

  lemma {:induction false} EscapedThen(s: Bytes, p: Bytes)
    ensures Tokens(Escape(s) + p) == Tokens(Escape(s)) + Tokens(p)
  {
    if s == [] {
      assert Escape(s) + p == p && Tokens([]) == [];
    } else {
      hide Tokens, Special;
      EscapedThen(s[1..], p);
      var rest := Escape(s[1..]);
      var head := if Special(s[0]) then [BACKSLASH, s[0]] else [s[0]];
      assert Escape(s) == head + rest;
      Assoc(head, rest, p);
      EscapedHead(s[0], rest);
      EscapedHead(s[0], rest + p);
      Assoc([Lit(s[0])], Tokens(rest), Tokens(p));
    }
  }

  lemma Assoc<T>(a: seq<T>, b: seq<T>, c: seq<T>)
    ensures a + b + c == a + (b + c)
  {
  }

  lemma EscapedHead(b: byte, rest: Bytes)
    ensures var head := if Special(b) then [BACKSLASH, b] else [b];
            Tokens(head + rest) == [Lit(b)] + Tokens(rest)
  {
    var head := if Special(b) then [BACKSLASH, b] else [b];
    assert (head + rest)[|head|..] == rest;
  }

  /** A quoted string followed by a star, as in KEYS user:*, matches exactly what starts with it. */
  lemma PrefixPattern(prefix: Bytes, s: Bytes)
    ensures Matches(Tokens(Escape(prefix) + [STAR]), s) <==> prefix <= s
  {
    EscapedThen(prefix, [STAR]);
    MatchesConcat(Tokens(Escape(prefix)), Tokens([STAR]), s);
    if prefix <= s {
      EscapedMatchesOnlyItself(prefix, s[..|prefix|]);
      Wildcards(s[|prefix|..]);
    }
    if SplitsInto(Tokens(Escape(prefix)), Tokens([STAR]), s) {
      var i :| 0 <= i <= |s| && Matches(Tokens(Escape(prefix)), s[..i]) && Matches(Tokens([STAR]), s[i..]);
      EscapedMatchesOnlyItself(prefix, s[..i]);
    }
  }

  // ----- Classes --------------------------------------------------------------------------------

  /** Bytes that stand for themselves inside a class. */
  predicate Plain(bs: Bytes) {
    forall i :: 0 <= i < |bs| ==> bs[i] != BACKSLASH && bs[i] != CLOSE && bs[i] != DASH && bs[i] != CARET
  }

  function Ones(bs: Bytes): seq<Item> {
    seq(|bs|, i requires 0 <= i < |bs| => One(bs[i]))
  }

  lemma {:induction false} PlainBody(bs: Bytes, p: Bytes)
    requires Plain(bs)
    ensures ClassBody(bs + [CLOSE] + p) == Body(Ones(bs), p)
    ensures ClassBody(bs) == Body(Ones(bs), [])
  {
    if bs == [] {
      assert bs + [CLOSE] + p == [CLOSE] + p && ([CLOSE] + p)[1..] == p;
    } else {
      PlainBody(bs[1..], p);
      var q := bs + [CLOSE] + p;
      assert q[1..] == bs[1..] + [CLOSE] + p;
      assert q[0] == bs[0] && q[1] == if |bs| > 1 then bs[1] else CLOSE;
      assert Ones(bs) == [One(bs[0])] + Ones(bs[1..]);
    }
  }

  /** The class of the listed bytes, closed by a bracket or by the end of the pattern. */
  lemma ListedClass(bs: Bytes, s: Bytes)
    requires Plain(bs)
    ensures Matches(Tokens([OPEN] + bs + [CLOSE]), s) <==> |s| == 1 && s[0] in bs
    ensures Matches(Tokens([OPEN] + bs), s) <==> |s| == 1 && s[0] in bs
    ensures Matches(Tokens([OPEN, CARET] + bs + [CLOSE]), s) <==> |s| == 1 && s[0] !in bs
  {
    hide Tokens, Matches, Hit;
    ListedTokens(bs);
    OneClassAlone(false, Ones(bs), s);
    OneClassAlone(true, Ones(bs), s);
    if s != [] {
      HitOnes(s[0], bs);
    }
  }

  lemma ListedTokens(bs: Bytes)
    requires Plain(bs)
    ensures Tokens([OPEN] + bs + [CLOSE]) == [Class(false, Ones(bs))]
    ensures Tokens([OPEN] + bs) == [Class(false, Ones(bs))]
    ensures Tokens([OPEN, CARET] + bs + [CLOSE]) == [Class(true, Ones(bs))]
  {
    PlainBody(bs, []);
    hide ClassBody, Ones;
    var p, q, r := [OPEN] + bs + [CLOSE], [OPEN] + bs, [OPEN, CARET] + bs + [CLOSE];
    assert bs + [CLOSE] + [] == bs + [CLOSE];
    assert p[1..] == bs + [CLOSE] && q[1..] == bs && r[2..] == bs + [CLOSE];
    assert |p| > 1 && p[1] != CARET && (|q| > 1 ==> q[1] != CARET) && r[1] == CARET;
    assert Tokens([]) == [];
  }

  lemma HitOnes(c: byte, bs: Bytes)
    ensures Hit(c, Ones(bs)) <==> c in bs
  {
    if c in bs {
      var i :| 0 <= i < |bs| && bs[i] == c;
      assert In(c, Ones(bs)[i]);
    }
  }

  lemma OneClassAlone(negate: bool, items: seq<Item>, s: Bytes)
    ensures Matches([Class(negate, items)], s) <==> |s| == 1 && Hit(s[0], items) != negate
  {
    assert [Class(negate, items)][1..] == [];
  }

  /** The bytes from a to b, written out. */
  function Between(a: byte, b: byte): Bytes
    decreases b as int - a as int
  {
    if a > b then [] else [a] + if a == b then [] else Between(a + 1, b)
  }

  lemma {:induction false} RangeSpelledOut(c: byte, a: byte, b: byte)
    requires a <= b
    ensures In(c, Range(a, b)) <==> c in Between(a, b)
    ensures In(c, Range(a, b)) <==> In(c, Range(b, a))
    decreases b as int - a as int
  {
    if a < b {
      RangeSpelledOut(c, a + 1, b);
    }
  }

  /**
   * A range matches what the class of its bytes, both ends included, matches; its ends may come in either
   * order; a caret turns it around; and the bracket may be missing.
   */
  lemma RangeClass(a: byte, b: byte, s: Bytes)
    requires a <= b && Plain([a, b])
    ensures var one := |s| == 1;
            && (Matches(Tokens([OPEN, a, DASH, b, CLOSE]), s) <==> one && s[0] in Between(a, b))
            && (Matches(Tokens([OPEN, b, DASH, a, CLOSE]), s) <==> one && s[0] in Between(a, b))
            && (Matches(Tokens([OPEN, CARET, a, DASH, b, CLOSE]), s) <==> one && s[0] !in Between(a, b))
            && (Matches(Tokens([OPEN, a, DASH, b]), s) <==> one && s[0] in Between(a, b))
  {
    assert [a, b][0] == a && [a, b][1] == b;
    RangeTokens(a, b);
    RangeTokens(b, a);
    OneClassAlone(false, [Range(a, b)], s);
    OneClassAlone(false, [Range(b, a)], s);
    OneClassAlone(true, [Range(a, b)], s);
    if |s| == 1 {
      HitOne(s[0], Range(a, b));
      HitOne(s[0], Range(b, a));
      RangeSpelledOut(s[0], a, b);
    }
  }

  lemma HitOne(c: byte, item: Item)
    ensures Hit(c, [item]) <==> In(c, item)
  {
    if In(c, item) {
      assert In(c, [item][0]);
    }
  }

  lemma RangeTokens(a: byte, b: byte)
    requires Plain([a]) && Plain([b])
    ensures Tokens([OPEN, a, DASH, b, CLOSE]) == [Class(false, [Range(a, b)])]
    ensures Tokens([OPEN, CARET, a, DASH, b, CLOSE]) == [Class(true, [Range(a, b)])]
    ensures Tokens([OPEN, a, DASH, b]) == [Class(false, [Range(a, b)])]
  {
    assert [a][0] == a && [b][0] == b;
    var open := [a, DASH, b];
    assert [OPEN, a, DASH, b][1..] == open && open[3..] == [];
    assert ClassBody([]) == Body([], []) && ClassBody(open) == Body([Range(a, b)], []);
    var body := [a, DASH, b, CLOSE];
    assert [OPEN, a, DASH, b, CLOSE][1..] == body && [OPEN, CARET, a, DASH, b, CLOSE][2..] == body;
    assert body[3..] == [CLOSE] && [CLOSE][1..] == [];
    assert ClassBody([CLOSE]) == Body([], []);
    assert ClassBody(body) == Body([Range(a, b)], []);
    assert Tokens([]) == [];
  }

  /** Inside a class a backslash makes the next byte a plain member; a lone one at the end is none. */
  lemma EscapedMember(b: byte, s: Bytes)
    ensures Matches(Tokens([OPEN, BACKSLASH, b, CLOSE]), s) <==> s == [b]
    ensures !Matches(Tokens([OPEN, BACKSLASH]), s)
    ensures Matches(Tokens([BACKSLASH]), s) <==> s == [BACKSLASH]
  {
    var p := [OPEN, BACKSLASH, b, CLOSE];
    assert p[1..] == [BACKSLASH, b, CLOSE] && p[1..][2..] == [CLOSE] && [CLOSE][1..] == [];
    assert [OPEN, BACKSLASH][1..] == [BACKSLASH] && [BACKSLASH][1..] == [];
    assert ClassBody([CLOSE]) == Body([], []);
    assert ClassBody(p[1..]) == Body([One(b)], []);
    assert Tokens([]) == [];
    assert Tokens(p) == [Class(false, [One(b)])];
    assert Tokens([OPEN, BACKSLASH]) == [Class(false, [])];
    assert Tokens([BACKSLASH]) == [Lit(BACKSLASH)] && [Lit(BACKSLASH)][1..] == [];
    OneClassAlone(false, [One(b)], s);
    OneClassAlone(false, [], s);
    if s != [] {
      HitOne(s[0], One(b));
      assert s == [s[0]] + s[1..];
    }
  }
}
