/** RESP2 encoding of replies, and the decoder that shows it unambiguous. */
module Resp {
  import opened Prelude
  import opened Decimal

  const CR: byte := 13
  const LF: byte := 10
  const SPACE: byte := 32
  const PLUS: byte := 43
  const COLON: byte := 58
  const DOLLAR: byte := 36
  const ASTERISK: byte := 42

  const CRLF: Bytes := [CR, LF]

  /** A reply tree. The empty bulk string, the null bulk string, the empty and the null array all differ. */
  datatype Resp =
    | Simple(text: Bytes)
    | Error(text: Bytes)
    | Int(n: int)
    | Bulk(b: Bytes)
    | NullBulk
    | Array(elems: seq<Resp>)
    | NullArray

  predicate OneLine(s: Bytes) {
    CR !in s && LF !in s
  }

  /** Simple and error bodies are single lines; numbers and lengths are int64. */
  predicate WellFormed(r: Resp) {
    match r
    case Simple(s) => OneLine(s)
    case Error(s) => OneLine(s)
    case Int(n) => InInt64(n)
    case Bulk(b) => |b| <= MAX_INT64
    case Array(es) => |es| <= MAX_INT64 && forall i :: 0 <= i < |es| ==> WellFormed(es[i])
    case _ => true
  }

  // ----- Encoding -------------------------------------------------------------------------------

  function Line(tag: byte, body: Bytes): Bytes {
    [tag] + body + CRLF
  }

  function Encode(r: Resp): Bytes {
    match r
    case Simple(s) => Line(PLUS, s)
    case Error(s) => Line(MINUS, s)
    case Int(n) => Line(COLON, Render(n))
    case Bulk(b) => Line(DOLLAR, Render(|b|)) + b + CRLF
    case NullBulk => Line(DOLLAR, [MINUS, ZERO + 1])
    case Array(es) => Line(ASTERISK, Render(|es|)) + EncodeAll(es)
    case NullArray => Line(ASTERISK, [MINUS, ZERO + 1])
  }

  function EncodeAll(rs: seq<Resp>): Bytes {
    if rs == [] then [] else Encode(rs[0]) + EncodeAll(rs[1..])
  }

  /** The bytes on the wire: "+OK", ":-7", "$2" with its content, "*2" with its elements, and the nulls. */
  lemma WireExamples()
    ensures Encode(Simple([79, 75])) == [43, 79, 75, 13, 10]
    ensures Encode(Error([69])) == [45, 69, 13, 10]
    ensures Encode(Int(-7)) == [58, 45, 55, 13, 10]
    ensures Encode(Bulk([104, 105])) == [36, 50, 13, 10, 104, 105, 13, 10]
    ensures Encode(NullBulk) == [36, 45, 49, 13, 10] && Encode(NullArray) == [42, 45, 49, 13, 10]
    ensures Encode(Array([Int(-7), NullBulk])) == [42, 50, 13, 10] + [58, 45, 55, 13, 10] + [36, 45, 49, 13, 10]
  {
    assert Render(2) == [50] && Render(-7) == [45, 55];
    assert EncodeAll([Int(-7), NullBulk][1..][1..]) == [];
    assert [Int(-7), NullBulk][1..] == [NullBulk];
  }

  // ----- Decoding -------------------------------------------------------------------------------

  /** The index of the first carriage return, the length if there is none. */
  function FirstCR(b: Bytes): (i: nat)
    ensures i <= |b|
    ensures i < |b| ==> b[i] == CR
    ensures CR !in b[..i]
  {
    if b == [] || b[0] == CR then 0 else
      assert b[..1 + FirstCR(b[1..])] == [b[0]] + b[1..][..FirstCR(b[1..])];
      1 + FirstCR(b[1..])
  }

  datatype Split = Split(line: Bytes, rest: Bytes)

  /** A line up to CRLF, and what follows. */
  function TakeLine(b: Bytes): (r: Option<Split>)
    ensures r.Some? ==> |r.value.rest| < |b|
  {
    var i := FirstCR(b);
    if i + 1 < |b| && b[i + 1] == LF then Some(Split(b[..i], b[i + 2..])) else None
  }

  datatype One = One(reply: Resp, rest: Bytes)

  datatype Many = Many(replies: seq<Resp>, rest: Bytes)

  function DecodeOne(b: Bytes): (r: Option<One>)
    ensures r.Some? ==> |r.value.rest| < |b|
    decreases |b|, 0
  {
    if b == [] then None
    else
      var split := TakeLine(b[1..]);
      if split.None? then None
      else
        var line, rest := split.value.line, split.value.rest;
        if b[0] == PLUS then Some(One(Simple(line), rest))
        else if b[0] == MINUS then Some(One(Error(line), rest))
        else
          var n := IntOf(line);
          if n.None? then None
          else if b[0] == COLON then Some(One(Int(n.value), rest))
          else if b[0] == DOLLAR then
            if n.value == -1 then Some(One(NullBulk, rest))
            else if 0 <= n.value <= |rest| - 2 && rest[n.value..n.value + 2] == CRLF then
              Some(One(Bulk(rest[..n.value]), rest[n.value + 2..]))
            else None
          else if b[0] == ASTERISK then
            if n.value == -1 then Some(One(NullArray, rest))
            else if n.value < 0 then None
            else
              var es := DecodeMany(rest, n.value);
              if es.Some? then Some(One(Array(es.value.replies), es.value.rest)) else None
          else None
  }

  function DecodeMany(b: Bytes, n: nat): (r: Option<Many>)
    ensures r.Some? ==> |r.value.rest| <= |b| && |r.value.replies| == n
    decreases |b|, n + 1
  {
    if n == 0 then Some(Many([], b))
    else
      var first := DecodeOne(b);
      if first.None? then None
      else
        var more := DecodeMany(first.value.rest, n - 1);
        if more.Some? then Some(Many([first.value.reply] + more.value.replies, more.value.rest)) else None
  }

  // ----- Round trip -----------------------------------------------------------------------------

  lemma {:induction false} FirstCRAfter(line: Bytes, tail: Bytes)
    requires CR !in line && tail != [] && tail[0] == CR
    ensures FirstCR(line + tail) == |line|
  {
    if line == [] {
      assert line + tail == tail;
    } else {
      FirstCRAfter(line[1..], tail);
      assert (line + tail)[1..] == line[1..] + tail;
    }
  }

  lemma TakeLineOfLine(tag: byte, body: Bytes, tail: Bytes)
    requires CR !in body
    ensures var b := Line(tag, body) + tail;
            b != [] && b[0] == tag && TakeLine(b[1..]) == Some(Split(body, tail))
  {
    var b := Line(tag, body) + tail;
    assert b[1..] == body + (CRLF + tail);
    FirstCRAfter(body, CRLF + tail);
  }

  lemma RenderIsOneLine(n: int)
    ensures OneLine(Render(n))
  {
  }

  lemma NumberLine(tag: byte, n: int, tail: Bytes)
    requires InInt64(n)
    ensures var b := Line(tag, Render(n)) + tail;
            && b != [] && b[0] == tag
            && TakeLine(b[1..]) == Some(Split(Render(n), tail)) && IntOf(Render(n)) == Some(n)
  {
    RenderIsOneLine(n);
    TakeLineOfLine(tag, Render(n), tail);
    IntOfIsExact(Render(n), n);
  }

  lemma MinusOne()
    ensures Render(-1) == [MINUS, ZERO + 1]
  {
  }

  /** Decoding an encoded reply returns it and leaves exactly what followed. */
  lemma {:induction false} DecodeEncode(r: Resp, tail: Bytes)
    requires WellFormed(r)
    ensures DecodeOne(Encode(r) + tail) == Some(One(r, tail))
    decreases r, 0
  {
    hide DecodeOne, DecodeMany, Encode;
    match r
    case Simple(s) => LineRoundTrip(r, s, tail);
    case Error(s) => LineRoundTrip(r, s, tail);
    case Int(n) => IntRoundTrip(n, tail);
    case NullBulk => NullRoundTrip(tail);
    case NullArray => NullRoundTrip(tail);
    case Bulk(b) => BulkRoundTrip(b, tail);
    case Array(es) =>
      DecodeEncodeAll(es, 0, tail);
      assert es[0..] == es;
      ArrayRoundTrip(es, tail);
  }

  lemma LineRoundTrip(r: Resp, s: Bytes, tail: Bytes)
    requires (r == Simple(s) || r == Error(s)) && OneLine(s)
    ensures DecodeOne(Encode(r) + tail) == Some(One(r, tail))
  {
    TakeLineOfLine(if r.Simple? then PLUS else MINUS, s, tail);
    hide TakeLine, Line, DecodeMany;
  }

  lemma IntRoundTrip(n: int, tail: Bytes)
    requires InInt64(n)
    ensures DecodeOne(Encode(Int(n)) + tail) == Some(One(Int(n), tail))
  {
    hide TakeLine, Line, IntOf, Render, DecodeMany;
    NumberLine(COLON, n, tail);
  }

  lemma NullRoundTrip(tail: Bytes)
    ensures DecodeOne(Encode(NullBulk) + tail) == Some(One(NullBulk, tail))
    ensures DecodeOne(Encode(NullArray) + tail) == Some(One(NullArray, tail))
  {
    MinusOne();
    NumberLine(DOLLAR, -1, tail);
    NumberLine(ASTERISK, -1, tail);
    hide TakeLine, Line, IntOf, Render, DecodeMany;
  }

  lemma BulkRoundTrip(b: Bytes, tail: Bytes)
    requires |b| <= MAX_INT64
    ensures DecodeOne(Encode(Bulk(b)) + tail) == Some(One(Bulk(b), tail))
  {
    hide TakeLine, IntOf, Render, DecodeMany;
    var after := b + CRLF + tail;
    NumberLine(DOLLAR, |b|, after);
    assert Encode(Bulk(b)) + tail == Line(DOLLAR, Render(|b|)) + after;
    hide Line;
    assert after[..|b|] == b && after[|b|..|b| + 2] == CRLF && after[|b| + 2..] == tail;
  }

  lemma ArrayRoundTrip(es: seq<Resp>, tail: Bytes)
    requires |es| <= MAX_INT64
    requires DecodeMany(EncodeAll(es) + tail, |es|) == Some(Many(es, tail))
    ensures DecodeOne(Encode(Array(es)) + tail) == Some(One(Array(es), tail))
  {
    hide TakeLine, IntOf, Render, DecodeMany, EncodeAll;
    var after := EncodeAll(es) + tail;
    NumberLine(ASTERISK, |es|, after);
    assert Encode(Array(es)) + tail == Line(ASTERISK, Render(|es|)) + after;
    hide Line;
  }

  lemma {:induction false} DecodeEncodeAll(rs: seq<Resp>, k: nat, tail: Bytes)
    requires k <= |rs| && forall i :: 0 <= i < |rs| ==> WellFormed(rs[i])
    ensures DecodeMany(EncodeAll(rs[k..]) + tail, |rs| - k) == Some(Many(rs[k..], tail))
    decreases rs, 1 + |rs| - k
  {
    hide Encode, EncodeAll, DecodeOne, DecodeMany, WellFormed;
    var rest := rs[k..];
    if k == |rs| {
      assert rest == [];
      DecodeNone(tail);
    } else {
      assert rest[0] == rs[k] && rest[1..] == rs[k + 1..];
      DecodeEncode(rs[k], EncodeAll(rs[k + 1..]) + tail);
      DecodeEncodeAll(rs, k + 1, tail);
      EncodeAllHead(rest, tail);
      DecodeNext(EncodeAll(rest) + tail, rest[0], EncodeAll(rest[1..]) + tail, rest[1..], tail);
      assert rest == [rest[0]] + rest[1..];
    }
  }

  lemma DecodeNone(tail: Bytes)
    ensures EncodeAll([]) + tail == tail && DecodeMany(tail, 0) == Some(Many([], tail))
  {
  }

  lemma EncodeAllHead(rs: seq<Resp>, tail: Bytes)
    requires rs != []
    ensures EncodeAll(rs) + tail == Encode(rs[0]) + (EncodeAll(rs[1..]) + tail)
  {
  }

  lemma DecodeNext(b: Bytes, first: Resp, after: Bytes, rest: seq<Resp>, tail: Bytes)
    requires DecodeOne(b) == Some(One(first, after)) && DecodeMany(after, |rest|) == Some(Many(rest, tail))
    ensures DecodeMany(b, |rest| + 1) == Some(Many([first] + rest, tail))
  {
  }

  /** No encoding is a proper prefix of another. */
  lemma PrefixFree(r: Resp, s: Resp)
    requires WellFormed(r) && WellFormed(s) && Encode(r) <= Encode(s)
    ensures r == s
  {
    var tail := Encode(s)[|Encode(r)|..];
    DecodeEncode(r, tail);
    DecodeEncode(s, []);
    assert Encode(r) + tail == Encode(s) == Encode(s) + [];
  }

  /** A stream of replies splits into exactly one sequence of reply trees. */
  lemma {:induction false} UniquelyDecodable(rs: seq<Resp>, ss: seq<Resp>)
    requires forall i :: 0 <= i < |rs| ==> WellFormed(rs[i])
    requires forall i :: 0 <= i < |ss| ==> WellFormed(ss[i])
    requires EncodeAll(rs) == EncodeAll(ss)
    ensures rs == ss
  {
    if rs != [] && ss != [] {
      var x, y := EncodeAll(rs[1..]), EncodeAll(ss[1..]);
      DecodeEncode(rs[0], x);
      DecodeEncode(ss[0], y);
      UniquelyDecodable(rs[1..], ss[1..]);
      assert rs == [rs[0]] + rs[1..] && ss == [ss[0]] + ss[1..];
    } else {
      NonEmpty(rs);
      NonEmpty(ss);
    }
  }

  lemma NonEmpty(rs: seq<Resp>)
    ensures EncodeAll(rs) == [] <==> rs == []
  {
  }

  // ----- The appending encoders -----------------------------------------------------------------

  function Bulks(elems: seq<Bytes>): seq<Resp> {
    seq(|elems|, i requires 0 <= i < |elems| => Bulk(elems[i]))
  }

  lemma {:induction false} EncodeAllConcat(a: seq<Resp>, b: seq<Resp>)
    ensures EncodeAll(a + b) == EncodeAll(a) + EncodeAll(b)
  {
    if a == [] {
      assert a + b == b;
    } else {
      assert (a + b)[1..] == a[1..] + b;
      EncodeAllConcat(a[1..], b);
    }
  }

  lemma AppendNone(head: Bytes)
    ensures head + EncodeAll([]) == head
  {
  }

  lemma AppendOne(head: Bytes, a: seq<Resp>, r: Resp)
    ensures head + EncodeAll(a + [r]) == head + EncodeAll(a) + Encode(r)
  {
    EncodeAllConcat(a, [r]);
    assert EncodeAll([r]) == Encode(r) + EncodeAll([]);
  }

  lemma ArrayEncoding(dst: Bytes, es: seq<Resp>)
    ensures dst + Encode(Array(es)) == dst + Line(ASTERISK, Render(|es|)) + EncodeAll(es)
  {
  }

  method AppendBulkString(dst: Bytes, b: Bytes) returns (out: Bytes)
    ensures out == dst + Encode(Bulk(b))
  {
    out := dst + [DOLLAR] + Render(|b|) + CRLF;
    out := out + b + CRLF;
    assert out == dst + ([DOLLAR] + Render(|b|) + CRLF + b + CRLF);
  }

  method AppendArrayHeader(dst: Bytes, n: nat) returns (out: Bytes)
    ensures out == dst + Line(ASTERISK, Render(n))
  {
    out := dst + [ASTERISK];
    out := out + Render(n);
    out := out + CRLF;
  }

  /** An array of bulk strings; the missing slice is the null array. */
  method AppendBulkArray(dst: Bytes, elems: Option<seq<Bytes>>) returns (out: Bytes)
    ensures out == dst + Encode(if elems.None? then NullArray else Array(Bulks(elems.value)))
  {
    if elems.None? {
      return dst + [ASTERISK, MINUS, ZERO + 1] + CRLF;
    }
    var es := elems.value;
    out := AppendArrayHeader(dst, |es|);
    ghost var head := out;
    ArrayEncoding(dst, Bulks(es));
    hide Encode, EncodeAll, Line;
    assert Bulks(es[..0]) == [];
    AppendNone(head);
    for i := 0 to |es|
      invariant out == head + EncodeAll(Bulks(es[..i]))
    {
      AppendOne(head, Bulks(es[..i]), Bulk(es[i]));
      assert Bulks(es[..i + 1]) == Bulks(es[..i]) + [Bulk(es[i])];
      out := AppendBulkString(out, es[i]);
    }
    assert es[..|es|] == es;
  }

  function OptBulks(values: seq<Bytes>, present: seq<bool>): seq<Resp>
    requires forall i :: 0 <= i < |present| && present[i] ==> i < |values|
  {
    seq(|present|, i requires 0 <= i < |present| => if present[i] then Bulk(values[i]) else NullBulk)
  }

  lemma OptSnoc(values: seq<Bytes>, present: seq<bool>, i: nat)
    requires (forall j :: 0 <= j < |present| && present[j] ==> j < |values|) && i < |present|
    ensures OptBulks(values, present[..i + 1]) ==
            OptBulks(values, present[..i]) + [if present[i] then Bulk(values[i]) else NullBulk]
  {
  }

  /** Present values interleaved with nulls, as MGET replies. */
  method AppendOptBulkArray(dst: Bytes, values: seq<Bytes>, present: seq<bool>) returns (out: Bytes)
    requires forall i :: 0 <= i < |present| && present[i] ==> i < |values|
    ensures out == dst + Encode(Array(OptBulks(values, present)))
  {
    out := AppendArrayHeader(dst, |present|);
    ghost var head := out;
    ArrayEncoding(dst, OptBulks(values, present));
    assert Encode(NullBulk) == Line(DOLLAR, [MINUS, ZERO + 1]);
    hide Encode, EncodeAll, Line;
    assert OptBulks(values, present[..0]) == [];
    AppendNone(head);
    for i := 0 to |present|
      invariant out == head + EncodeAll(OptBulks(values, present[..i]))
    {
      ghost var r := if present[i] then Bulk(values[i]) else NullBulk;
      OptSnoc(values, present, i);
      AppendOne(head, OptBulks(values, present[..i]), r);
      if present[i] {
        out := AppendBulkString(out, values[i]);
      } else {
        out := out + Line(DOLLAR, [MINUS, ZERO + 1]);
      }
    }
    assert present[..|present|] == present;
  }

  // ----- Error texts ----------------------------------------------------------------------------

  /** CR and LF become spaces; every other byte is kept. */
  method SanitizeErrText(s: Bytes) returns (r: Bytes)
    ensures |r| == |s| && OneLine(r)
    ensures forall i :: 0 <= i < |s| ==> r[i] == if s[i] == CR || s[i] == LF then SPACE else s[i]
  {
    var hasCRLF := false;
    for i := 0 to |s|
      invariant !hasCRLF ==> forall j :: 0 <= j < i ==> s[j] != CR && s[j] != LF
    {
      if s[i] == CR || s[i] == LF {
        hasCRLF := true;
        break;
      }
    }
    if !hasCRLF {
      return s;
    }
    var b := new byte[|s|](i requires 0 <= i < |s| => s[i]);
    for i := 0 to |s|
      invariant forall j :: 0 <= j < i ==> b[j] == if s[j] == CR || s[j] == LF then SPACE else s[j]
      invariant forall j :: i <= j < |s| ==> b[j] == s[j]
    {
      if b[i] == CR || b[i] == LF {
        b[i] := SPACE;
      }
    }
    r := b[..];
  }

  const QUOTE: byte := 39

  /** "ERR unknown command " */
  const UNKNOWN_COMMAND: Bytes :=
    [69, 82, 82, 32, 117, 110, 107, 110, 111, 119, 110, 32, 99, 111, 109, 109, 97, 110, 100, 32]

  /** Whatever bytes the client sent as a command name, the error body is one line. */
  method ErrUnknownCommand(name: Bytes) returns (body: Bytes)
    ensures OneLine(body) && WellFormed(Error(body))
    ensures OneLine(name) ==> body == UNKNOWN_COMMAND + [QUOTE] + name + [QUOTE]
  {
    var clean := SanitizeErrText(name);
    assert OneLine(name) ==> clean == name;
    body := UNKNOWN_COMMAND + [QUOTE] + clean + [QUOTE];
  }
}
