/** SQL literals as the query builder renders them: integers in decimal,
    text between single quotes with the quote and the backslash escaped, and
    sequences of literals as `[a, b, c]`, recursively. */
module Literals {
  import opened Text
  import Escaping

  /** A value that can be bound into a query. `Int` stands for every integer
      width, `Str` for both string types, `List` for a vector of literals. */
  datatype Literal = Int(n: int) | Str(s: string) | List(elems: seq<Literal>)

  predicate IsDigit(c: char)
  {
    '0' <= c <= '9'
  }

  predicate AllDigits(s: string)
  {
    forall i :: 0 <= i < |s| ==> IsDigit(s[i])
  }

  function DigitChar(d: nat): (c: char)
    requires d < 10
  {
    ('0' as int + d) as char
  }

  function DigitValue(c: char): nat
    requires IsDigit(c)
  {
    c as int - '0' as int
  }

  /** The decimal digits of `n`, most significant first, without leading zeros. */
  function NatToDecimal(n: nat): (r: string)
    ensures |r| >= 1 && AllDigits(r)
    ensures r[0] == '0' ==> n == 0
  {
    if n < 10 then [DigitChar(n)]
    else NatToDecimal(n / 10) + [DigitChar(n % 10)]
  }

  /** Rust's `Display` of an integer: a minus sign for negative values, then
      the decimal digits of the magnitude. */
  function IntToDecimal(n: int): (r: string)
    ensures |r| >= 1 && (r[0] == '-' <==> n < 0)
  {
    if n < 0 then "-" + NatToDecimal(-n) else NatToDecimal(n)
  }

  /** The number a string of decimal digits denotes. */
  function DigitsValue(ds: string): nat
    requires AllDigits(ds)
  {
    if ds == [] then 0
    else DigitsValue(ds[..|ds| - 1]) * 10 + DigitValue(ds[|ds| - 1])
  }

  lemma {:induction false} DigitsValueNatToDecimal(n: nat)
    ensures DigitsValue(NatToDecimal(n)) == n
  {
    if n >= 10 {
      DigitsValueNatToDecimal(n / 10);
      var r := NatToDecimal(n);
      assert r[..|r| - 1] == NatToDecimal(n / 10);
    }
  }

  /** Reading the decimal rendering back gives the integer, and the minus
      sign appears exactly for negative integers. */
  lemma IntToDecimalValue(n: int)
    ensures var r := IntToDecimal(n);
      |r| >= 1 && (r[0] == '-' <==> n < 0) &&
      (n < 0 ==> AllDigits(r[1..]) && -(DigitsValue(r[1..]) as int) == n) &&
      (n >= 0 ==> AllDigits(r) && DigitsValue(r) == n)
  {
    if n < 0 {
      DigitsValueNatToDecimal(-n);
      assert IntToDecimal(n)[1..] == NatToDecimal(-n);
    } else {
      DigitsValueNatToDecimal(n);
    }
  }

  /** The text between the quotes of a string literal. */
  function EscapedString(s: string): string
  {
    Escaping.EscapeContent(s, Escaping.StringQuote)
  }

  /** The SQL text of a literal. */
  function Render(lit: Literal): string
    decreases lit
  {
    match lit
    case Int(n) => IntToDecimal(n)
    case Str(s) => "'" + EscapedString(s) + "'"
    case List(xs) => "[" + Join(RenderAll(xs), ", ") + "]"
  }

  /** The renderings of the elements, in order. */
  function RenderAll(xs: seq<Literal>): (r: seq<string>)
    ensures |r| == |xs| && forall k :: 0 <= k < |xs| ==> r[k] == Render(xs[k])
    decreases xs
  {
    if xs == [] then [] else [Render(xs[0])] + RenderAll(xs[1..])
  }

  /** The source's `escape_string`: a loop over the characters that appends
      `\'` for a quote, `\\` for a backslash and the character itself otherwise. */
  method EscapeString(s: string) returns (r: string)
    ensures r == EscapedString(s)
  {
    r := [];
    for i := 0 to |s|
      invariant r == Escaping.EscapeContent(s[..i], Escaping.StringQuote)
    {
      var c := s[i];
      if c == '\'' {
        r := r + "\\'";
      } else if c == '\\' {
        r := r + "\\\\";
      } else {
        r := r + [c];
      }
      Escaping.EscapeContentAppend(s[..i], [c], Escaping.StringQuote);
      assert s[..i + 1] == s[..i] + [c];
    }
    assert s[..|s|] == s;
  }

  /** The `SqlLiteral` implementations: integers through `Display`, strings
      through `escape_string` between single quotes, and vectors through a
      loop with a `push_separator` flag that writes `, ` before every element
      but the first. */
  method FormatLiteral(lit: Literal) returns (out: string)
    ensures out == Render(lit)
    decreases lit
  {
    match lit
    case Int(n) =>
      out := IntToDecimal(n);
    case Str(s) =>
      var e := EscapeString(s);
      out := "'" + e + "'";
    case List(xs) =>
      out := "[";
      var pushSeparator := false;
      ghost var rendered: seq<string> := [];
      for i := 0 to |xs|
        invariant pushSeparator == (i > 0)
        invariant |rendered| == i && forall k :: 0 <= k < i ==> rendered[k] == Render(xs[k])
        invariant out == "[" + Join(rendered, ", ")
      {
        if pushSeparator {
          out := out + ", ";
        } else {
          pushSeparator := true;
        }
        var e := FormatLiteral(xs[i]);
        JoinSnoc(rendered, e, ", ");
        rendered := rendered + [e];
        out := out + e;
      }
      assert rendered == RenderAll(xs);
      out := out + "]";
  }

  /** A string literal renders exactly as the crate's `string` escaper
      quotes the same text. */
  lemma RenderStrIsStringLiteral(s: string)
    ensures Render(Str(s)) == Escaping.Quoted(s, Escaping.StringQuote)
  {
  }

  /** The empty vector renders as `[]`. */
  lemma RenderEmptyList()
    ensures Render(List([])) == "[]"
  {
  }

  /** Maximal run of decimal digits at the front of `t`, and what follows it. */
  function ReadDigits(t: string): (r: (string, string))
    ensures AllDigits(r.0) && r.0 + r.1 == t
    ensures r.1 == [] || !IsDigit(r.1[0])
  {
    if t != [] && IsDigit(t[0]) then
      var (ds, rest) := ReadDigits(t[1..]);
      ([t[0]] + ds, rest)
    else ([], t)
  }

  lemma {:induction false} ReadDigitsPrefix(ds: string, rest: string)
    requires AllDigits(ds)
    requires rest == [] || !IsDigit(rest[0])
    ensures ReadDigits(ds + rest) == (ds, rest)
  {
    if ds != [] {
      assert (ds + rest)[1..] == ds[1..] + rest;
      ReadDigitsPrefix(ds[1..], rest);
      assert [ds[0]] + ds[1..] == ds;
    } else {
      assert ds + rest == rest;
    }
  }

  /** The literal at the front of `t` and what follows it, reading the
      format `Render` writes. */
  function ParseLiteral(t: string): (r: Option<(Literal, string)>)
    ensures r.Some? ==> |r.value.1| < |t|
    decreases |t|, 0
  {
    if t == [] then None
    else if t[0] == '\'' then
      match Escaping.ReadQuoted(t, '\'')
      case None => None
      case Some((s, rest)) => Some((Str(s), rest))
    else if t[0] == '[' then
      if |t| >= 2 && t[1] == ']' then Some((List([]), t[2..]))
      else
        match ParseElements(t[1..])
        case None => None
        case Some((xs, rest)) => Some((List(xs), rest))
    else if t[0] == '-' || IsDigit(t[0]) then ParseInteger(t)
    else None
  }

  /** An optional minus sign followed by at least one decimal digit. */
  function ParseInteger(t: string): (r: Option<(Literal, string)>)
    ensures r.Some? ==> |r.value.1| < |t|
  {
    var negative := t != [] && t[0] == '-';
    var (ds, rest) := ReadDigits(if negative then t[1..] else t);
    if ds == [] then None
    else Some((Int(if negative then -(DigitsValue(ds) as int) else DigitsValue(ds)), rest))
  }

  /** One or more literals separated by `, ` and closed by `]`. */
  function ParseElements(t: string): (r: Option<(seq<Literal>, string)>)
    ensures r.Some? ==> |r.value.1| < |t|
    decreases |t|, 1
  {
    match ParseLiteral(t)
    case None => None
    case Some((x, rest)) =>
      if |rest| >= 1 && rest[0] == ']' then Some(([x], rest[1..]))
      else if |rest| >= 2 && rest[0] == ',' && rest[1] == ' ' then
        match ParseElements(rest[2..])
        case None => None
        case Some((xs, rest')) => Some(([x] + xs, rest'))
      else None
  }

  /** What may follow a literal without changing how it reads back: only an
      integer is sensitive, to a digit right after it. */
  predicate Delimited(lit: Literal, rest: string)
  {
    lit.Int? ==> rest == [] || !IsDigit(rest[0])
  }

  /** A rendered literal starts with a digit, a minus sign, a quote or `[`. */
  lemma RenderStart(lit: Literal)
    ensures |Render(lit)| >= 1
    ensures var c := Render(lit)[0]; IsDigit(c) || c == '-' || c == '\'' || c == '['
  {
  }

  /** Parsing a rendered literal gives back the literal and leaves whatever
      followed it untouched. */
  lemma {:induction false} ParseRender(lit: Literal, rest: string)
    requires Delimited(lit, rest)
    ensures ParseLiteral(Render(lit) + rest) == Some((lit, rest))
    decreases lit, 1
  {
    match lit
    case Int(n) =>
      ParseRenderInt(n, rest);
      RenderStart(lit);
      ParseLiteralInteger(Render(lit) + rest);
    case Str(s) =>
      ParseRenderStr(s, rest);
    case List(xs) =>
      var t := Render(lit) + rest;
      if xs == [] {
        assert t == "[]" + rest;
        assert t[2..] == rest;
      } else {
        var body := Join(RenderAll(xs), ", ") + "]" + rest;
        assert t == "[" + body;
        assert t[1..] == body;
        ParseRenderElements(xs, rest);
        RenderStart(xs[0]);
        JoinHead(RenderAll(xs), ", ");
        assert body[0] == Render(xs[0])[0];
        assert ParseLiteral(t) == Some((List(xs), rest));
      }
  }

  lemma ParseRenderInt(n: int, rest: string)
    requires rest == [] || !IsDigit(rest[0])
    ensures ParseInteger(Render(Int(n)) + rest) == Some((Int(n), rest))
  {
    if n < 0 {
      ParseRenderNegative(n, rest);
    } else {
      var ds := NatToDecimal(n);
      assert Render(Int(n)) + rest == ds + rest;
      ParseNonNegative(ds, rest);
      DigitsValueNatToDecimal(n);
    }
  }

  lemma ParseRenderNegative(n: int, rest: string)
    requires n < 0
    requires rest == [] || !IsDigit(rest[0])
    ensures ParseInteger(Render(Int(n)) + rest) == Some((Int(n), rest))
  {
    var ds := NatToDecimal(-n);
    assert Render(Int(n)) == "-" + ds;
    ParseNegative(ds, rest);
    DigitsValueNatToDecimal(-n);
  }

  lemma ParseLiteralInteger(t: string)
    requires t != [] && (t[0] == '-' || IsDigit(t[0]))
    ensures ParseLiteral(t) == ParseInteger(t)
  {
  }

  lemma ParseNegative(ds: string, rest: string)
    requires ds != [] && AllDigits(ds)
    requires rest == [] || !IsDigit(rest[0])
    ensures ParseInteger("-" + ds + rest) == Some((Int(-(DigitsValue(ds) as int)), rest))
  {
    var t := "-" + ds + rest;
    assert t[0] == '-' && t[1..] == ds + rest;
    ReadDigitsPrefix(ds, rest);
  }

  lemma ParseNonNegative(ds: string, rest: string)
    requires ds != [] && AllDigits(ds)
    requires rest == [] || !IsDigit(rest[0])
    ensures ParseInteger(ds + rest) == Some((Int(DigitsValue(ds)), rest))
  {
    var t := ds + rest;
    assert t[0] == ds[0];
    ReadDigitsPrefix(ds, rest);
  }

  lemma ParseRenderStr(s: string, rest: string)
    ensures ParseLiteral(Render(Str(s)) + rest) == Some((Str(s), rest))
  {
    Escaping.ReadQuotedToken(s, '\'', rest);
  }

  /** The first character of a join is that of its first part. */
  lemma JoinHead(parts: seq<string>, sep: string)
    requires |parts| >= 1 && |parts[0]| >= 1
    ensures |Join(parts, sep)| >= 1 && Join(parts, sep)[0] == parts[0][0]
  {
  }

  lemma {:induction false} ParseRenderElements(xs: seq<Literal>, rest: string)
    requires |xs| >= 1
    ensures ParseElements(Join(RenderAll(xs), ", ") + "]" + rest) == Some((xs, rest))
    decreases xs, 0
  {
    var x := xs[0];
    var t := Join(RenderAll(xs), ", ") + "]" + rest;
    if |xs| == 1 {
      assert t == Render(x) + ("]" + rest);
      ParseRender(x, "]" + rest);
      ElementsLast(t, x, rest);
      assert [x] == xs;
    } else {
      var tail := Join(RenderAll(xs[1..]), ", ") + "]" + rest;
      assert RenderAll(xs)[1..] == RenderAll(xs[1..]);
      JoinCons(RenderAll(xs), ", ", "]", rest);
      ParseRender(x, ", " + tail);
      ParseRenderElements(xs[1..], rest);
      ElementsMore(t, x, tail, xs[1..], rest);
      assert [x] + xs[1..] == xs;
    }
  }

  /** A join of two or more parts, followed by more text, split after its
      first part and separator. */
  lemma JoinCons(parts: seq<string>, sep: string, close: string, after: string)
    requires |parts| >= 2
    ensures Join(parts, sep) + close + after == parts[0] + (sep + (Join(parts[1..], sep) + close + after))
  {
    assert Join(parts, sep) == parts[0] + sep + Join(parts[1..], sep);
  }

  /** An element followed by the closing bracket ends the list. */
  lemma ElementsLast(t: string, x: Literal, rest: string)
    requires ParseLiteral(t) == Some((x, "]" + rest))
    ensures ParseElements(t) == Some(([x], rest))
  {
    assert ("]" + rest)[1..] == rest;
  }

  /** An element followed by a comma and a space is followed by more elements. */
  lemma ElementsMore(t: string, x: Literal, tail: string, xs: seq<Literal>, rest: string)
    requires ParseLiteral(t) == Some((x, ", " + tail))
    requires ParseElements(tail) == Some((xs, rest))
    ensures ParseElements(t) == Some(([x] + xs, rest))
  {
    assert (", " + tail)[2..] == tail;
  }

  lemma RenderInjective(a: Literal, b: Literal)
    requires Render(a) == Render(b)
    ensures a == b
  {
    ParseRender(a, []);
    ParseRender(b, []);
    assert Render(a) + [] == Render(a);
    assert Render(b) + [] == Render(b);
  }
}
