/** The quote/backslash escaper of ClickHouse's SQL syntax: string literals
    are quoted with `'`, identifiers with a backtick, and inside the quotes the
    quote character and the backslash are each preceded by a backslash.
    Newlines and every other character pass through unchanged. */
module Escaping {
  import opened Text

  const Backslash: char := '\\'
  const StringQuote: char := '\''
  const IdentifierQuote: char := '`'

  /** What one source character becomes inside a token quoted with `q`. */
  function EscapeChar(c: char, q: char): string
  {
    if c == q then [Backslash, q]
    else if c == Backslash then [Backslash, Backslash]
    else [c]
  }

  /** The per-character escape of `s`: the text between the two quotes. */
  function EscapeContent(s: string, q: char): string
  {
    if s == [] then [] else EscapeChar(s[0], q) + EscapeContent(s[1..], q)
  }

  /** The whole token: opening quote, escaped content, closing quote. */
  function Quoted(s: string, q: char): string
  {
    [q] + EscapeContent(s, q) + [q]
  }

  lemma {:induction false} EscapeContentAppend(a: string, b: string, q: char)
    ensures EscapeContent(a + b, q) == EscapeContent(a, q) + EscapeContent(b, q)
  {
    if a == [] {
      assert a + b == b;
    } else {
      assert (a + b)[1..] == a[1..] + b;
      EscapeContentAppend(a[1..], b, q);
    }
  }

  /** Text with neither the quote character nor a backslash is left as it is. */
  lemma {:induction false} EscapeContentPlain(s: string, q: char)
    requires q !in s && Backslash !in s
    ensures EscapeContent(s, q) == s
  {
    if s != [] {
      assert s[0] in s;
      assert forall c :: c in s[1..] ==> c in s;
      EscapeContentPlain(s[1..], q);
    }
  }

  /** Every quote character and every backslash adds one character. */
  lemma {:induction false} EscapeContentLength(s: string, q: char)
    requires q != Backslash
    ensures |EscapeContent(s, q)| == |s| + Count(s, q) + Count(s, Backslash)
  {
    if s != [] {
      EscapeContentLength(s[1..], q);
    }
  }

  /** The source's `escape`: writes the opening quote, then for each piece of
      `src` split on `ch` (a piece after the first is preceded by `\ch`), each
      sub-piece of it split on the backslash (a sub-piece after the first is
      preceded by `\\`), and finally the closing quote. Returns everything
      written to the sink, in order. */
  method Escape(src: string, ch: char) returns (written: string)
    ensures written == Quoted(src, ch)
  {
    written := [ch];
    var parts := Split(src, ch);
    for idx := 0 to |parts|
      invariant written == [ch] + EscapeContent(Join(parts[..idx], [ch]), ch)
    {
      ghost var w0 := written;
      if idx > 0 {
        written := written + [Backslash, ch];
      }
      ghost var before := written;
      var part := parts[idx];
      var pieces := Split(part, Backslash);
      SplitAvoids(part, Backslash, ch);
      for j := 0 to |pieces|
        invariant written == before + EscapeContent(Join(pieces[..j], [Backslash]), ch)
      {
        ghost var v0 := written;
        if j > 0 {
          written := written + [Backslash, Backslash];
        }
        written := written + pieces[j];
        InnerStep(pieces, j, ch, before, v0, written);
      }
      assert pieces[..|pieces|] == pieces;
      OuterStep(parts, idx, ch, w0, before, written);
    }
    assert parts[..|parts|] == parts;
    written := written + [ch];
  }

  /** One iteration of `Escape`'s inner loop: the `j`-th piece, preceded by
      `\\` unless it is the first, extends the escape of the pieces joined so far. */
  lemma InnerStep(pieces: seq<string>, j: nat, ch: char, before: string, v0: string, v1: string)
    requires j < |pieces|
    requires ch !in pieces[j] && Backslash !in pieces[j]
    requires v0 == before + EscapeContent(Join(pieces[..j], [Backslash]), ch)
    requires v1 == v0 + (if j > 0 then [Backslash, Backslash] else []) + pieces[j]
    ensures v1 == before + EscapeContent(Join(pieces[..j + 1], [Backslash]), ch)
  {
    assert pieces[..j + 1] == pieces[..j] + [pieces[j]];
    PlainSnoc(pieces[..j], pieces[j], ch, before, v0, v1);
  }

  /** A piece free of both special characters, after a backslash when pieces
      came before it, extends the escape of the joined pieces. */
  lemma PlainSnoc(prefix: seq<string>, piece: string, ch: char, before: string, v0: string, v1: string)
    requires ch !in piece && Backslash !in piece
    requires v0 == before + EscapeContent(Join(prefix, [Backslash]), ch)
    requires v1 == v0 + (if |prefix| > 0 then [Backslash, Backslash] else []) + piece
    ensures v1 == before + EscapeContent(Join(prefix + [piece], [Backslash]), ch)
  {
    var done := EscapeContent(Join(prefix, [Backslash]), ch);
    var sep: string := if |prefix| > 0 then [Backslash, Backslash] else [];
    assert EscapeContent(Join(prefix + [piece], [Backslash]), ch) == done + sep + piece by {
      EscapeContentPlain(piece, ch);
      EscapeJoinSnoc(prefix, piece, Backslash, ch);
      assert EscapeChar(Backslash, ch) == [Backslash, Backslash];
    }
    Regroup(before, done, sep, piece);
  }

  lemma OuterStep(parts: seq<string>, idx: nat, ch: char, w0: string, before: string, w1: string)
    requires idx < |parts|
    requires w0 == [ch] + EscapeContent(Join(parts[..idx], [ch]), ch)
    requires before == w0 + (if idx > 0 then [Backslash, ch] else [])
    requires w1 == before + EscapeContent(parts[idx], ch)
    ensures w1 == [ch] + EscapeContent(Join(parts[..idx + 1], [ch]), ch)
  {
    assert parts[..idx + 1] == parts[..idx] + [parts[idx]];
    QuoteSnoc(parts[..idx], parts[idx], ch, w0, before, w1);
  }

  /** A piece of the source, after an escaped quote when pieces came before
      it, extends the escape of the joined pieces. */
  lemma QuoteSnoc(prefix: seq<string>, part: string, ch: char, w0: string, before: string, w1: string)
    requires w0 == [ch] + EscapeContent(Join(prefix, [ch]), ch)
    requires before == w0 + (if |prefix| > 0 then [Backslash, ch] else [])
    requires w1 == before + EscapeContent(part, ch)
    ensures w1 == [ch] + EscapeContent(Join(prefix + [part], [ch]), ch)
  {
    var done := EscapeContent(Join(prefix, [ch]), ch);
    var sep: string := if |prefix| > 0 then [Backslash, ch] else [];
    assert EscapeContent(Join(prefix + [part], [ch]), ch) == done + sep + EscapeContent(part, ch) by {
      EscapeJoinSnoc(prefix, part, ch, ch);
      assert EscapeChar(ch, ch) == [Backslash, ch];
    }
    Regroup([ch], done, sep, EscapeContent(part, ch));
  }

  /** Regrouping a four-part concatenation. */
  lemma Regroup(a: string, b: string, c: string, d: string)
    ensures a + b + c + d == a + (b + c + d)
  {
  }

  lemma EscapeJoinSnoc(parts: seq<string>, last: string, sep: char, q: char)
    ensures EscapeContent(Join(parts + [last], [sep]), q)
         == EscapeContent(Join(parts, [sep]), q) + (if |parts| == 0 then [] else EscapeChar(sep, q)) + EscapeContent(last, q)
  {
    JoinSnoc(parts, last, [sep]);
    var done := Join(parts, [sep]);
    if |parts| == 0 {
      assert Join(parts + [last], [sep]) == last;
      assert EscapeContent(done, q) == [];
    } else {
      assert Join(parts + [last], [sep]) == (done + [sep]) + last;
      EscapeContentAppend(done + [sep], last, q);
      EscapeContentAppend(done, [sep], q);
      assert EscapeContent([sep], q) == EscapeChar(sep, q) by {
        assert [sep][1..] == [];
      }
    }
  }

  /** `string`: a ClickHouse string literal, quoted with `'`. */
  method StringLiteral(src: string) returns (written: string)
    ensures written == Quoted(src, StringQuote)
    ensures |written| >= 2 && written[0] == StringQuote && written[|written| - 1] == StringQuote
  {
    written := Escape(src, StringQuote);
  }

  /** `identifier`: a ClickHouse identifier, quoted with a backtick. */
  method Identifier(src: string) returns (written: string)
    ensures written == Quoted(src, IdentifierQuote)
    ensures |written| >= 2 && written[0] == IdentifierQuote && written[|written| - 1] == IdentifierQuote
  {
    written := Escape(src, IdentifierQuote);
  }

  /** The token begins and ends with the quote character. */
  lemma QuotedDelimited(s: string, q: char)
    ensures var t := Quoted(s, q); |t| >= 2 && t[0] == q && t[|t| - 1] == q
  {
  }

  /** Text without the quote character or a backslash is just wrapped in quotes. */
  lemma QuotedPlain(s: string, q: char)
    requires q !in s && Backslash !in s
    ensures Quoted(s, q) == [q] + s + [q]
  {
    EscapeContentPlain(s, q);
  }

  /** The token is two quotes longer than the source, plus one character
      for each quote character and each backslash in it. */
  lemma QuotedLength(s: string, q: char)
    requires q != Backslash
    ensures |Quoted(s, q)| == |s| + 2 + Count(s, q) + Count(s, Backslash)
  {
    EscapeContentLength(s, q);
  }

  /** Drops the backslash of every `\x` pair; any other character is kept. */
  function Unescape(t: string): string
    decreases |t|
  {
    if t == [] then []
    else if t[0] == Backslash && |t| >= 2 then [t[1]] + Unescape(t[2..])
    else [t[0]] + Unescape(t[1..])
  }

  lemma {:induction false} UnescapeEscapeContent(s: string, q: char)
    ensures Unescape(EscapeContent(s, q)) == s
  {
    if s != [] {
      var e := EscapeContent(s, q);
      UnescapeEscapeContent(s[1..], q);
      if s[0] == q || s[0] == Backslash {
        assert e[2..] == EscapeContent(s[1..], q);
      } else {
        assert e[1..] == EscapeContent(s[1..], q);
      }
    }
  }

  /** Strips the two quotes from a token and unescapes what is between;
      `None` when `t` is not enclosed in `q`. */
  function Unquote(t: string, q: char): (r: Option<string>)
  {
    if |t| >= 2 && t[0] == q && t[|t| - 1] == q then Some(Unescape(t[1..|t| - 1]))
    else None
  }

  /** Unquoting the token gives back the source text. */
  lemma UnquoteQuoted(s: string, q: char)
    ensures Unquote(Quoted(s, q), q) == Some(s)
  {
    var t := Quoted(s, q);
    assert t[1..|t| - 1] == EscapeContent(s, q);
    UnescapeEscapeContent(s, q);
  }

  /** Distinct texts give distinct tokens. */
  lemma QuotedInjective(s1: string, s2: string, q: char)
    requires Quoted(s1, q) == Quoted(s2, q)
    ensures s1 == s2
  {
    UnquoteQuoted(s1, q);
    UnquoteQuoted(s2, q);
  }

  /** How a reader of the query scans a token body: a backslash takes the
      next character literally, the first unescaped `q` closes the token.
      Returns the decoded text and the input after the closing quote. */
  function ReadBody(t: string, q: char): (r: Option<(string, string)>)
    ensures r.Some? ==> |r.value.1| < |t|
    decreases |t|
  {
    if t == [] then None
    else if t[0] == Backslash then
      if |t| < 2 then None
      else match ReadBody(t[2..], q)
        case None => None
        case Some((body, rest)) => Some(([t[1]] + body, rest))
    else if t[0] == q then Some(([], t[1..]))
    else match ReadBody(t[1..], q)
      case None => None
      case Some((body, rest)) => Some(([t[0]] + body, rest))
  }

  /** Reads one token quoted with `q` from the front of `t`. */
  function ReadQuoted(t: string, q: char): (r: Option<(string, string)>)
    ensures r.Some? ==> |r.value.1| < |t|
  {
    if t != [] && t[0] == q then ReadBody(t[1..], q) else None
  }

  lemma {:induction false} ReadBodyEscaped(s: string, q: char, rest: string)
    requires q != Backslash
    ensures ReadBody(EscapeContent(s, q) + [q] + rest, q) == Some((s, rest))
  {
    if s == [] {
      assert EscapeContent(s, q) + [q] + rest == [q] + rest;
    } else {
      ReadBodyEscaped(s[1..], q, rest);
      ReadBodyEscapedCons(s[0], s[1..], q, rest);
      assert [s[0]] + s[1..] == s;
    }
  }

  /** One more source character in front of an escaped body that reads back. */
  lemma ReadBodyEscapedCons(c: char, s: string, q: char, rest: string)
    requires q != Backslash
    requires ReadBody(EscapeContent(s, q) + [q] + rest, q) == Some((s, rest))
    ensures ReadBody(EscapeContent([c] + s, q) + [q] + rest, q) == Some(([c] + s, rest))
  {
    var tail := EscapeContent(s, q) + [q] + rest;
    assert ([c] + s)[1..] == s;
    assert EscapeContent([c] + s, q) + [q] + rest == EscapeChar(c, q) + tail;
    if c == q || c == Backslash {
      assert EscapeChar(c, q) == [Backslash, c];
      ReadBodyPair(c, tail, q, s, rest);
    } else {
      assert EscapeChar(c, q) == [c];
      ReadBodySingle(c, tail, q, s, rest);
    }
  }

  /** A backslash pair stands for its second character. */
  lemma ReadBodyPair(c: char, tail: string, q: char, body: string, rest: string)
    requires ReadBody(tail, q) == Some((body, rest))
    ensures ReadBody([Backslash, c] + tail, q) == Some(([c] + body, rest))
  {
    assert ([Backslash, c] + tail)[2..] == tail;
  }

  /** Any other character but the quote stands for itself. */
  lemma ReadBodySingle(c: char, tail: string, q: char, body: string, rest: string)
    requires c != Backslash && c != q
    requires ReadBody(tail, q) == Some((body, rest))
    ensures ReadBody([c] + tail, q) == Some(([c] + body, rest))
  {
    assert ([c] + tail)[1..] == tail;
  }

  lemma ReadQuotedToken(s: string, q: char, rest: string)
    requires q != Backslash
    ensures ReadQuoted(Quoted(s, q) + rest, q) == Some((s, rest))
  {
    ReadBodyEscaped(s, q, rest);
    assert (Quoted(s, q) + rest)[1..] == EscapeContent(s, q) + [q] + rest;
  }
}
