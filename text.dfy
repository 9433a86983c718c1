/** Text helpers shared by the escaper and the query builder: an Option type,
    joining with a separator, and Rust's `str::split` on a single character. */
module Text {

  datatype Option<T> = None | Some(value: T)

  /** The parts with `sep` between each two consecutive ones: no separator
      before the first part or after the last, and nothing at all for no parts. */
  function Join(parts: seq<string>, sep: string): string
  {
    if |parts| == 0 then []
    else if |parts| == 1 then parts[0]
    else parts[0] + sep + Join(parts[1..], sep)
  }

  /** Appending one part adds the separator only when there were parts before. */
  lemma {:induction false} JoinSnoc(parts: seq<string>, last: string, sep: string)
    ensures Join(parts + [last], sep) == Join(parts, sep) + (if |parts| == 0 then [] else sep) + last
  {
    if |parts| == 0 {
      assert parts + [last] == [last];
    } else if |parts| == 1 {
      assert parts + [last] == [parts[0], last];
      assert [parts[0], last][1..] == [last];
    } else {
      assert (parts + [last])[1..] == parts[1..] + [last];
      JoinSnoc(parts[1..], last, sep);
    }
  }

  /** The number of occurrences of `c` in `s`. */
  function Count(s: string, c: char): nat
  {
    if s == [] then 0 else (if s[0] == c then 1 else 0) + Count(s[1..], c)
  }

  /** Rust's `s.split(sep)` for a `char` separator: the maximal pieces of `s`
      between occurrences of `sep`. There is always at least one piece (the
      empty string splits into one empty piece), and a separator at either end
      of `s` yields an empty piece there. */
  function Split(s: string, sep: char): (parts: seq<string>)
    ensures |parts| == Count(s, sep) + 1
    ensures Join(parts, [sep]) == s
    ensures forall k :: 0 <= k < |parts| ==> sep !in parts[k]
  {
    if s == [] then [[]]
    else
      var rest := Split(s[1..], sep);
      if s[0] == sep then [[]] + rest
      else [[s[0]] + rest[0]] + rest[1..]
  }

  /** A character absent from the text is absent from each of its pieces. */
  lemma {:induction false} SplitAvoids(s: string, sep: char, c: char)
    requires c !in s
    ensures forall k :: 0 <= k < |Split(s, sep)| ==> c !in Split(s, sep)[k]
  {
    if s != [] {
      assert forall x :: x in s[1..] ==> x in s;
      SplitAvoids(s[1..], sep, c);
      var rest := Split(s[1..], sep);
      assert s[0] != c by { assert s[0] in s; }
      if s[0] != sep {
        assert c !in [s[0]] + rest[0];
      }
    }
  }

  /** The properties `Split` promises determine its result: any list of
      pieces free of `sep` whose join is `s` is `Split(s, sep)`. */
  lemma {:induction false} SplitUnique(s: string, sep: char, parts: seq<string>)
    requires |parts| >= 1
    requires Join(parts, [sep]) == s
    requires forall k :: 0 <= k < |parts| ==> sep !in parts[k]
    ensures parts == Split(s, sep)
    decreases |s|
  {
    if s == [] {
    } else if parts[0] == [] {
      assert |parts| > 1;
      assert s[0] == sep && s[1..] == Join(parts[1..], [sep]);
      SplitUnique(s[1..], sep, parts[1..]);
      assert parts == [[]] + parts[1..];
    } else {
      var tail := [parts[0][1..]] + parts[1..];
      assert parts[0][0] != sep by { assert parts[0][0] in parts[0]; }
      if |parts| == 1 {
        assert Join(tail, [sep]) == s[1..];
      } else {
        assert Join(tail, [sep]) == parts[0][1..] + [sep] + Join(parts[1..], [sep]);
        assert s == parts[0] + [sep] + Join(parts[1..], [sep]);
        assert s[1..] == Join(tail, [sep]);
      }
      forall k | 0 <= k < |tail| ensures sep !in tail[k] {
        if k == 0 {
          assert forall c :: c in parts[0][1..] ==> c in parts[0];
        } else {
          assert tail[k] == parts[k];
        }
      }
      SplitUnique(s[1..], sep, tail);
      assert s[0] == parts[0][0];
      assert parts[0] == [s[0]] + tail[0];
      assert parts == [[s[0]] + tail[0]] + tail[1..];
    }
  }
}
