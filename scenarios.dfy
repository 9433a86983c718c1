/** The unit tests of `query_builder.rs`, and the list-building scenarios of
    the `Separated` view, as methods whose postconditions are the expected
    query text. */
module Scenarios {
  import opened Literals
  import opened Builder
  import Escaping

  /** `build` right after `new` gives back the initial text. */
  method NewThenBuild(init: string) returns (q: string)
    ensures q == init
  {
    var qb := new QueryBuilder(init);
    q := qb.Build();
  }

  /** `test_escape_string`: `foo b'ar` followed by two backslashes escapes
      to `foo b\'ar` followed by four. */
  method EscapeStringExample() returns (r: string)
    ensures r == "foo b" + "\\'" + "ar" + "\\\\\\\\"
  {
    r := EscapeString("foo b" + "'" + "ar" + "\\\\");
    EscapeStringVector();
  }

  lemma EscapeStringVector()
    ensures EscapedString("foo b" + "'" + "ar" + "\\\\") == "foo b" + "\\'" + "ar" + "\\\\\\\\"
  {
    Escaping.EscapeContentPlain("foo b", Escaping.StringQuote);
    Escaping.EscapeContentPlain("ar", Escaping.StringQuote);
    assert EscapedString("'") == "\\'";
    assert EscapedString("\\\\") == "\\\\\\\\";
    EscapedPieces("foo b", "'", "foo b", "\\'");
    EscapedPieces("foo b" + "'", "ar", "foo b" + "\\'", "ar");
    EscapedPieces("foo b" + "'" + "ar", "\\\\", "foo b" + "\\'" + "ar", "\\\\\\\\");
  }

  /** The escape of a concatenation, from the escapes of its two halves. */
  lemma EscapedPieces(a: string, b: string, ea: string, eb: string)
    requires EscapedString(a) == ea && EscapedString(b) == eb
    ensures EscapedString(a + b) == ea + eb
  {
    Escaping.EscapeContentAppend(a, b, Escaping.StringQuote);
  }

  /** `test_push`. */
  method PushExample() returns (q: string)
    ensures q == "SELECT * FROM test WHERE foo = 'bar'"
  {
    var qb := new QueryBuilder("SELECT * FROM test");
    qb.Push(" WHERE foo = 'bar'");
    q := qb.Build();
  }

  /** `test_push_bind_i32` and `test_push_bind_u32`. */
  method PushBindIntExample() returns (q: string)
    ensures q == "SELECT * FROM test WHERE foo = 123"
  {
    var qb := new QueryBuilder("SELECT * FROM test");
    qb.Push(" WHERE foo = ");
    qb.PushBind(Int(123));
    q := qb.Build();
    assert NatToDecimal(12) == "12";
    assert Render(Int(123)) == "123";
  }

  /** `test_push_bind_str` and `test_push_bind_string`. */
  method PushBindStrExample() returns (q: string)
    ensures q == "SELECT * FROM test WHERE foo = 'bar'"
  {
    var qb := new QueryBuilder("SELECT * FROM test");
    qb.Push(" WHERE foo = ");
    qb.PushBind(Str("bar"));
    q := qb.Build();
    assert EscapedString("bar") == "bar" by {
      Escaping.EscapeContentPlain("bar", Escaping.StringQuote);
    }
  }

  /** `test_push_bind_vec_int`. */
  method PushBindVecExample() returns (q: string)
    ensures q == "SELECT * FROM test WHERE foo IN [1, 2, 3]"
  {
    var qb := new QueryBuilder("SELECT * FROM test");
    qb.Push(" WHERE foo IN ");
    qb.PushBind(List([Int(1), Int(2), Int(3)]));
    q := qb.Build();
    assert RenderAll([Int(1), Int(2), Int(3)]) == ["1", "2", "3"];
    assert Render(List([Int(1), Int(2), Int(3)])) == "[1, 2, 3]";
  }

  /** Three `push` calls through a view with separator `, ` give `a, b, c`. */
  method SeparatedExample() returns (q: string)
    ensures q == "a, b, c"
  {
    var qb := new QueryBuilder("");
    var list := qb.Separated(", ");
    list.Push("a");
    list.Push("b");
    list.Push("c");
    q := qb.Build();
  }

  /** A view with a single item writes no separator. */
  method SeparatedSingleExample(sep: string, x: string) returns (q: string)
    ensures q == x
  {
    var qb := new QueryBuilder("");
    var list := qb.Separated(sep);
    list.Push(x);
    q := qb.Build();
  }

  /** An `IN (...)` clause: raw parentheses around bound literals. */
  method InClauseExample() returns (q: string)
    ensures q == "x IN ('a', 2)"
  {
    var qb := new QueryBuilder("x IN ");
    var list := qb.Separated(", ");
    list.PushUnseparated("(");
    list.PushBind(Str("a"));
    list.PushBind(Int(2));
    list.PushUnseparated(")");
    q := qb.Build();
    assert EscapedString("a") == "a" by {
      Escaping.EscapeContentPlain("a", Escaping.StringQuote);
    }
  }
}
