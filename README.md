# ClickHouse SQL escaping and query builder, in Dafny

This project models the SQL text layer of the `clickhouse` Rust crate and proves its properties in Dafny:

- **the escaper** (`src/sql/mod.rs`):
  - `string` quotes a text with `'`;
  - `identifier` quotes it with a backtick;
  - both go through `escape`, which puts a backslash before every quote character and every backslash;
- **the literal formatter** (`SqlLiteral` in `src/sql/query_builder.rs`):
  - integers render in decimal;
  - strings go through `escape_string`, between single quotes;
  - vectors render as `[a, b, c]`, recursively;
- **the query builder**: `QueryBuilder`, an append-only query text, and its `Separated` view, which writes a separator before every list item except the first.

Modules:

- `Text` (`text.dfy`): `Option`, `Join`, and a model of Rust's `str::split` on one character, with the proof that its result is the unique sep-free decomposition.
- `Escaping` (`escape.dfy`):
  - the per-character specification `EscapeContent` / `Quoted`;
  - the source's two nested split loops as the method `Escape`, proved equal to `Quoted`;
  - `string` and `identifier`;
  - an unescaper and a reader a consumer of the query would use. Reading a token back gives the text (round trip), and distinct texts give distinct tokens.
- `Literals` (`literal.dfy`):
  - the `Literal` datatype and its rendering `Render`;
  - the loops of `escape_string` and `Vec<T>::fmt` as methods proved against `Render`;
  - a parser `ParseLiteral` with the proof that it reads every rendered literal back and leaves the following text alone (an integer only when no digit follows it: `1` followed by `2` reads as `12`), so rendering is injective.
- `Builder` (`builder.dfy`):
  - `QueryBuilder` and `Separated` as classes. Where the Rust writes into a `String`, they update `query`.
  - `Separated` keeps a ghost record of every append made through it, in order. Its invariant `Valid()` says the builder's text is the text it started from followed by `Emit(items)`.
  - `Emit` is the specification of the separator rule. Lemmas prove what it means: list items come out as `Join(texts, separator)`, with no leading or trailing separator; raw appends never get one; `( a, b )`-style brackets work.
- `Scenarios` (`scenarios.dfy`): the crate's unit tests and the list-building uses of the view, as methods whose postconditions are the expected query strings.

The `fmt::Write` sink that `escape` writes into is modelled as the string of characters written, which `Escape` returns.

`test_escape_string` uses raw strings: its input `r#"foo b'ar\\"#` ends in two backslashes and the expected value in four. `Scenarios.EscapeStringVector` states this.

## Model

| member | source | states |
|---|---|---|
| Text.Split | src/sql/mod.rs:21-27 | `split` on one character gives one more piece than there are separators; the pieces joined with the separator give back the text; no piece contains the separator |
| Text.SplitUnique | src/sql/mod.rs:21-27 | any sep-free pieces whose join is the text are exactly the `split` result, so the model of `split` is the only one with its promised properties |
| Text.SplitAvoids | src/sql/mod.rs:27 | a character absent from a segment is absent from each of its backslash pieces, so the inner loop writes only escape-free text |
| Escaping.Escape | src/sql/mod.rs:17-37 | the nested split-and-write loops of `escape` write exactly the opening quote, each character's escape in order (`\q` for the quote, `\\` for a backslash, the character itself otherwise) and the closing quote |
| Escaping.StringLiteral | src/sql/mod.rs:8-10 | `string` writes the `'`-quoted escape of the text, beginning and ending with `'` |
| Escaping.Identifier | src/sql/mod.rs:13-15 | `identifier` writes the backtick-quoted escape of the text, beginning and ending with a backtick |
| Escaping.EscapeContentAppend | src/sql/mod.rs:17-37 | escaping works character by character: the escape of a concatenation is the concatenation of the escapes |
| Escaping.QuotedDelimited | src/sql/mod.rs:17-37 | every token is at least two characters and starts and ends with its quote character |
| Escaping.QuotedPlain | src/sql/mod.rs:17-37 | text with neither the quote nor a backslash (newlines included) is only wrapped in quotes |
| Escaping.QuotedLength | src/sql/mod.rs:17-37 | a token is two characters longer than its text, plus one for each quote character and each backslash in it |
| Escaping.UnescapeEscapeContent | src/sql/mod.rs:17-37 | removing the escaping backslashes gives back the original text |
| Escaping.UnquoteQuoted | src/sql/mod.rs:17-37 | stripping the quotes of a token and unescaping gives back its text |
| Escaping.QuotedInjective | src/sql/mod.rs:17-37 | two texts with the same token are equal |
| Escaping.ReadBodyEscaped | src/sql/mod.rs:17-37 | a reader that takes the character after a backslash literally stops at the closing quote of an escaped body, whatever follows, and decodes the original text |
| Escaping.ReadQuotedToken | src/sql/mod.rs:17-37 | a reader scanning a token followed by any text reads back exactly the original text and leaves the following text untouched, so an escaped value cannot end the token early |
| Literals.IntToDecimal | src/sql/query_builder.rs:145-179 | the `Display` text of an integer is non-empty and begins with `-` exactly when the integer is negative (its digits and their value: `IntToDecimalValue`) |
| Literals.NatToDecimal | src/sql/query_builder.rs:145-179 | an integer's decimal text is non-empty, all digits, and starts with `0` only for zero |
| Literals.DigitsValueNatToDecimal | src/sql/query_builder.rs:145-179 | the decimal digits denote the number |
| Literals.IntToDecimalValue | src/sql/query_builder.rs:145-179 | an integer's `Display` text has a leading `-` exactly for negative values, and its digits denote the magnitude |
| Literals.RenderAll | src/sql/query_builder.rs:130-138 | the element renderings keep the vector's length and order |
| Literals.EscapeString | src/sql/query_builder.rs:196-206 | the loop of `escape_string` yields `\'` for every quote, `\\` for every backslash and every other character unchanged, in order |
| Literals.FormatLiteral | src/sql/query_builder.rs:111-179 | the `SqlLiteral` implementations write integers in decimal, strings between single quotes through `escape_string`, and vectors as `[` + elements separated by `, ` (none before the first) + `]` |
| Literals.RenderStrIsStringLiteral | src/sql/query_builder.rs:111-121 | a bound string renders exactly as `string` in `src/sql/mod.rs` quotes the same text |
| Literals.RenderEmptyList | src/sql/query_builder.rs:125-143 | an empty vector renders as `[]` |
| Literals.ReadDigitsPrefix | src/sql/query_builder.rs:145-179 | a run of digits followed by a non-digit is read back as that run |
| Literals.ParseRender | src/sql/query_builder.rs:111-179 | reading a rendered literal gives back the literal and leaves whatever followed it untouched (for an integer, when a non-digit follows) |
| Literals.ParseRenderInt | src/sql/query_builder.rs:145-179 | an integer's rendering reads back as the same integer |
| Literals.ParseRenderNegative | src/sql/query_builder.rs:145-179 | a negative integer's rendering, a minus sign and the digits of its magnitude, reads back as the same integer |
| Literals.ParseRenderStr | src/sql/query_builder.rs:111-121 | a string's rendering reads back as the same string |
| Literals.ParseRenderElements | src/sql/query_builder.rs:125-143 | the `, `-separated element list of a vector, closed by `]`, reads back as the same elements |
| Literals.RenderInjective | src/sql/query_builder.rs:111-179 | two literals with the same SQL text are equal |
| Builder.EmitAppend | src/sql/query_builder.rs:59-86 | the text written by two runs of view appends is the first run's text followed by the second's, which starts in the state the first left |
| Builder.EmitListed | src/sql/query_builder.rs:65-86 | items pushed with `push`/`push_bind` on a fresh view come out joined by the separator, with none before the first or after the last |
| Builder.EmitRaw | src/sql/query_builder.rs:59-62 | `push_unseparated` appends write their texts back to back, never write a separator and do not change the flag |
| Builder.Bracketed | src/sql/query_builder.rs:59-86 | an unseparated opening fragment, list items and an unseparated closing fragment give `open` + items joined by the separator + `close` |
| Builder.EmitSnoc | src/sql/query_builder.rs:59-86 | one more append adds its text, after the separator exactly when it is a list item and a list item came before, and sets the flag exactly for a list item |
| Builder.Step | src/sql/query_builder.rs:59-86 | each view append keeps the view invariant: the builder's text is the starting text followed by the text of all appends so far |
| Builder.QueryBuilder.constructor | src/sql/query_builder.rs:14-20 | `new` starts from the given text |
| Builder.QueryBuilder.Build | src/sql/query_builder.rs:22-24 | `build` returns the accumulated text |
| Builder.QueryBuilder.Push | src/sql/query_builder.rs:26-29 | `push` appends the fragment unescaped |
| Builder.QueryBuilder.PushBind | src/sql/query_builder.rs:32-37 | `push_bind` appends the literal's SQL rendering |
| Builder.QueryBuilder.Separated | src/sql/query_builder.rs:39-41 | `separated` returns a fresh view over this builder, with the separator pending flag off and no appends recorded |
| Builder.Separated.constructor | src/sql/query_builder.rs:51-57 | a new view starts with the flag off and its invariant holding |
| Builder.Separated.PushUnseparated | src/sql/query_builder.rs:59-62 | appends the fragment with no separator, leaves the flag as it was, keeps the invariant |
| Builder.Separated.Push | src/sql/query_builder.rs:65-75 | appends the separator (only if a list item came before) and the fragment, sets the flag, keeps the invariant |
| Builder.Separated.PushBind | src/sql/query_builder.rs:78-86 | appends the separator (only if a list item came before) and the literal's rendering, sets the flag, keeps the invariant |
| Scenarios.NewThenBuild | src/sql/query_builder.rs:14-24 | `build` right after `new` returns the initial text |
| Scenarios.EscapeStringExample | src/sql/query_builder.rs:214-216 | `escape_string` of `foo b'ar` and two backslashes is `foo b\'ar` and four backslashes |
| Scenarios.EscapeStringVector | src/sql/query_builder.rs:214-216 | the same expected value, stated on the specification of `escape_string` |
| Scenarios.PushExample | src/sql/query_builder.rs:220-223 | `test_push`: the fragment is appended verbatim |
| Scenarios.PushBindIntExample | src/sql/query_builder.rs:228-239 | `test_push_bind_i32` / `_u32`: binding 123 appends `123` |
| Scenarios.PushBindStrExample | src/sql/query_builder.rs:252-263 | `test_push_bind_str` / `_string`: binding `bar` appends `'bar'` |
| Scenarios.PushBindVecExample | src/sql/query_builder.rs:268-271 | `test_push_bind_vec_int`: binding `[1, 2, 3]` appends `[1, 2, 3]` |
| Scenarios.SeparatedExample | src/sql/query_builder.rs:65-75 | three `push`es of `a`, `b`, `c` through a `, ` view give `a, b, c` |
| Scenarios.SeparatedSingleExample | src/sql/query_builder.rs:65-75 | a view with one item writes no separator, whatever the separator |
| Scenarios.InClauseExample | src/sql/query_builder.rs:59-86 | `(`, two bound literals, `)` through a `, ` view give `('a', 2)` |

## Left out

- Write failures: the crate propagates errors of the `fmt::Write` sink and panics on them in `push`/`push_bind` (`expect`). Writing to a Dafny string cannot fail, so these paths are not modelled.
- Floating-point literals (`SqlLiteral` for `f32`/`f64`, `src/sql/query_builder.rs:182-192`) and their test: Rust's shortest round-trip float formatting is not modelled.
- Integer widths: `Literal.Int` is an unbounded integer standing for `i8` through `u32`. Every value of those types prints in decimal with a `-` for negatives, so no wrap-around arises; the types' ranges are not modelled.
- `Literal.List` may mix element kinds, where a Rust `Vec<T>` is homogeneous. The rendering and the proofs do not depend on this.
- `push` and `push_unseparated` take any `Display` value; the model takes its already formatted text.
- `Wrapper` and `WrapperRef` only forward to `SqlLiteral::fmt` and are folded into `PushBind` and `FormatLiteral`.
- Borrowing: in Rust, a `Separated` view borrows its builder exclusively and cannot outlive it, and `build` consumes the builder. In the Dafny model, a caller holding the builder can still append to it directly, which breaks the view's `Valid()`. Every view method requires `Valid()`, so such misuse cannot be followed by a view call. `Build` leaves the builder usable.
- Newlines are passed through unescaped, as in the source. This is covered by `Escaping.QuotedPlain`; no extra rule is modelled.
- `Escaping.ReadBodyEscaped`, `Escaping.ReadQuotedToken`, `Escaping.QuotedLength` and `Escaping.EscapeContentLength` require the quote character not to be a backslash. With a backslash as the quote, the length formula would count each backslash twice and the reader would not apply. The crate only uses `'` and a backtick; `Escaping.Escape` itself is proved for any quote character.
