/** The query builder: an append-only text buffer with raw and escaped
    appends, and the `Separated` view that writes a separator between the
    items of a list. */
module Builder {
  import opened Text
  import opened Literals

  /** One append made through a `Separated` view: `Raw` by `push_unseparated`,
      `Listed` by `push` or `push_bind` (the text being the fragment or the
      rendered literal). */
  datatype Item = Raw(text: string) | Listed(text: string)

  /** Whether a list item has been pushed, starting from `started`. */
  predicate Started(items: seq<Item>, started: bool)
  {
    started || exists k :: 0 <= k < |items| && items[k].Listed?
  }

  /** The text a sequence of appends writes when `started` says whether a
      list item came before them: a raw append writes its text, a list item
      writes the separator first unless it is the first list item. */
  function Emit(items: seq<Item>, sep: string, started: bool): string
  {
    if items == [] then []
    else match items[0]
      case Raw(t) => t + Emit(items[1..], sep, started)
      case Listed(t) => (if started then sep else []) + t + Emit(items[1..], sep, true)
  }

  function Texts(items: seq<Item>): (r: seq<string>)
    ensures |r| == |items| && forall k :: 0 <= k < |items| ==> r[k] == items[k].text
  {
    if items == [] then [] else [items[0].text] + Texts(items[1..])
  }

  predicate AllListed(items: seq<Item>)
  {
    forall k :: 0 <= k < |items| ==> items[k].Listed?
  }

  predicate AllRaw(items: seq<Item>)
  {
    forall k :: 0 <= k < |items| ==> items[k].Raw?
  }

  /** The text of two runs of appends is the text of the first followed by
      that of the second, which starts in the state the first left. */
  lemma {:induction false} EmitAppend(a: seq<Item>, b: seq<Item>, sep: string, started: bool)
    ensures Emit(a + b, sep, started) == Emit(a, sep, started) + Emit(b, sep, Started(a, started))
  {
    if a == [] {
      assert a + b == b;
    } else {
      assert (a + b)[1..] == a[1..] + b;
      var next := if a[0].Listed? then true else started;
      EmitAppend(a[1..], b, sep, next);
      assert Started(a[1..], next) == Started(a, started) by {
        if a[0].Listed? {
          assert a[0].Listed?;
        } else {
          forall k | 0 <= k < |a[1..]| ensures a[1..][k] == a[k + 1] { }
          if exists k :: 0 <= k < |a| && a[k].Listed? {
            var k :| 0 <= k < |a| && a[k].Listed?;
            assert a[1..][k - 1].Listed?;
          }
        }
      }
    }
  }

  /** Items pushed only with `push`/`push_bind` on a fresh view come out as
      x1 + sep + x2 + ... + sep + xn: no separator before the first or after
      the last. */
  lemma {:induction false} EmitListed(items: seq<Item>, sep: string, started: bool)
    requires AllListed(items)
    ensures Emit(items, sep, started) == (if started && items != [] then sep else []) + Join(Texts(items), sep)
  {
    if items != [] {
      EmitListed(items[1..], sep, true);
      assert Texts(items)[1..] == Texts(items[1..]);
    }
  }

  /** Raw appends write their texts back to back and never a separator. */
  lemma {:induction false} EmitRaw(items: seq<Item>, sep: string, started: bool)
    requires AllRaw(items)
    ensures Emit(items, sep, started) == Join(Texts(items), [])
    ensures Started(items, started) == started
  {
    if items != [] {
      EmitRaw(items[1..], sep, started);
      assert Texts(items)[1..] == Texts(items[1..]);
      assert items[0].Raw?;
      if |items| > 1 {
        assert Join(Texts(items), []) == items[0].text + Join(Texts(items[1..]), []);
      }
    }
  }

  /** The usual shape of a list: an opening fragment, the items, a closing
      fragment, as in `(a, b, c)`. */
  lemma Bracketed(open: string, items: seq<Item>, close: string, sep: string)
    requires AllListed(items)
    ensures Emit([Raw(open)] + items + [Raw(close)], sep, false) == open + Join(Texts(items), sep) + close
  {
    EmitAppend([Raw(open)] + items, [Raw(close)], sep, false);
    EmitAppend([Raw(open)], items, sep, false);
    EmitListed(items, sep, false);
    assert Emit([Raw(close)], sep, Started([Raw(open)] + items, false)) == close;
  }

  /** The source's `QueryBuilder`: owns the query text built so far. */
  class QueryBuilder {
    var query: string

    /** `QueryBuilder::new`: starts from the given text. */
    constructor (init: string)
      ensures query == init
    {
      query := init;
    }

    /** `build`: the text accumulated so far. */
    method Build() returns (q: string)
      ensures q == query
    {
      q := query;
    }

    /** `push`: appends the fragment as it is, without escaping. */
    method Push(sql: string)
      modifies this
      ensures query == old(query) + sql
    {
      query := query + sql;
    }

    /** `push_bind`: appends the literal's SQL rendering. */
    method PushBind(value: Literal)
      modifies this
      ensures query == old(query) + Render(value)
    {
      var text := FormatLiteral(value);
      query := query + text;
    }

    /** `separated`: a view over this builder that separates list items with `separator`. */
    method Separated(separator: string) returns (view: Separated)
      ensures fresh(view) && view.Valid()
      ensures view.qb == this && view.separator == separator
      ensures !view.pushSeparator && view.items == [] && view.base == query
    {
      view := new Separated(this, separator);
    }
  }

  /** The source's `Separated`: a view over a builder that writes the
      separator before every list item except the first. */
  class Separated {
    const qb: QueryBuilder
    const separator: string
    var pushSeparator: bool
    /** The builder's text when the view was made. */
    ghost var base: string
    /** Every append made through the view, in order. */
    ghost var items: seq<Item>

    ghost predicate Valid()
      reads this, qb
    {
      && qb.query == base + Emit(items, separator, false)
      && pushSeparator == Started(items, false)
    }

    constructor (qb: QueryBuilder, separator: string)
      ensures Valid()
      ensures this.qb == qb && this.separator == separator
      ensures !pushSeparator && items == [] && base == qb.query
    {
      this.qb := qb;
      this.separator := separator;
      pushSeparator := false;
      base := qb.query;
      items := [];
    }

    /** `push_unseparated`: appends the fragment without a separator and
        leaves the flag as it was. */
    method PushUnseparated(sql: string)
      requires Valid()
      modifies this, qb
      ensures Valid() && base == old(base) && items == old(items) + [Raw(sql)]
      ensures qb.query == old(qb.query) + sql
      ensures pushSeparator == old(pushSeparator)
    {
      qb.Push(sql);
      Step(base, items, Raw(sql), separator, old(qb.query), qb.query);
      items := items + [Raw(sql)];
    }

    /** `push`: appends the fragment, after the separator unless this is the
        first list item; afterwards the flag is set. */
    method Push(sql: string)
      requires Valid()
      modifies this, qb
      ensures Valid() && base == old(base) && items == old(items) + [Listed(sql)]
      ensures qb.query == old(qb.query) + (if old(pushSeparator) then separator else []) + sql
      ensures pushSeparator
    {
      if pushSeparator {
        qb.Push(separator + sql);
      } else {
        qb.Push(sql);
        pushSeparator := true;
      }
      Step(base, items, Listed(sql), separator, old(qb.query), qb.query);
      items := items + [Listed(sql)];
    }

    /** `push_bind`: the separator unless this is the first list item, then
        the literal's rendering; afterwards the flag is set. */
    method PushBind(value: Literal)
      requires Valid()
      modifies this, qb
      ensures Valid() && base == old(base) && items == old(items) + [Listed(Render(value))]
      ensures qb.query == old(qb.query) + (if old(pushSeparator) then separator else []) + Render(value)
      ensures pushSeparator
    {
      if pushSeparator {
        qb.Push(separator);
      }
      qb.PushBind(value);
      pushSeparator := true;
      Step(base, items, Listed(Render(value)), separator, old(qb.query), qb.query);
      items := items + [Listed(Render(value))];
    }
  }

  /** One append through a view keeps its invariant: the builder's text is
      the starting text followed by everything the view wrote. */
  lemma Step(base: string, items: seq<Item>, item: Item, sep: string, before: string, after: string)
    requires before == base + Emit(items, sep, false)
    requires after == before + (if item.Listed? && Started(items, false) then sep else []) + item.text
    ensures after == base + Emit(items + [item], sep, false)
    ensures Started(items + [item], false) == (Started(items, false) || item.Listed?)
  {
    EmitSnoc(items, item, sep);
  }

  /** One more append through the view: its text, after the separator if
      it is a list item and a list item came before. */
  lemma EmitSnoc(items: seq<Item>, item: Item, sep: string)
    ensures Emit(items + [item], sep, false)
         == Emit(items, sep, false) + (if item.Listed? && Started(items, false) then sep else []) + item.text
    ensures Started(items + [item], false) == (Started(items, false) || item.Listed?)
  {
    EmitAppend(items, [item], sep, false);
    if item.Listed? {
      ListedStarts(items, item.text);
    } else {
      RawKeeps(items, item.text);
    }
  }

  lemma RawKeeps(items: seq<Item>, text: string)
    ensures Started(items + [Raw(text)], false) == Started(items, false)
  {
    var all := items + [Raw(text)];
    if Started(all, false) {
      var k :| 0 <= k < |all| && all[k].Listed?;
      assert k < |items| && items[k] == all[k];
    }
    if Started(items, false) {
      var k :| 0 <= k < |items| && items[k].Listed?;
      assert all[k] == items[k];
    }
  }

  lemma ListedStarts(items: seq<Item>, text: string)
    ensures Started(items + [Listed(text)], false)
  {
    assert (items + [Listed(text)])[|items|].Listed?;
  }
}
