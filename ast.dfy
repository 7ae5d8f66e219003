/**
  The element tree that the ICU MessageFormat parser (`icu_messageformat_parser`)
  produces and the converter consumes. The parser itself is not part of this
  model: the converter receives it as a function (see `Converter.XCStringConverter.parse`).
*/
module Ast {
  import opened Results

  /** `AstElement`, reduced to what the converter looks at. */
  datatype Elem =
    | Literal(value: string)
    | Argument(name: string)
    | Number(name: string)
    | Date(name: string)
    | Plural(name: string, options: seq<Case>)
    | Select(name: string, options: seq<Case>)
    | Pound
      /** Every other kind (time, tag): ignored by the formatter and by variable collection. */
    | OtherElement

  /** One option of a plural or select, in declared order: its case key and its body. */
  datatype Case = Case(key: string, body: seq<Elem>)

  /** What `Parser::parse` returns; the parser's error is kept as its description. */
  type ParseResult = Result<seq<Elem>, string>

  predicate IsPluralOrSelect(e: Elem)
  {
    e.Plural? || e.Select?
  }

  /** The top-level plural and select elements, in order (the filter in `format_optimized`). */
  function PluralsAndSelects(es: seq<Elem>): (r: seq<Elem>)
    ensures forall i :: 0 <= i < |r| ==> IsPluralOrSelect(r[i])
    ensures forall e :: e in r <==> e in es && IsPluralOrSelect(e)
  {
    if es == [] then []
    else (if IsPluralOrSelect(es[0]) then [es[0]] else []) + PluralsAndSelects(es[1..])
  }

  /** One element is kept exactly when it is a plural or a select. */
  lemma PluralsAndSelectsSingle(e: Elem)
    ensures PluralsAndSelects([e]) == if IsPluralOrSelect(e) then [e] else []
  {
    assert [e][1..] == [];
  }

  /** The filter keeps order and multiplicity: filtering `a + b` is filtering `a`, then `b`. */
  lemma {:induction false} PluralsAndSelectsAppend(a: seq<Elem>, b: seq<Elem>)
    ensures PluralsAndSelects(a + b) == PluralsAndSelects(a) + PluralsAndSelects(b)
    decreases |a|
  {
    if a == [] {
      assert a + b == b;
    } else {
      assert (a + b)[0] == a[0] && (a + b)[1..] == a[1..] + b;
      PluralsAndSelectsAppend(a[1..], b);
    }
  }

  /** An index past the middle element of `a + ([x] + b)` falls in `b`. */
  lemma IndexPastMiddle<T>(a: seq<T>, x: T, b: seq<T>, n: int)
    requires |a| < n < |a| + 1 + |b|
    ensures (a + ([x] + b))[n] == b[n - |a| - 1]
  {
    assert (a + ([x] + b))[n] == ([x] + b)[n - |a|];
  }

  /**
    A plural or select at index `i` of the template sits in the filtered list
    right after the plurals and selects before it: its index there is how many
    of them precede it, and every later entry comes from after `i`.
  */
  lemma PluralsAndSelectsAt(es: seq<Elem>, i: nat)
    requires i < |es| && IsPluralOrSelect(es[i])
    ensures var r, k := PluralsAndSelects(es), |PluralsAndSelects(es[..i])|;
      && k < |r| && r[k] == es[i]
      && forall k' :: k < k' < |r| ==> r[k'] in es[i + 1..]
  {
    var before, rest, after := es[..i], es[i..], es[i + 1..];
    assert es == before + rest;
    assert rest[0] == es[i] && rest[1..] == after;
    PluralsAndSelectsAppend(before, rest);
    var pb, pa := PluralsAndSelects(before), PluralsAndSelects(after);
    assert PluralsAndSelects(rest) == [es[i]] + pa;
    var tail := [es[i]] + pa;
    var r := pb + tail;
    assert PluralsAndSelects(es) == r;
    forall k' | |pb| < k' < |r| ensures r[k'] in after {
      IndexPastMiddle(pb, es[i], pa, k');
      assert pa[k' - |pb| - 1] in pa;
    }
  }
}
