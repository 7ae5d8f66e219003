/**
  The positional formatter (`XCStringFormatter`): renders one element at a time
  to printf-style String Catalog text, numbering the arguments it meets.

  The pure functions `Position`, `Render` and `RenderAll` say what one call
  does to the formatter's state (a `Table`); the class `XCStringFormatter`
  is the formatter itself and its methods are proved to behave as they say.
  The lemmas at the end state what the numbering amounts to: positions
  1, 2, 3, ... handed out in first-occurrence order, stable once given.
*/
module Formatter {
  import opened Results
  import opened Ast

  /** `usize::MAX` on a 64-bit target: `next_position` cannot go past it. */
  const USIZE_MAX: nat := 0xFFFF_FFFF_FFFF_FFFF

  /** `FormatterMode`: whole strings, or the case bodies of a substitution. */
  datatype FormatterMode = StringUnit | Plural

  datatype FormatError = PositionOverflow(name: string)

  /** The formatter's state: `argument_positions` and `next_position`. */
  datatype Table = Table(positions: map<string, nat>, next: nat)

  /** The state of `XCStringFormatter::new`. */
  const Fresh: Table := Table(map[], 1)

  /** `next_position` is a `usize` that starts at 1 and never decreases. */
  predicate WellFormed(t: Table)
  {
    1 <= t.next <= USIZE_MAX
  }

  /** Every slot of `t` is still in `t'` with the same position. */
  predicate Extends(t': Table, t: Table)
  {
    forall n :: n in t.positions ==> n in t'.positions && t'.positions[n] == t.positions[n]
  }

  datatype Assigned = Assigned(result: Result<nat, FormatError>, table: Table)
  datatype Rendered = Rendered(result: Result<string, FormatError>, table: Table)

  /**
    `get_or_insert_position`: a known name keeps its slot; a new name is
    recorded at `next` and the counter is then advanced with a checked add,
    which fails (after the insertion) when `next` is already `usize::MAX`.
  */
  function Position(t: Table, name: string): (a: Assigned)
    ensures WellFormed(t) ==> WellFormed(a.table)
    ensures Extends(a.table, t)
    ensures a.table.positions.Keys == t.positions.Keys + {name}
    ensures a.result.Ok? ==> a.table.positions[name] == a.result.value
    ensures name in t.positions ==> a == Assigned(Ok(t.positions[name]), t)
    ensures name !in t.positions ==>
      && a.table.positions[name] == t.next
      && (a.result.Ok? <==> t.next < USIZE_MAX)
      && (a.result.Ok? ==> a.table.next == t.next + 1)
      && (a.result.Err? ==> a.table.next == t.next)
  {
    if name in t.positions then Assigned(Ok(t.positions[name]), t)
    else
      var inserted := t.positions[name := t.next];
      if t.next + 1 > USIZE_MAX then Assigned(Err(PositionOverflow(name)), Table(inserted, t.next))
      else Assigned(Ok(t.next), Table(inserted, t.next + 1))
  }

  /** The decimal digit for `d`. */
  function Digit(d: nat): char
    requires d < 10
  {
    "0123456789"[d]
  }

  /** `usize`'s `Display`: the decimal numeral of `n`, without leading zeros. */
  function DecimalString(n: nat): (s: string)
    ensures |s| >= 1
    ensures forall i :: 0 <= i < |s| ==> '0' <= s[i] <= '9'
    ensures |s| > 1 ==> s[0] != '0'
  {
    if n < 10 then [Digit(n)] else DecimalString(n / 10) + [Digit(n % 10)]
  }

  /** Reads a numeral back; the inverse of `DecimalString`. */
  function DecimalValue(s: string): nat
    requires forall i :: 0 <= i < |s| ==> '0' <= s[i] <= '9'
  {
    if s == [] then 0 else 10 * DecimalValue(s[..|s| - 1]) + (s[|s| - 1] as int - '0' as int)
  }

  /** A digit reads back as its value. */
  lemma DigitValue(d: nat)
    requires d < 10
    ensures Digit(d) as int - '0' as int == d
  {
    match d
    case 0 => case 1 => case 2 => case 3 => case 4 =>
    case 5 => case 6 => case 7 => case 8 => case 9 =>
  }

  lemma {:induction false} DecimalRoundTrip(n: nat)
    ensures DecimalValue(DecimalString(n)) == n
  {
    if n < 10 {
      DigitValue(n);
      assert DecimalString(n)[..0] == [];
    } else {
      DecimalRoundTrip(n / 10);
      DigitValue(n % 10);
      var s := DecimalString(n);
      assert s[..|s| - 1] == DecimalString(n / 10);
      assert s[|s| - 1] == Digit(n % 10);
    }
  }

  /** `%<pos>$@`: an object argument. */
  function ObjectRef(position: nat): string
  {
    "%" + DecimalString(position) + "$@"
  }

  /** `%<pos>$lld`: an integer argument. */
  function IntegerRef(position: nat): string
  {
    "%" + DecimalString(position) + "$lld"
  }

  /** `%#@<name>@`: a reference to the substitution named `name`. */
  function SubstitutionRef(name: string): string
  {
    "%#@" + name + "@"
  }

  /** The name an element numbers: arguments, numbers and dates do, nothing else does. */
  function ReferencedName(e: Elem): Option<string>
  {
    match e
    case Argument(name) => Some(name)
    case Number(name) => Some(name)
    case Date(name) => Some(name)
    case _ => None
  }

  /** The text an element renders to once its name sits at `position`. */
  function Placeholder(mode: FormatterMode, e: Elem, position: nat): string
  {
    match e
    case Argument(_) => if mode == FormatterMode.StringUnit then ObjectRef(position) else "%arg"
    case Number(_) => IntegerRef(position)
    case _ => ObjectRef(position)
  }

  /** `format`: one element, in the given mode, against table `t`. */
  function Render(mode: FormatterMode, t: Table, e: Elem): (r: Rendered)
    ensures WellFormed(t) ==> WellFormed(r.table)
    ensures Extends(r.table, t)
    ensures ReferencedName(e).None? ==> r == Rendered(r.result, t) && r.result.Ok?
    ensures ReferencedName(e).Some? ==> r.table.positions.Keys == t.positions.Keys + {ReferencedName(e).value}
  {
    match e
    case Literal(value) => Rendered(Ok(value), t)
    case Plural(name, _) => Rendered(Ok(SubstitutionRef(name)), t)
    case Select(name, _) => Rendered(Ok(SubstitutionRef(name)), t)
    case Pound => Rendered(Ok("#"), t)
    case OtherElement => Rendered(Ok(""), t)
    case _ =>
      var a := Position(t, ReferencedName(e).value);
      if a.result.Err? then Rendered(Err(a.result.error), a.table)
      else Rendered(Ok(Placeholder(mode, e, a.result.value)), a.table)
  }

  /** The names `es` numbers, in order, repeats included. */
  function References(es: seq<Elem>): seq<string>
  {
    if es == [] then []
    else (if ReferencedName(es[0]).Some? then [ReferencedName(es[0]).value] else []) + References(es[1..])
  }

  /** `format_batch`: the elements' texts concatenated in order; the first error stops it. */
  function RenderAll(mode: FormatterMode, t: Table, es: seq<Elem>): (r: Rendered)
    ensures WellFormed(t) ==> WellFormed(r.table)
    ensures Extends(r.table, t)
    ensures r.result.Ok? ==> r.table.positions.Keys == t.positions.Keys + (set n | n in References(es))
    decreases |es|
  {
    if es == [] then Rendered(Ok(""), t)
    else
      var first := Render(mode, t, es[0]);
      if first.result.Err? then first
      else Prefixed(first.result.value, RenderAll(mode, first.table, es[1..]))
  }

  /** `text` put in front of a successful rendering; an error stays as it is. */
  function Prefixed(text: string, r: Rendered): (p: Rendered)
    ensures text == "" ==> p == r
  {
    if r.result.Ok? then
      assert text == "" ==> text + r.result.value == r.result.value;
      Rendered(Ok(text + r.result.value), r.table)
    else r
  }

  lemma PrefixedTwice(a: string, b: string, r: Rendered)
    ensures Prefixed(a, Prefixed(b, r)) == Prefixed(a + b, r)
  {
    if r.result.Ok? {
      assert a + (b + r.result.value) == (a + b) + r.result.value;
    }
  }

  /** One step of `RenderAll` over a suffix of `es`. */
  lemma RenderAllStep(mode: FormatterMode, t: Table, es: seq<Elem>, i: nat)
    requires i < |es|
    ensures var first := Render(mode, t, es[i]);
      RenderAll(mode, t, es[i..]) ==
        if first.result.Err? then first
        else Prefixed(first.result.value, RenderAll(mode, first.table, es[i + 1..]))
  {
    assert es[i..][0] == es[i];
    assert es[i..][1..] == es[i + 1..];
  }

  /** `XCStringFormatter`: a mode, the position table and the counter. */
  class XCStringFormatter {
    const mode: FormatterMode
    var argumentPositions: map<string, nat>
    var nextPosition: nat

    function State(): Table
      reads this
    {
      Table(argumentPositions, nextPosition)
    }

    ghost predicate Valid()
      reads this
    {
      WellFormed(State())
    }

    /** `new`: an empty table and the counter at 1. */
    constructor (mode: FormatterMode)
      ensures this.mode == mode
      ensures argumentPositions == map[] && nextPosition == 1
      ensures State() == Fresh && Valid()
    {
      this.mode := mode;
      argumentPositions := map[];
      nextPosition := 1;
    }

    method GetOrInsertPosition(name: string) returns (r: Result<nat, FormatError>)
      requires Valid()
      modifies this
      ensures Valid()
      ensures Assigned(r, State()) == Position(old(State()), name)
    {
      if name in argumentPositions {
        r := Ok(argumentPositions[name]);
      } else {
        var position := nextPosition;
        argumentPositions := argumentPositions[name := position];
        if nextPosition + 1 > USIZE_MAX {
          return Err(PositionOverflow(name));
        }
        nextPosition := nextPosition + 1;
        r := Ok(position);
      }
    }

    method Format(e: Elem) returns (r: Result<string, FormatError>)
      requires Valid()
      modifies this
      ensures Valid()
      ensures Rendered(r, State()) == Render(mode, old(State()), e)
    {
      match e {
        case Literal(value) =>
          r := Ok(value);
        case Argument(name) =>
          var position :- GetOrInsertPosition(name);
          if mode == FormatterMode.StringUnit {
            r := Ok(ObjectRef(position));
          } else {
            r := Ok("%arg");
          }
        case Number(name) =>
          var position :- GetOrInsertPosition(name);
          r := Ok(IntegerRef(position));
        case Date(name) =>
          var position :- GetOrInsertPosition(name);
          r := Ok(ObjectRef(position));
        case Plural(name, _) =>
          r := Ok(SubstitutionRef(name));
        case Select(name, _) =>
          r := Ok(SubstitutionRef(name));
        case Pound =>
          r := Ok("#");
        case OtherElement =>
          r := Ok("");
      }
    }

    /** `format_batch`: formats the elements in order, pushing each piece onto the result. */
    method FormatBatch(es: seq<Elem>) returns (r: Result<string, FormatError>)
      requires Valid()
      modifies this
      ensures Valid()
      ensures Rendered(r, State()) == RenderAll(mode, old(State()), es)
    {
      var result := "";
      assert es[0..] == es;
      for i := 0 to |es|
        invariant Valid()
        invariant RenderAll(mode, old(State()), es) == Prefixed(result, RenderAll(mode, State(), es[i..]))
      {
        RenderAllStep(mode, State(), es, i);
        var piece := Format(es[i]);
        if piece.Err? {
          r := piece;
          return;
        }
        PrefixedTwice(result, piece.value, RenderAll(mode, State(), es[i + 1..]));
        result := result + piece.value;
      }
      assert es[|es|..] == [] && result + "" == result;
      r := Ok(result);
    }

    /**
      `format_batch_optimized`: the same pieces, written inline, with an early
      return for an empty input; it has the same effect as `FormatBatch`.
    */
    method FormatBatchOptimized(es: seq<Elem>) returns (r: Result<string, FormatError>)
      requires Valid()
      modifies this
      ensures Valid()
      ensures Rendered(r, State()) == RenderAll(mode, old(State()), es)
      ensures es == [] ==> r == Ok("")
    {
      if es == [] {
        return Ok("");
      }
      var result := "";
      assert es[0..] == es;
      for i := 0 to |es|
        invariant Valid()
        invariant RenderAll(mode, old(State()), es) == Prefixed(result, RenderAll(mode, State(), es[i..]))
      {
        RenderAllStep(mode, State(), es, i);
        ghost var before := State();
        var piece := "";
        match es[i] {
          case Literal(value) =>
            piece := value;
          case Argument(name) =>
            var position :- GetOrInsertPosition(name);
            piece := if mode == FormatterMode.StringUnit then ObjectRef(position) else "%arg";
          case Number(name) =>
            var position :- GetOrInsertPosition(name);
            piece := IntegerRef(position);
          case Date(name) =>
            var position :- GetOrInsertPosition(name);
            piece := ObjectRef(position);
          case Plural(name, _) =>
            piece := SubstitutionRef(name);
          case Select(name, _) =>
            piece := SubstitutionRef(name);
          case Pound =>
            piece := "#";
          case OtherElement =>
        }
        assert Render(mode, before, es[i]) == Rendered(Ok(piece), State());
        PrefixedTwice(result, piece, RenderAll(mode, State(), es[i + 1..]));
        result := result + piece;
      }
      assert es[|es|..] == [] && result + "" == result;
      r := Ok(result);
    }
  }

  // ----- What the numbering amounts to -----

  predicate Distinct(names: seq<string>)
  {
    forall i, j :: 0 <= i < j < |names| ==> names[i] != names[j]
  }

  /** `names` followed by the members of `more` it does not hold yet, each once, in first-occurrence order. */
  function FirstOccurrences(names: seq<string>, more: seq<string>): (r: seq<string>)
    ensures |r| >= |names|
    ensures r[..|names|] == names
    ensures Distinct(names) ==> Distinct(r)
    ensures forall n :: n in r <==> n in names || n in more
    decreases |more|
  {
    if more == [] then names
    else
      var next := if more[0] in names then names else names + [more[0]];
      var r := FirstOccurrences(next, more[1..]);
      assert r[..|names|] == r[..|next|][..|names|];
      r
  }

  /**
    The table holds exactly the names `names`, distinct, at positions
    1 .. |names| in that order, and the counter is next after them.
  */
  ghost predicate Dense(t: Table, names: seq<string>)
  {
    && Distinct(names)
    && t.next == |names| + 1
    && t.positions.Keys == (set n | n in names)
    && forall i :: 0 <= i < |names| ==> t.positions[names[i]] == i + 1
  }

  /**
    A lookup on a dense table: the name gets the 1-based rank of its first
    occurrence, a new name is appended, and the call fails exactly when the
    table would then hold `usize::MAX` names.
  */
  lemma PositionDense(t: Table, names: seq<string>, name: string)
    requires Dense(t, names) && |names| < USIZE_MAX
    ensures var names' := if name in names then names else names + [name];
      var a := Position(t, name);
      && (a.result.Ok? <==> |names'| < USIZE_MAX)
      && (a.result.Ok? ==> Dense(a.table, names') && 1 <= a.result.value <= |names'| && names'[a.result.value - 1] == name)
  {
    var names' := if name in names then names else names + [name];
    var a := Position(t, name);
    if name in names {
      var i :| 0 <= i < |names| && names[i] == name;
      assert t.positions[names[i]] == i + 1;
    } else {
      assert name !in t.positions;
      if a.result.Ok? {
        assert a.table.positions.Keys == (set n | n in names');
        forall i | 0 <= i < |names'| ensures a.table.positions[names'[i]] == i + 1 {
          if i < |names| {
            assert names'[i] == names[i] && names[i] != name;
          }
        }
      }
    }
  }

  /**
    Formatting a sequence from a dense table: the names met are appended in
    first-occurrence order, and the whole call fails exactly when that would
    take the table to `usize::MAX` names.
  */
  lemma {:induction false} RenderAllDense(mode: FormatterMode, t: Table, names: seq<string>, es: seq<Elem>)
    requires Dense(t, names) && |names| < USIZE_MAX
    ensures var names' := FirstOccurrences(names, References(es));
      var r := RenderAll(mode, t, es);
      && (r.result.Ok? <==> |names'| < USIZE_MAX)
      && (r.result.Ok? ==> Dense(r.table, names'))
    decreases |es|, 1
  {
    if es != [] {
      match ReferencedName(es[0]) {
        case None =>
          assert References(es) == References(es[1..]);
          RenderAllDense(mode, t, names, es[1..]);
        case Some(name) =>
          RenderAllDenseNamed(mode, t, names, es, name);
      }
    }
  }

  /** `RenderAllDense` when the first element numbers `name`. */
  lemma {:induction false} RenderAllDenseNamed(mode: FormatterMode, t: Table, names: seq<string>, es: seq<Elem>, name: string)
    requires Dense(t, names) && |names| < USIZE_MAX
    requires es != [] && ReferencedName(es[0]) == Some(name)
    ensures var names' := FirstOccurrences(names, References(es));
      var r := RenderAll(mode, t, es);
      && (r.result.Ok? <==> |names'| < USIZE_MAX)
      && (r.result.Ok? ==> Dense(r.table, names'))
    decreases |es|, 0
  {
    var rest := References(es[1..]);
    var next := if name in names then names else names + [name];
    assert References(es) == [name] + rest;
    assert ([name] + rest)[1..] == rest;
    assert FirstOccurrences(names, References(es)) == FirstOccurrences(next, rest);
    PositionDense(t, names, name);
    var first := Render(mode, t, es[0]);
    assert first.table == Position(t, name).table;
    if first.result.Ok? {
      RenderAllDense(mode, first.table, next, es[1..]);
    } else {
      var all := FirstOccurrences(next, rest);
      assert |all| >= |next|;
    }
  }

  /**
    From a fresh formatter: the positions are 1 .. n for the n distinct names
    referenced, in first-occurrence order, a repeated name keeps its first
    position, and formatting fails only with `usize::MAX` or more names.
  */
  lemma PositionsFollowFirstOccurrence(mode: FormatterMode, es: seq<Elem>)
    ensures var names := FirstOccurrences([], References(es));
      var r := RenderAll(mode, Fresh, es);
      && (r.result.Ok? <==> |names| < USIZE_MAX)
      && (r.result.Ok? ==> Dense(r.table, names))
  {
    RenderAllDense(mode, Fresh, [], es);
  }

  /**
    The text of `e` with its name's position read from the final table `p`:
    a literal verbatim, a plural or select as a reference to its
    substitution, `#` for a pound sign, nothing for any other kind.
  */
  function Instantiate(mode: FormatterMode, p: map<string, nat>, e: Elem): string
  {
    match e
    case Literal(value) => value
    case Plural(name, _) => SubstitutionRef(name)
    case Select(name, _) => SubstitutionRef(name)
    case Pound => "#"
    case OtherElement => ""
    case _ =>
      var name := ReferencedName(e).value;
      if name in p then Placeholder(mode, e, p[name]) else ""
  }

  function InstantiateAll(mode: FormatterMode, p: map<string, nat>, es: seq<Elem>): string
  {
    if es == [] then "" else Instantiate(mode, p, es[0]) + InstantiateAll(mode, p, es[1..])
  }

  /** The text of a concatenation is the concatenation of the texts. */
  lemma {:induction false} InstantiateAllAppend(mode: FormatterMode, p: map<string, nat>, a: seq<Elem>, b: seq<Elem>)
    ensures InstantiateAll(mode, p, a + b) == InstantiateAll(mode, p, a) + InstantiateAll(mode, p, b)
    decreases |a|
  {
    if a != [] {
      assert (a + b)[1..] == a[1..] + b;
      InstantiateAllAppend(mode, p, a[1..], b);
    } else {
      assert a + b == b;
    }
  }

  /** The text of `es` is its elements' texts in order: element `i` sits between those before it and those after it. */
  lemma InstantiateAllAt(mode: FormatterMode, p: map<string, nat>, es: seq<Elem>, i: nat)
    requires i < |es|
    ensures InstantiateAll(mode, p, es) ==
      InstantiateAll(mode, p, es[..i]) + Instantiate(mode, p, es[i]) + InstantiateAll(mode, p, es[i + 1..])
  {
    var before, tail, after := es[..i], [es[i]] + es[i + 1..], es[i + 1..];
    assert es == before + tail;
    InstantiateAllAppend(mode, p, before, tail);
    assert tail[0] == es[i] && tail[1..] == after;
    var x := Instantiate(mode, p, es[i]);
    assert InstantiateAll(mode, p, tail) == x + InstantiateAll(mode, p, after);
    var u, w := InstantiateAll(mode, p, before), InstantiateAll(mode, p, after);
    assert u + (x + w) == u + x + w;
  }

  /**
    The formatted text is the template with every argument, number and date
    replaced by the placeholder for its position in the final table: a
    position, once given, is never changed by later elements.
  */
  lemma {:induction false} RenderAllInstantiates(mode: FormatterMode, t: Table, es: seq<Elem>)
    ensures var r := RenderAll(mode, t, es);
      r.result.Ok? ==> r.result.value == InstantiateAll(mode, r.table.positions, es)
    decreases |es|
  {
    if es != [] {
      var first := Render(mode, t, es[0]);
      if first.result.Ok? {
        var rest := RenderAll(mode, first.table, es[1..]);
        RenderAllInstantiates(mode, first.table, es[1..]);
        if rest.result.Ok? {
          RenderedInstantiates(mode, t, es[0], rest.table.positions);
        }
      }
    }
  }

  /** A formatted element reads the same against any table that keeps the positions it was given. */
  lemma RenderedInstantiates(mode: FormatterMode, t: Table, e: Elem, p: map<string, nat>)
    requires Render(mode, t, e).result.Ok?
    requires Extends(Table(p, 0), Render(mode, t, e).table)
    ensures Instantiate(mode, p, e) == Render(mode, t, e).result.value
  {
    if ReferencedName(e).Some? {
      var name := ReferencedName(e).value;
      assert name in Position(t, name).table.positions;
    }
  }

  /** Once every name of `es` has a position in `p`, extending `p` does not change the text. */
  lemma {:induction false} InstantiateAllStable(mode: FormatterMode, p: map<string, nat>, p': map<string, nat>, es: seq<Elem>)
    requires forall n :: n in References(es) ==> n in p
    requires forall n :: n in p ==> n in p' && p'[n] == p[n]
    ensures InstantiateAll(mode, p, es) == InstantiateAll(mode, p', es)
    decreases |es|
  {
    if es != [] {
      assert References(es) == (if ReferencedName(es[0]).Some? then [ReferencedName(es[0]).value] else []) + References(es[1..]);
      InstantiateAllStable(mode, p, p', es[1..]);
    }
  }

  /** Formatting a single element is `format`. */
  lemma RenderAllSingle(mode: FormatterMode, t: Table, e: Elem)
    ensures RenderAll(mode, t, [e]) == Render(mode, t, e)
  {
    var first := Render(mode, t, e);
    assert [e][1..] == [];
    if first.result.Ok? {
      assert first.result.value + "" == first.result.value;
    }
  }

  /** Formatting `a + b` is formatting `a`, then `b` from the table `a` left behind. */
  lemma {:induction false} RenderAllAppend(mode: FormatterMode, t: Table, a: seq<Elem>, b: seq<Elem>)
    ensures var ra := RenderAll(mode, t, a);
      RenderAll(mode, t, a + b) == if ra.result.Err? then ra else Prefixed(ra.result.value, RenderAll(mode, ra.table, b))
    decreases |a|
  {
    if a == [] {
      assert a + b == b;
    } else {
      assert (a + b)[0] == a[0] && (a + b)[1..] == a[1..] + b;
      var first := Render(mode, t, a[0]);
      if first.result.Ok? {
        RenderAllAppend(mode, first.table, a[1..], b);
        var rest := RenderAll(mode, first.table, a[1..]);
        if rest.result.Ok? {
          PrefixedTwice(first.result.value, rest.result.value, RenderAll(mode, rest.table, b));
        }
      }
    }
  }

  /** A template of literals only renders to their concatenation and leaves the table alone. */
  lemma {:induction false} LiteralsRenderVerbatim(mode: FormatterMode, t: Table, es: seq<Elem>)
    requires forall i :: 0 <= i < |es| ==> es[i].Literal?
    ensures RenderAll(mode, t, es) == Rendered(Ok(LiteralText(es)), t)
    decreases |es|
  {
    if es != [] {
      LiteralsRenderVerbatim(mode, t, es[1..]);
    }
  }

  function LiteralText(es: seq<Elem>): string
    requires forall i :: 0 <= i < |es| ==> es[i].Literal?
  {
    if es == [] then "" else es[0].value + LiteralText(es[1..])
  }

  /**
    The two modes number the same names the same way and fail on the same
    inputs; their texts differ only where an argument occurs.
  */
  lemma {:induction false} ModesDifferOnlyOnArguments(t: Table, es: seq<Elem>)
    ensures var s := RenderAll(FormatterMode.StringUnit, t, es);
      var p := RenderAll(FormatterMode.Plural, t, es);
      && s.table == p.table
      && s.result.Ok? == p.result.Ok?
      && ((forall i :: 0 <= i < |es| ==> !es[i].Argument?) ==> s == p)
    decreases |es|
  {
    if es != [] {
      var s1 := Render(FormatterMode.StringUnit, t, es[0]);
      ModesDifferOnlyOnArguments(s1.table, es[1..]);
    }
  }
}
