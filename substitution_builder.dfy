/**
  The substitution builder (`XCStringSubstitutionBuilder`): for every plural
  and select element of a message, a `Substitution` entry keyed by the
  element's variable name, whose variations are the element's cases, each
  formatted in `Plural` mode by ONE formatter shared across the whole build.

  Plural case keys go through `KeyFormat`; the keys String Catalogs cannot
  express make the build fail (where the builder this follows panics).
  `VariationsFrom` and `BuildFrom` say what the folds compute, on the
  formatter's `Table`; `BuildVariations` and `Build` are the folds, run
  against a real `XCStringFormatter`, and are proved to compute them.
*/
module SubstitutionBuilder {
  import opened Results
  import opened OrderedMaps
  import opened Ast
  import opened CatalogTypes
  import F = Formatter

  // ----- KeyFormat -----

  /** The plural categories a String Catalog accepts. */
  datatype KeyFormat = Zero | One | Other

  /** Why a plural case key was refused: the three panics of `KeyFormat::from_string`. */
  datatype LabelError =
    | UnsupportedCategory(key: string)
    | UnsupportedExactValue(key: string)
    | UnexpectedKey(key: string)

  datatype BuildError = LabelFailure(labelError: LabelError) | FormatFailure(formatError: F.FormatError)

  /**
    `KeyFormat::from_string`: `zero`/`=0`, `one`/`=1` and `other` are accepted;
    `two`, `few` and `many` are categories String Catalogs lack, any other
    `=` key is an exact value they lack, and everything else is unexpected.
  */
  function KeyFormatFromString(key: string): (r: Result<KeyFormat, LabelError>)
    ensures r == Ok(Zero) <==> key == "zero" || key == "=0"
    ensures r == Ok(One) <==> key == "one" || key == "=1"
    ensures r == Ok(Other) <==> key == "other"
    ensures r.Err? ==> r.error.key == key
    ensures r.Err? && r.error.UnsupportedCategory? <==> key == "two" || key == "few" || key == "many"
    ensures r.Err? && r.error.UnsupportedExactValue? <==>
      |key| > 0 && key[0] == '=' && key != "=0" && key != "=1"
  {
    if key == "zero" || key == "=0" then Ok(Zero)
    else if key == "one" || key == "=1" then Ok(One)
    else if key == "two" || key == "few" || key == "many" then Err(UnsupportedCategory(key))
    else if key == "other" then Ok(Other)
    else if |key| > 0 && key[0] == '=' then Err(UnsupportedExactValue(key))
    else Err(UnexpectedKey(key))
  }

  /** `KeyFormat::to_string`: the category's name. */
  function KeyFormatToString(k: KeyFormat): (s: string)
    ensures s == "zero" || s == "one" || s == "other"
  {
    match k
    case Zero => "zero"
    case One => "one"
    case Other => "other"
  }

  /** Every category reads back as itself from its name. */
  lemma KeyFormatRoundTrip(k: KeyFormat)
    ensures KeyFormatFromString(KeyFormatToString(k)) == Ok(k)
  {
  }

  /**
    The key a case is stored under: a plural key normalised through
    `KeyFormat`, a select key verbatim.
  */
  function CaseLabel(plural: bool, key: string): Result<string, LabelError>
  {
    if plural then
      match KeyFormatFromString(key)
      case Ok(k) => Ok(KeyFormatToString(k))
      case Err(e) => Err(e)
    else Ok(key)
  }

  /** Normalising a plural key: the accepted keys and what they become; normalising twice changes nothing. */
  lemma PluralLabels(key: string)
    ensures CaseLabel(true, key) == Ok("zero") <==> key == "zero" || key == "=0"
    ensures CaseLabel(true, key) == Ok("one") <==> key == "one" || key == "=1"
    ensures CaseLabel(true, key) == Ok("other") <==> key == "other"
    ensures CaseLabel(true, key).Ok? <==> key in ["zero", "=0", "one", "=1", "other"]
    ensures CaseLabel(true, key).Ok? ==> CaseLabel(true, CaseLabel(true, key).value) == CaseLabel(true, key)
  {
  }

  // ----- What a build computes -----

  /** A result and the state the shared formatter is left in. */
  datatype Built<T> = Built(result: Result<T, BuildError>, table: F.Table)

  type Cases = OrderedMap<string, VariationValue>
  type Substitutions = OrderedMap<string, Substitution>

  /**
    The fold over `options[j..]`: each case body is formatted in `Plural`
    mode, then its key is checked, and the text is inserted under the key
    with state `Translated`; the first failure ends the fold.
  */
  function VariationsFrom(plural: bool, t: F.Table, acc: Cases, options: seq<Case>, j: nat): (b: Built<Cases>)
    requires j <= |options|
    ensures F.WellFormed(t) ==> F.WellFormed(b.table)
    ensures F.Extends(b.table, t)
    decreases |options| - j
  {
    if j == |options| then Built(Ok(acc), t)
    else
      var body := F.RenderAll(F.FormatterMode.Plural, t, options[j].body);
      if body.result.Err? then Built(Err(FormatFailure(body.result.error)), body.table)
      else match CaseLabel(plural, options[j].key)
        case Err(e) => Built(Err(LabelFailure(e)), body.table)
        case Ok(caseKey) =>
          var value := VariationValue(StringUnit(Translated, body.result.value));
          VariationsFrom(plural, body.table, Insert(acc, caseKey, value), options, j + 1)
  }

  /**
    The fold over `es[i..]`: the element at index `i` is a plural (`lld`) or a
    select (`@`) and gets `arg_num` `i + 1`, or it is skipped; entries are
    inserted by variable name.
  */
  function BuildFrom(t: F.Table, acc: Substitutions, es: seq<Elem>, i: nat): (b: Built<Substitutions>)
    requires i <= |es|
    ensures F.WellFormed(t) ==> F.WellFormed(b.table)
    ensures F.Extends(b.table, t)
    decreases |es| - i
  {
    if i == |es| then Built(Ok(acc), t)
    else match es[i]
      case Plural(name, options) =>
        var v := VariationsFrom(true, t, [], options, 0);
        if v.result.Err? then Built(Err(v.result.error), v.table)
        else
          var s := Substitution(i + 1, "lld", VariationType.Plural(v.result.value));
          BuildFrom(v.table, Insert(acc, name, s), es, i + 1)
      case Select(name, options) =>
        var v := VariationsFrom(false, t, [], options, 0);
        if v.result.Err? then Built(Err(v.result.error), v.table)
        else
          var s := Substitution(i + 1, "@", VariationType.Select(v.result.value));
          BuildFrom(v.table, Insert(acc, name, s), es, i + 1)
      case _ => BuildFrom(t, acc, es, i + 1)
  }

  /** `build` from a fresh `Plural`-mode formatter. */
  function BuildAll(es: seq<Elem>): Built<Substitutions>
  {
    BuildFrom(F.Fresh, [], es, 0)
  }

  /** The entry a plural or select at index `i` gets once its cases are built. */
  function Entry(e: Elem, i: nat, cases: Cases): Substitution
    requires IsPluralOrSelect(e)
  {
    if e.Plural? then Substitution(i + 1, "lld", VariationType.Plural(cases))
    else Substitution(i + 1, "@", VariationType.Select(cases))
  }

  /** One step of `BuildFrom` on a plural or a select. */
  lemma BuildFromStep(t: F.Table, acc: Substitutions, es: seq<Elem>, i: nat)
    requires i < |es| && IsPluralOrSelect(es[i])
    ensures var v := VariationsFrom(es[i].Plural?, t, [], es[i].options, 0);
      BuildFrom(t, acc, es, i) ==
        if v.result.Err? then Built(Err(v.result.error), v.table)
        else BuildFrom(v.table, Insert(acc, es[i].name, Entry(es[i], i, v.result.value)), es, i + 1)
  {
  }

  /** One step of `BuildFrom` on any other element: it is skipped. */
  lemma BuildFromSkip(t: F.Table, acc: Substitutions, es: seq<Elem>, i: nat)
    requires i < |es| && !IsPluralOrSelect(es[i])
    ensures BuildFrom(t, acc, es, i) == BuildFrom(t, acc, es, i + 1)
  {
  }

  // ----- The builder -----

  /** The inner fold of `build`: the cases of one plural or select, through the shared formatter. */
  method BuildVariations(formatter: F.XCStringFormatter, plural: bool, options: seq<Case>) returns (r: Result<Cases, BuildError>)
    requires formatter.Valid() && formatter.mode == F.FormatterMode.Plural
    modifies formatter
    ensures formatter.Valid()
    ensures Built(r, formatter.State()) == VariationsFrom(plural, old(formatter.State()), [], options, 0)
  {
    var cases: Cases := [];
    for j := 0 to |options|
      invariant formatter.Valid()
      invariant VariationsFrom(plural, old(formatter.State()), [], options, 0) == VariationsFrom(plural, formatter.State(), cases, options, j)
    {
      var text := formatter.FormatBatch(options[j].body);
      if text.Err? {
        return Err(FormatFailure(text.error));
      }
      var caseKey := CaseLabel(plural, options[j].key);
      if caseKey.Err? {
        return Err(LabelFailure(caseKey.error));
      }
      cases := Insert(cases, caseKey.value, VariationValue(StringUnit(Translated, text.value)));
    }
    r := Ok(cases);
  }

  /** `XCStringSubstitutionBuilder::build`: one `Plural`-mode formatter for all the elements and their cases. */
  method Build(elements: seq<Elem>) returns (r: Result<Substitutions, BuildError>)
    ensures r == BuildAll(elements).result
  {
    var formatter := new F.XCStringFormatter(F.FormatterMode.Plural);
    var substitutions: Substitutions := [];
    for i := 0 to |elements|
      invariant formatter.Valid() && formatter.mode == F.FormatterMode.Plural
      invariant BuildAll(elements) == BuildFrom(formatter.State(), substitutions, elements, i)
    {
      match elements[i] {
        case Plural(name, options) =>
          var cases :- BuildVariations(formatter, true, options);
          substitutions := Insert(substitutions, name, Substitution(i + 1, "lld", VariationType.Plural(cases)));
        case Select(name, options) =>
          var cases :- BuildVariations(formatter, false, options);
          substitutions := Insert(substitutions, name, Substitution(i + 1, "@", VariationType.Select(cases)));
        case _ =>
      }
    }
    r := Ok(substitutions);
  }

  // ----- The entries of a build -----

  /** What an entry says besides its cases: `arg_num`, the format specifier, and whether it is a plural. */
  datatype Header = Header(argNum: nat, formatSpecifier: string, plural: bool)

  function HeaderOf(s: Substitution): Header
  {
    Header(s.argNum, s.formatSpecifier, s.variations.Plural?)
  }

  /** The header the element at index `i` asks for: `arg_num` `i + 1`; `lld` for a plural, `@` for a select. */
  function ElementHeader(e: Elem, i: nat): Header
    requires IsPluralOrSelect(e)
  {
    if e.Plural? then Header(i + 1, "lld", true) else Header(i + 1, "@", false)
  }

  /** The element at index `k` is a plural or a select on variable `name`. */
  predicate NamedAt(es: seq<Elem>, k: int, name: string)
  {
    0 <= k < |es| && IsPluralOrSelect(es[k]) && es[k].name == name
  }

  /** ... and no later plural or select is on `name`. */
  predicate LastNamedAt(es: seq<Elem>, k: int, name: string)
  {
    NamedAt(es, k, name) && forall k' :: k < k' < |es| ==> !NamedAt(es, k', name)
  }

  /** The entries `es[i..]` asks for: one per plural or select, in element order, repeats included. */
  function HeadersFrom(es: seq<Elem>, i: nat): seq<(string, Header)>
    requires i <= |es|
    decreases |es| - i
  {
    if i == |es| then []
    else (if IsPluralOrSelect(es[i]) then [(es[i].name, ElementHeader(es[i], i))] else []) + HeadersFrom(es, i + 1)
  }

  /** Looking a name up in the headers of `es[i..]`: a later header wins over the one of `es[i]`. */
  lemma GetHeadersFromStep(es: seq<Elem>, i: nat, name: string)
    requires i < |es|
    ensures var rest := Get(HeadersFrom(es, i + 1), name);
      Get(HeadersFrom(es, i), name) ==
        if rest.Some? then rest else if NamedAt(es, i, name) then Some(ElementHeader(es[i], i)) else None
  {
    var front := if IsPluralOrSelect(es[i]) then [(es[i].name, ElementHeader(es[i], i))] else [];
    assert HeadersFrom(es, i) == front + HeadersFrom(es, i + 1);
    GetAppend(front, HeadersFrom(es, i + 1), name);
    if front != [] {
      assert front[..0] == [];
    }
  }

  /** Looking a name up among the headers finds the header of the LAST element on that name. */
  lemma {:induction false} GetHeadersFrom(es: seq<Elem>, i: nat, name: string)
    requires i <= |es|
    ensures Get(HeadersFrom(es, i), name).Some? <==> exists k :: i <= k && NamedAt(es, k, name)
    ensures forall k :: i <= k && LastNamedAt(es, k, name) ==> Get(HeadersFrom(es, i), name) == Some(ElementHeader(es[k], k))
    decreases |es| - i
  {
    if i < |es| {
      GetHeadersFrom(es, i + 1, name);
      GetHeadersFromStep(es, i, name);
      if exists k :: i <= k && NamedAt(es, k, name) {
        var k :| i <= k && NamedAt(es, k, name);
        if k > i {
          assert exists k' :: i + 1 <= k' && NamedAt(es, k', name);
        }
      }
      forall k | i <= k && LastNamedAt(es, k, name)
        ensures Get(HeadersFrom(es, i), name) == Some(ElementHeader(es[k], k))
      {
        if k == i {
          assert Get(HeadersFrom(es, i + 1), name).None?;
        }
      }
    }
  }

  /** The fold's entries, stripped of their cases, are the headers inserted in element order. */
  lemma {:induction false} BuildFromHeaders(t: F.Table, acc: Substitutions, es: seq<Elem>, i: nat)
    requires i <= |es|
    ensures var b := BuildFrom(t, acc, es, i);
      b.result.Ok? ==> MapValues(b.result.value, HeaderOf) == InsertAll(MapValues(acc, HeaderOf), HeadersFrom(es, i))
    decreases |es| - i
  {
    if i < |es| {
      if IsPluralOrSelect(es[i]) {
        var name, options, plural := es[i].name, es[i].options, es[i].Plural?;
        BuildFromStep(t, acc, es, i);
        var v := VariationsFrom(plural, t, [], options, 0);
        if v.result.Ok? {
          var cases := v.result.value;
          var s := Entry(es[i], i, cases);
          var rest := HeadersFrom(es, i + 1);
          assert HeadersFrom(es, i) == [(name, HeaderOf(s))] + rest;
          if BuildFrom(t, acc, es, i).result.Ok? {
            calc {
              MapValues(BuildFrom(t, acc, es, i).result.value, HeaderOf);
              { BuildFromHeaders(v.table, Insert(acc, name, s), es, i + 1); }
              InsertAll(MapValues(Insert(acc, name, s), HeaderOf), rest);
              { MapValuesInsert(acc, HeaderOf, name, s); }
              InsertAll(Insert(MapValues(acc, HeaderOf), name, HeaderOf(s)), rest);
              { InsertAllCons(MapValues(acc, HeaderOf), (name, HeaderOf(s)), rest); }
              InsertAll(MapValues(acc, HeaderOf), HeadersFrom(es, i));
            }
          }
        }
      } else {
        BuildFromSkip(t, acc, es, i);
        assert HeadersFrom(es, i) == [] + HeadersFrom(es, i + 1) == HeadersFrom(es, i + 1);
        BuildFromHeaders(t, acc, es, i + 1);
      }
    }
  }

  /**
    The entries of a successful build, in order and case tables aside, are the
    elements' headers inserted one after the other: non-plural, non-select
    elements contribute nothing, and a repeated name is re-inserted.
  */
  lemma BuildHeaders(es: seq<Elem>)
    ensures BuildAll(es).result.Ok? ==> MapValues(BuildAll(es).result.value, HeaderOf) == InsertAll([], HeadersFrom(es, 0))
  {
    BuildFromHeaders(F.Fresh, [], es, 0);
  }

  /**
    A successful build has an entry for `name` exactly when some plural or
    select is on `name`, and the entry is the one of the LAST such element:
    `arg_num` its index + 1, `lld` and plural cases for a plural, `@` and
    select cases for a select.
  */
  lemma BuildEntry(es: seq<Elem>, name: string)
    requires BuildAll(es).result.Ok?
    ensures var m := BuildAll(es).result.value;
      && (Get(m, name).Some? <==> exists k :: NamedAt(es, k, name))
      && forall k :: LastNamedAt(es, k, name) ==> Get(m, name).Some? && HeaderOf(Get(m, name).value) == ElementHeader(es[k], k)
  {
    var m := BuildAll(es).result.value;
    BuildHeaders(es);
    GetInsertAll([], HeadersFrom(es, 0), name);
    GetMapValues(m, HeaderOf, name);
    GetHeadersFrom(es, 0, name);
  }

  // ----- The cases of a build -----

  /**
    The case `kv` of an entry on `name` comes from an option of a plural or
    select on `name`: its key is that option's key (normalised for a plural),
    its state is `Translated`, and its text is the option's body with every
    argument, number and date at its position in table `p`.
  */
  ghost predicate CaseOf(es: seq<Elem>, name: string, kv: (string, VariationValue), p: map<string, nat>)
  {
    exists k, c ::
      && NamedAt(es, k, name) && 0 <= c < |es[k].options|
      && CaseLabel(es[k].Plural?, es[k].options[c].key) == Ok(kv.0)
      && kv.1 == VariationValue(StringUnit(Translated, F.InstantiateAll(F.FormatterMode.Plural, p, es[k].options[c].body)))
  }

  /** Every key of `options[j..]` is one the builder accepts. */
  predicate LabelsAccepted(plural: bool, options: seq<Case>, j: nat)
  {
    forall c :: j <= c < |options| ==> CaseLabel(plural, options[c].key).Ok?
  }

  /**
    The case an option yields, independently of the fold: its key (normalised
    for a plural), state `Translated`, and its body with every argument, number
    and date at its position in table `p`.
  */
  function CaseEntry(plural: bool, p: map<string, nat>, option: Case): (string, VariationValue)
    requires CaseLabel(plural, option.key).Ok?
  {
    (CaseLabel(plural, option.key).value,
     VariationValue(StringUnit(Translated, F.InstantiateAll(F.FormatterMode.Plural, p, option.body))))
  }

  /** The cases `options[j..]` yield, in declared order, a repeated key included. */
  function CaseEntries(plural: bool, p: map<string, nat>, options: seq<Case>, j: nat): (r: seq<(string, VariationValue)>)
    requires j <= |options| && LabelsAccepted(plural, options, j)
    ensures |r| == |options| - j
    ensures forall c :: 0 <= c < |r| ==> r[c] == CaseEntry(plural, p, options[j + c])
    decreases |options| - j
  {
    if j == |options| then [] else [CaseEntry(plural, p, options[j])] + CaseEntries(plural, p, options, j + 1)
  }

  /** The cases a fold adds come from the options `j..`, rendered against any table extending the one it ends with. */
  lemma {:induction false} VariationsFromCases(plural: bool, t: F.Table, acc: Cases, options: seq<Case>, j: nat, final: F.Table)
    requires j <= |options|
    requires VariationsFrom(plural, t, acc, options, j).result.Ok?
    requires F.Extends(final, VariationsFrom(plural, t, acc, options, j).table)
    ensures forall kv :: kv in VariationsFrom(plural, t, acc, options, j).result.value ==>
      || kv in acc
      || exists c :: j <= c < |options| && CaseLabel(plural, options[c].key) == Ok(kv.0)
           && kv.1 == VariationValue(StringUnit(Translated, F.InstantiateAll(F.FormatterMode.Plural, final.positions, options[c].body)))
    decreases |options| - j
  {
    if j < |options| {
      var body := F.RenderAll(F.FormatterMode.Plural, t, options[j].body);
      var caseKey := CaseLabel(plural, options[j].key).value;
      var value := VariationValue(StringUnit(Translated, body.result.value));
      VariationsFromCases(plural, body.table, Insert(acc, caseKey, value), options, j + 1, final);
      F.RenderAllInstantiates(F.FormatterMode.Plural, t, options[j].body);
      F.InstantiateAllStable(F.FormatterMode.Plural, body.table.positions, final.positions, options[j].body);
    }
  }

  /**
    A successful fold inserts EVERY option of `options[j..]`, in declared
    order, under its accepted key: the cases it ends with are those of
    `CaseEntries` against any table extending the one it ends with, inserted
    one after the other, so a later option with the same key wins.
  */
  lemma {:induction false} VariationsFromEntries(plural: bool, t: F.Table, acc: Cases, options: seq<Case>, j: nat, final: F.Table)
    requires j <= |options|
    requires VariationsFrom(plural, t, acc, options, j).result.Ok?
    requires F.Extends(final, VariationsFrom(plural, t, acc, options, j).table)
    ensures LabelsAccepted(plural, options, j)
    ensures VariationsFrom(plural, t, acc, options, j).result.value == InsertAll(acc, CaseEntries(plural, final.positions, options, j))
    decreases |options| - j
  {
    if j < |options| {
      var body := F.RenderAll(F.FormatterMode.Plural, t, options[j].body);
      var caseKey := CaseLabel(plural, options[j].key).value;
      var value := VariationValue(StringUnit(Translated, body.result.value));
      VariationsFromEntries(plural, body.table, Insert(acc, caseKey, value), options, j + 1, final);
      F.RenderAllInstantiates(F.FormatterMode.Plural, t, options[j].body);
      F.InstantiateAllStable(F.FormatterMode.Plural, body.table.positions, final.positions, options[j].body);
      assert (caseKey, value) == CaseEntry(plural, final.positions, options[j]);
      InsertAllCons(acc, (caseKey, value), CaseEntries(plural, final.positions, options, j + 1));
    }
  }

  /** Option `c` has a key that normalises to `caseKey`. */
  predicate KeyAt(plural: bool, options: seq<Case>, c: int, caseKey: string)
  {
    0 <= c < |options| && CaseLabel(plural, options[c].key) == Ok(caseKey)
  }

  /** Option `c` is the last of `options` whose key normalises to `caseKey`. */
  predicate LastLabelAt(plural: bool, options: seq<Case>, c: int, caseKey: string)
  {
    KeyAt(plural, options, c, caseKey) && forall c' :: c < c' < |options| ==> !KeyAt(plural, options, c', caseKey)
  }

  /** A key is among the options' cases iff some option carries it. */
  lemma CaseEntriesHaveKey(plural: bool, p: map<string, nat>, options: seq<Case>, caseKey: string)
    requires LabelsAccepted(plural, options, 0)
    ensures Get(CaseEntries(plural, p, options, 0), caseKey).Some? <==> exists c :: KeyAt(plural, options, c, caseKey)
  {
    var es := CaseEntries(plural, p, options, 0);
    if exists c :: KeyAt(plural, options, c, caseKey) {
      var c :| KeyAt(plural, options, c, caseKey);
      assert Keys(es)[c] == caseKey;
    }
    if Get(es, caseKey).Some? {
      var c :| 0 <= c < |es| && Keys(es)[c] == caseKey;
      assert KeyAt(plural, options, c, caseKey);
    }
  }

  /** Among the options' cases, a key holds the case of the last option carrying it. */
  lemma CaseEntriesLastWins(plural: bool, p: map<string, nat>, options: seq<Case>, caseKey: string, c: nat)
    requires LabelsAccepted(plural, options, 0) && LastLabelAt(plural, options, c, caseKey)
    ensures Get(CaseEntries(plural, p, options, 0), caseKey) == Some(CaseEntry(plural, p, options[c]).1)
  {
    var es := CaseEntries(plural, p, options, 0);
    forall c' | c < c' < |es| ensures es[c'].0 != caseKey {
      assert !KeyAt(plural, options, c', caseKey);
    }
    GetLastEntry(es, caseKey, c);
  }

  /**
    A case table built from nothing: a key is there iff some option carries
    it, holding the case of the last such option.
  */
  lemma CaseTable(plural: bool, p: map<string, nat>, options: seq<Case>, caseKey: string)
    requires LabelsAccepted(plural, options, 0)
    ensures var m := InsertAll([], CaseEntries(plural, p, options, 0));
      && (Get(m, caseKey).Some? <==> exists c :: KeyAt(plural, options, c, caseKey))
      && forall c :: LastLabelAt(plural, options, c, caseKey) ==> Get(m, caseKey) == Some(CaseEntry(plural, p, options[c]).1)
  {
    GetInsertAll([], CaseEntries(plural, p, options, 0), caseKey);
    CaseEntriesHaveKey(plural, p, options, caseKey);
    forall c | LastLabelAt(plural, options, c, caseKey)
      ensures Get(InsertAll([], CaseEntries(plural, p, options, 0)), caseKey) == Some(CaseEntry(plural, p, options[c]).1)
    {
      CaseEntriesLastWins(plural, p, options, caseKey, c);
    }
  }

  /** No two options share a key: the case keys of `options` are distinct. */
  predicate KeysUnrepeated(plural: bool, options: seq<Case>)
  {
    forall c, c' :: 0 <= c < c' < |options| ==> CaseLabel(plural, options[c].key) != CaseLabel(plural, options[c'].key)
  }

  lemma CaseEntriesDistinct(plural: bool, p: map<string, nat>, options: seq<Case>)
    requires LabelsAccepted(plural, options, 0) && KeysUnrepeated(plural, options)
    ensures KeysDistinct(CaseEntries(plural, p, options, 0))
  {
    var es := CaseEntries(plural, p, options, 0);
    forall c, c' | 0 <= c < c' < |es| ensures es[c].0 != es[c'].0 {
      var a, b := CaseLabel(plural, options[c].key), CaseLabel(plural, options[c'].key);
      assert es[c].0 == a.value && es[c'].0 == b.value;
      assert a != b;
    }
  }

  /** When no two options share a key, the case table keeps the options' declared order. */
  lemma CaseTableInOrder(plural: bool, p: map<string, nat>, options: seq<Case>)
    requires LabelsAccepted(plural, options, 0) && KeysUnrepeated(plural, options)
    ensures InsertAll([], CaseEntries(plural, p, options, 0)) == CaseEntries(plural, p, options, 0)
  {
    var es := CaseEntries(plural, p, options, 0);
    CaseEntriesDistinct(plural, p, options);
    assert [] + es == es;
    InsertAllDistinct([], es);
  }

  /** Every case of every entry of a fold comes from an option of an element on the entry's name. */
  lemma {:induction false} BuildFromCases(t: F.Table, acc: Substitutions, es: seq<Elem>, i: nat, final: F.Table)
    requires i <= |es|
    requires BuildFrom(t, acc, es, i).result.Ok?
    requires F.Extends(final, BuildFrom(t, acc, es, i).table)
    requires forall e, kv :: e in acc && kv in e.1.variations.cases ==> CaseOf(es, e.0, kv, final.positions)
    ensures forall e, kv :: e in BuildFrom(t, acc, es, i).result.value && kv in e.1.variations.cases ==>
      CaseOf(es, e.0, kv, final.positions)
    decreases |es| - i
  {
    if i < |es| {
      if IsPluralOrSelect(es[i]) {
        var name, options, plural := es[i].name, es[i].options, es[i].Plural?;
        BuildFromStep(t, acc, es, i);
        var v := VariationsFrom(plural, t, [], options, 0);
        var cases := v.result.value;
        var s := Entry(es[i], i, cases);
        VariationsFromCases(plural, t, [], options, 0, final);
        forall kv | kv in cases ensures CaseOf(es, name, kv, final.positions) {
          var c :| 0 <= c < |options| && CaseLabel(plural, options[c].key) == Ok(kv.0)
            && kv.1 == VariationValue(StringUnit(Translated, F.InstantiateAll(F.FormatterMode.Plural, final.positions, options[c].body)));
          assert NamedAt(es, i, name);
        }
        BuildFromCases(v.table, Insert(acc, name, s), es, i + 1, final);
      } else {
        BuildFromCases(t, acc, es, i + 1, final);
      }
    }
  }

  /** Elements none of which is on `name` leave its entry as it was. */
  lemma {:induction false} BuildFromKeeps(t: F.Table, acc: Substitutions, es: seq<Elem>, i: nat, name: string)
    requires i <= |es|
    requires forall k :: i <= k < |es| ==> !NamedAt(es, k, name)
    ensures var r := BuildFrom(t, acc, es, i).result;
      r.Ok? ==> Get(r.value, name) == Get(acc, name)
    decreases |es| - i
  {
    if i < |es| {
      if IsPluralOrSelect(es[i]) {
        BuildFromStep(t, acc, es, i);
        var v := VariationsFrom(es[i].Plural?, t, [], es[i].options, 0);
        if v.result.Ok? {
          assert !NamedAt(es, i, name);
          BuildFromKeeps(v.table, Insert(acc, es[i].name, Entry(es[i], i, v.result.value)), es, i + 1, name);
        }
      } else {
        BuildFromSkip(t, acc, es, i);
        BuildFromKeeps(t, acc, es, i + 1, name);
      }
    }
  }

  /** The entry on `name` after a fold is the one the LAST element on `name` makes, holding every one of its options' cases. */
  lemma {:induction false} BuildFromLastCases(t: F.Table, acc: Substitutions, es: seq<Elem>, i: nat, final: F.Table, name: string, k: nat)
    requires i <= k && LastNamedAt(es, k, name)
    requires BuildFrom(t, acc, es, i).result.Ok?
    requires F.Extends(final, BuildFrom(t, acc, es, i).table)
    ensures LabelsAccepted(es[k].Plural?, es[k].options, 0)
    ensures Get(BuildFrom(t, acc, es, i).result.value, name)
      == Some(Entry(es[k], k, InsertAll([], CaseEntries(es[k].Plural?, final.positions, es[k].options, 0))))
    decreases |es| - i
  {
    if IsPluralOrSelect(es[i]) {
      var options, plural := es[i].options, es[i].Plural?;
      BuildFromStep(t, acc, es, i);
      var v := VariationsFrom(plural, t, [], options, 0);
      var acc' := Insert(acc, es[i].name, Entry(es[i], i, v.result.value));
      if i == k {
        assert F.Extends(BuildFrom(v.table, acc', es, i + 1).table, v.table);
        VariationsFromEntries(plural, t, [], options, 0, final);
        BuildFromKeeps(v.table, acc', es, i + 1, name);
      } else {
        BuildFromLastCases(v.table, acc', es, i + 1, final, name, k);
      }
    } else {
      BuildFromSkip(t, acc, es, i);
      BuildFromLastCases(t, acc, es, i + 1, final, name, k);
    }
  }

  /**
    Every case of a successful build is an option of the element its entry is
    named after, with the option's key (normalised for a plural), state
    `Translated`, and the option's body rendered in `Plural` mode against the
    final table of the one formatter the whole build shares. Conversely, the
    entry on a name is the one of the LAST plural or select on it, and its case
    table is every option of that element inserted in declared order.
  */
  lemma BuildCases(es: seq<Elem>)
    requires BuildAll(es).result.Ok?
    ensures var b := BuildAll(es);
      forall e, kv :: e in b.result.value && kv in e.1.variations.cases ==> CaseOf(es, e.0, kv, b.table.positions)
    ensures var b := BuildAll(es);
      forall name, k :: LastNamedAt(es, k, name) ==>
        && LabelsAccepted(es[k].Plural?, es[k].options, 0)
        && Get(b.result.value, name) == Some(Entry(es[k], k, InsertAll([], CaseEntries(es[k].Plural?, b.table.positions, es[k].options, 0))))
  {
    var b := BuildAll(es);
    BuildFromCases(F.Fresh, [], es, 0, b.table);
    forall name, k | LastNamedAt(es, k, name)
      ensures LabelsAccepted(es[k].Plural?, es[k].options, 0)
      ensures Get(b.result.value, name) == Some(Entry(es[k], k, InsertAll([], CaseEntries(es[k].Plural?, b.table.positions, es[k].options, 0))))
    {
      BuildFromLastCases(F.Fresh, [], es, 0, b.table, name, k);
    }
  }

  /**
    Looking a case up in a successful build: the entry on `name` has a case
    for `caseKey` iff some option of the last element on `name` carries that key
    (normalised for a plural), and the case is that of the LAST such option.
  */
  lemma BuildCaseLookup(es: seq<Elem>, name: string, k: nat, caseKey: string)
    requires BuildAll(es).result.Ok? && LastNamedAt(es, k, name)
    ensures var b := BuildAll(es);
      && Get(b.result.value, name).Some?
      && var cases := Get(b.result.value, name).value.variations.cases;
      && (Get(cases, caseKey).Some? <==> exists c :: KeyAt(es[k].Plural?, es[k].options, c, caseKey))
      && forall c :: LastLabelAt(es[k].Plural?, es[k].options, c, caseKey) ==>
           Get(cases, caseKey) == Some(VariationValue(StringUnit(Translated,
             F.InstantiateAll(F.FormatterMode.Plural, b.table.positions, es[k].options[c].body))))
  {
    var b := BuildAll(es);
    BuildCases(es);
    CaseTable(es[k].Plural?, b.table.positions, es[k].options, caseKey);
  }

  // ----- Which keys fail -----

  /** A plural option whose key `KeyFormat` refuses makes the fold fail, whatever the table. */
  lemma {:induction false} RejectedKeyFails(t: F.Table, acc: Cases, options: seq<Case>, j: nat, c: nat)
    requires j <= c < |options| && KeyFormatFromString(options[c].key).Err?
    ensures VariationsFrom(true, t, acc, options, j).result.Err?
    decreases |options| - j
  {
    var body := F.RenderAll(F.FormatterMode.Plural, t, options[j].body);
    var caseKey := CaseLabel(true, options[j].key);
    if j == c {
      assert caseKey.Err?;
    } else if body.result.Ok? && caseKey.Ok? {
      var value := VariationValue(StringUnit(Translated, body.result.value));
      assert VariationsFrom(true, t, acc, options, j) == VariationsFrom(true, body.table, Insert(acc, caseKey.value, value), options, j + 1);
      RejectedKeyFails(body.table, Insert(acc, caseKey.value, value), options, j + 1, c);
    }
  }

  /** A fold that fails on a key failed on a plural key `KeyFormat` refuses: select keys are never checked. */
  lemma {:induction false} LabelFailureFromPluralKey(plural: bool, t: F.Table, acc: Cases, options: seq<Case>, j: nat)
    requires j <= |options|
    ensures var r := VariationsFrom(plural, t, acc, options, j).result;
      r.Err? && r.error.LabelFailure? ==>
        plural && exists c :: j <= c < |options| && KeyFormatFromString(options[c].key).Err?
    decreases |options| - j
  {
    if j < |options| {
      var body := F.RenderAll(F.FormatterMode.Plural, t, options[j].body);
      var caseKey := CaseLabel(plural, options[j].key);
      if body.result.Ok? && caseKey.Ok? {
        var value := VariationValue(StringUnit(Translated, body.result.value));
        LabelFailureFromPluralKey(plural, body.table, Insert(acc, caseKey.value, value), options, j + 1);
      }
    }
  }

  /** The element at `k` is a plural with an option whose key `KeyFormat` refuses. */
  predicate RejectedPluralKey(es: seq<Elem>, k: int, c: int)
  {
    0 <= k < |es| && es[k].Plural? && 0 <= c < |es[k].options| && KeyFormatFromString(es[k].options[c].key).Err?
  }

  lemma {:induction false} BuildFromRejects(t: F.Table, acc: Substitutions, es: seq<Elem>, i: nat, k: nat, c: nat)
    requires i <= k && RejectedPluralKey(es, k, c)
    ensures BuildFrom(t, acc, es, i).result.Err?
    decreases |es| - i
  {
    if i == k {
      RejectedKeyFails(t, [], es[k].options, 0, c);
      BuildFromStep(t, acc, es, i);
    } else if IsPluralOrSelect(es[i]) {
      var name, options, plural := es[i].name, es[i].options, es[i].Plural?;
      BuildFromStep(t, acc, es, i);
      var v := VariationsFrom(plural, t, [], options, 0);
      if v.result.Ok? {
        var cases := v.result.value;
        var s := Entry(es[i], i, cases);
        BuildFromRejects(v.table, Insert(acc, name, s), es, i + 1, k, c);
      }
    } else {
      BuildFromSkip(t, acc, es, i);
      BuildFromRejects(t, acc, es, i + 1, k, c);
    }
  }

  lemma {:induction false} BuildFromLabelFailure(t: F.Table, acc: Substitutions, es: seq<Elem>, i: nat)
    requires i <= |es|
    ensures var r := BuildFrom(t, acc, es, i).result;
      r.Err? && r.error.LabelFailure? ==> exists k, c :: i <= k && RejectedPluralKey(es, k, c)
    decreases |es| - i
  {
    if i < |es| {
      if IsPluralOrSelect(es[i]) {
        var name, options, plural := es[i].name, es[i].options, es[i].Plural?;
        BuildFromStep(t, acc, es, i);
        var v := VariationsFrom(plural, t, [], options, 0);
        LabelFailureFromPluralKey(plural, t, [], options, 0);
        if v.result.Ok? {
          var cases := v.result.value;
          var s := Entry(es[i], i, cases);
          BuildFromLabelFailure(v.table, Insert(acc, name, s), es, i + 1);
        } else if v.result.error.LabelFailure? {
          var c :| 0 <= c < |options| && KeyFormatFromString(options[c].key).Err?;
          assert RejectedPluralKey(es, i, c);
        }
      } else {
        BuildFromSkip(t, acc, es, i);
        BuildFromLabelFailure(t, acc, es, i + 1);
      }
    }
  }

  /**
    Plural keys a String Catalog cannot express fail the build, and they are
    the only keys that do: a build that fails on a key has such a plural key,
    and select keys are kept as they are.
  */
  lemma BuildRejectsUnsupportedPluralKeys(es: seq<Elem>)
    ensures (exists k, c :: RejectedPluralKey(es, k, c)) ==> BuildAll(es).result.Err?
    ensures BuildAll(es).result.Err? && BuildAll(es).result.error.LabelFailure? ==>
      exists k, c :: RejectedPluralKey(es, k, c)
  {
    if exists k, c :: RejectedPluralKey(es, k, c) {
      var k, c :| RejectedPluralKey(es, k, c);
      BuildFromRejects(F.Fresh, [], es, 0, k, c);
    }
    BuildFromLabelFailure(F.Fresh, [], es, 0);
  }

  // ----- One formatter for the whole build -----

  /** The case bodies of `options[j..]`, one after the other. */
  function OptionBodies(options: seq<Case>, j: nat): seq<Elem>
    requires j <= |options|
    decreases |options| - j
  {
    if j == |options| then [] else options[j].body + OptionBodies(options, j + 1)
  }

  /** Every case body of the plurals and selects of `es[i..]`, in the order the build formats them. */
  function CaseBodies(es: seq<Elem>, i: nat): seq<Elem>
    requires i <= |es|
    decreases |es| - i
  {
    if i == |es| then []
    else (if IsPluralOrSelect(es[i]) then OptionBodies(es[i].options, 0) else []) + CaseBodies(es, i + 1)
  }

  lemma {:induction false} VariationsFromTable(plural: bool, t: F.Table, acc: Cases, options: seq<Case>, j: nat)
    requires j <= |options|
    ensures var v := VariationsFrom(plural, t, acc, options, j);
      v.result.Ok? ==>
        var r := F.RenderAll(F.FormatterMode.Plural, t, OptionBodies(options, j));
        r.result.Ok? && r.table == v.table
    decreases |options| - j
  {
    if j < |options| {
      F.RenderAllAppend(F.FormatterMode.Plural, t, options[j].body, OptionBodies(options, j + 1));
      var body := F.RenderAll(F.FormatterMode.Plural, t, options[j].body);
      var caseKey := CaseLabel(plural, options[j].key);
      if body.result.Ok? && caseKey.Ok? {
        var value := VariationValue(StringUnit(Translated, body.result.value));
        VariationsFromTable(plural, body.table, Insert(acc, caseKey.value, value), options, j + 1);
      }
    }
  }

  lemma {:induction false} BuildFromTable(t: F.Table, acc: Substitutions, es: seq<Elem>, i: nat)
    requires i <= |es|
    ensures var b := BuildFrom(t, acc, es, i);
      b.result.Ok? ==>
        var r := F.RenderAll(F.FormatterMode.Plural, t, CaseBodies(es, i));
        r.result.Ok? && r.table == b.table
    decreases |es| - i
  {
    if i < |es| {
      if IsPluralOrSelect(es[i]) {
        var name, options, plural := es[i].name, es[i].options, es[i].Plural?;
        BuildFromStep(t, acc, es, i);
        var v := VariationsFrom(plural, t, [], options, 0);
        VariationsFromTable(plural, t, [], options, 0);
        F.RenderAllAppend(F.FormatterMode.Plural, t, OptionBodies(options, 0), CaseBodies(es, i + 1));
        if v.result.Ok? {
          var cases := v.result.value;
          var s := Entry(es[i], i, cases);
          BuildFromTable(v.table, Insert(acc, name, s), es, i + 1);
        }
      } else {
        BuildFromSkip(t, acc, es, i);
        assert CaseBodies(es, i) == [] + CaseBodies(es, i + 1) == CaseBodies(es, i + 1);
        BuildFromTable(t, acc, es, i + 1);
      }
    }
  }

  /**
    One formatter serves the whole build: a successful build leaves it as a
    single formatter is left by formatting every case body in order, so the
    positions are 1, 2, ... in first-occurrence order across all the cases of
    all the elements (a later case continues the numbering of earlier ones).
  */
  lemma BuildSharesOneFormatter(es: seq<Elem>)
    requires BuildAll(es).result.Ok?
    ensures var r := F.RenderAll(F.FormatterMode.Plural, F.Fresh, CaseBodies(es, 0));
      r.result.Ok? && r.table == BuildAll(es).table
    ensures F.Dense(BuildAll(es).table, F.FirstOccurrences([], F.References(CaseBodies(es, 0))))
  {
    BuildFromTable(F.Fresh, [], es, 0);
    F.PositionsFollowFirstOccurrence(F.FormatterMode.Plural, CaseBodies(es, 0));
  }

  // ----- A worked example -----
  // The lemmas below evaluate one concrete build step by step. They illustrate
  // the properties proved above for all inputs; nothing else relies on them.

  /** The `=1` body of the plural in `SharedFormatterExample`. */
  lemma ExampleOneBody()
    ensures F.RenderAll(F.FormatterMode.Plural, F.Fresh, [Literal("one "), Argument("x")])
      == F.Rendered(Ok("one %arg"), F.Table(map["x" := 1], 2))
  {
    var plural := F.FormatterMode.Plural;
    var t1 := F.Table(map["x" := 1], 2);
    assert F.Position(F.Fresh, "x") == F.Assigned(Ok(1), t1);
    assert F.Render(plural, F.Fresh, Argument("x")) == F.Rendered(Ok("%arg"), t1);
    F.RenderAllSingle(plural, F.Fresh, Literal("one "));
    F.RenderAllSingle(plural, F.Fresh, Argument("x"));
    F.RenderAllAppend(plural, F.Fresh, [Literal("one ")], [Argument("x")]);
    assert [Literal("one ")] + [Argument("x")] == [Literal("one "), Argument("x")];
    assert "one " + "%arg" == "one %arg";
  }

  /** The `other` body of the plural in `SharedFormatterExample`, after the `=1` body. */
  lemma ExampleOtherBody()
    ensures F.RenderAll(F.FormatterMode.Plural, F.Table(map["x" := 1], 2), [Number("y")])
      == F.Rendered(Ok("%2$lld"), F.Table(map["x" := 1, "y" := 2], 3))
  {
    var t1 := F.Table(map["x" := 1], 2);
    var t2 := F.Table(map["x" := 1, "y" := 2], 3);
    assert F.DecimalString(2) == "2";
    assert F.Position(t1, "y") == F.Assigned(Ok(2), t2);
    assert F.IntegerRef(2) == "%2$lld";
    assert F.Render(F.FormatterMode.Plural, t1, Number("y")) == F.Rendered(Ok("%2$lld"), t2);
    F.RenderAllSingle(F.FormatterMode.Plural, t1, Number("y"));
  }

  /** The `other` case goes in after the `one` case. */
  lemma ExampleInsertOther()
    ensures var v1 := VariationValue(StringUnit(Translated, "one %arg"));
      var v2 := VariationValue(StringUnit(Translated, "%2$lld"));
      Insert([("one", v1)], "other", v2) == [("one", v1), ("other", v2)]
  {
    var v1 := VariationValue(StringUnit(Translated, "one %arg"));
    var v2 := VariationValue(StringUnit(Translated, "%2$lld"));
    var m := [("one", v1)];
    assert Keys(m) == ["one"];
    assert "other" !in Keys(m) by {
      assert "one"[1] != "other"[1];
    }
    assert m + [("other", v2)] == [("one", v1), ("other", v2)];
  }

  /** The plural of `SharedFormatterExample` from its `other` case on. */
  lemma ExamplePluralTail()
    ensures var v1 := VariationValue(StringUnit(Translated, "one %arg"));
      VariationsFrom(true, F.Table(map["x" := 1], 2), [("one", v1)],
                     [Case("=1", [Literal("one "), Argument("x")]), Case("other", [Number("y")])], 1)
      == Built(Ok([("one", v1), ("other", VariationValue(StringUnit(Translated, "%2$lld")))]),
               F.Table(map["x" := 1, "y" := 2], 3))
  {
    var t2 := F.Table(map["x" := 1, "y" := 2], 3);
    ExampleOtherBody();
    var v1 := VariationValue(StringUnit(Translated, "one %arg"));
    var v2 := VariationValue(StringUnit(Translated, "%2$lld"));
    assert CaseLabel(true, "other") == Ok("other");
    ExampleInsertOther();
    var cases := [Case("=1", [Literal("one "), Argument("x")]), Case("other", [Number("y")])];
    assert VariationsFrom(true, t2, [("one", v1), ("other", v2)], cases, 2) == Built(Ok([("one", v1), ("other", v2)]), t2);
  }

  /** The cases of the plural in `SharedFormatterExample`, from a fresh formatter. */
  lemma ExamplePluralCases()
    ensures VariationsFrom(true, F.Fresh, [], [Case("=1", [Literal("one "), Argument("x")]), Case("other", [Number("y")])], 0)
      == Built(Ok([("one", VariationValue(StringUnit(Translated, "one %arg"))),
                   ("other", VariationValue(StringUnit(Translated, "%2$lld")))]),
               F.Table(map["x" := 1, "y" := 2], 3))
  {
    ExampleOneBody();
    ExamplePluralTail();
    var v1 := VariationValue(StringUnit(Translated, "one %arg"));
    assert CaseLabel(true, "=1") == Ok("one");
    assert Insert([], "one", v1) == [("one", v1)];
  }

  /** The case of the select in `SharedFormatterExample`, after the plural's. */
  lemma ExampleSelectCases()
    ensures VariationsFrom(false, F.Table(map["x" := 1, "y" := 2], 3), [], [Case("male", [Date("d")])], 0)
      == Built(Ok([("male", VariationValue(StringUnit(Translated, "%3$@")))]),
               F.Table(map["x" := 1, "y" := 2, "d" := 3], 4))
  {
    var t2 := F.Table(map["x" := 1, "y" := 2], 3);
    var t3 := F.Table(map["x" := 1, "y" := 2, "d" := 3], 4);
    assert F.DecimalString(3) == "3";
    assert F.Position(t2, "d") == F.Assigned(Ok(3), t3);
    assert F.ObjectRef(3) == "%3$@";
    assert F.Render(F.FormatterMode.Plural, t2, Date("d")) == F.Rendered(Ok("%3$@"), t3);
    F.RenderAllSingle(F.FormatterMode.Plural, t2, Date("d"));
    var v := VariationValue(StringUnit(Translated, "%3$@"));
    assert CaseLabel(false, "male") == Ok("male");
    assert Insert([], "male", v) == [("male", v)];
    var cases := [Case("male", [Date("d")])];
    assert VariationsFrom(false, t3, [("male", v)], cases, 1) == Built(Ok([("male", v)]), t3);
  }

  /** The elements of `SharedFormatterExample`. */
  function ExampleElements(): seq<Elem>
  {
    [ Elem.Plural("n", [Case("=1", [Literal("one "), Argument("x")]), Case("other", [Number("y")])]),
      Elem.Select("g", [Case("male", [Date("d")])]) ]
  }

  /** The entry the plural of `SharedFormatterExample` gets. */
  function ExamplePluralEntry(): Substitution
  {
    Substitution(1, "lld", VariationType.Plural([
      ("one", VariationValue(StringUnit(Translated, "one %arg"))),
      ("other", VariationValue(StringUnit(Translated, "%2$lld")))]))
  }

  /** The entry the select of `SharedFormatterExample` gets. */
  function ExampleSelectEntry(): Substitution
  {
    Substitution(2, "@", VariationType.Select([("male", VariationValue(StringUnit(Translated, "%3$@")))]))
  }

  /** The select's entry goes in after the plural's. */
  lemma ExampleInsertSelect()
    ensures Insert([("n", ExamplePluralEntry())], "g", ExampleSelectEntry())
      == [("n", ExamplePluralEntry()), ("g", ExampleSelectEntry())]
  {
    var m := [("n", ExamplePluralEntry())];
    assert Keys(m) == ["n"];
    assert "g" !in Keys(m) by {
      assert "n"[0] != "g"[0];
    }
    assert m + [("g", ExampleSelectEntry())] == [("n", ExamplePluralEntry()), ("g", ExampleSelectEntry())];
  }

  /** The build of `SharedFormatterExample` from its select on. */
  lemma ExampleBuildTail()
    ensures BuildFrom(F.Table(map["x" := 1, "y" := 2], 3), [("n", ExamplePluralEntry())], ExampleElements(), 1)
      == Built(Ok([("n", ExamplePluralEntry()), ("g", ExampleSelectEntry())]), F.Table(map["x" := 1, "y" := 2, "d" := 3], 4))
  {
    var es := ExampleElements();
    var t2 := F.Table(map["x" := 1, "y" := 2], 3);
    var t3 := F.Table(map["x" := 1, "y" := 2, "d" := 3], 4);
    var n, g := ExamplePluralEntry(), ExampleSelectEntry();
    ExampleSelectCases();
    BuildFromStep(t2, [("n", n)], es, 1);
    var gCases := [("male", VariationValue(StringUnit(Translated, "%3$@")))];
    assert VariationsFrom(false, t2, [], es[1].options, 0) == Built(Ok(gCases), t3);
    assert Entry(es[1], 1, gCases) == g;
    ExampleInsertSelect();
    assert BuildFrom(t3, [("n", n), ("g", g)], es, 2) == Built(Ok([("n", n), ("g", g)]), t3);
  }

  /**
    A plural on `n` with cases `=1` ("one " and argument `x`) and `other`
    (number `y`), then a select on `g` with case `male` (date `d`): `x` takes
    position 1 although it is written `%arg`, `y` goes on at 2 in the next
    case and `d` at 3 in the next element; `=1` is stored as `one`.
  */
  lemma SharedFormatterExample()
    ensures BuildAll(ExampleElements()).result == Ok([("n", ExamplePluralEntry()), ("g", ExampleSelectEntry())])
  {
    var es := ExampleElements();
    var t2 := F.Table(map["x" := 1, "y" := 2], 3);
    var n := ExamplePluralEntry();
    ExamplePluralCases();
    BuildFromStep(F.Fresh, [], es, 0);
    assert Insert([], "n", n) == [("n", n)];
    assert BuildFrom(F.Fresh, [], es, 0) == BuildFrom(t2, [("n", n)], es, 1);
    ExampleBuildTail();
  }
}
