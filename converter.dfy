/**
  The converter (`XCStringConverter`): checks that every locale of a message
  uses the same variables, splits messages with a top-level select into one
  message per case, formats every locale into a `Localization` with its
  substitutions, and gathers the results into an `XCStrings` document,
  stopping at the first error.

  The ICU parser is not part of this model: the converter carries it as the
  function `parse`. The order in which a `HashSet` is iterated is not either:
  the converter carries it as `iterationOrder`, and the lemmas that need it
  to visit exactly the set's members say so (`EnumeratesSets`).
*/
module Converter {
  import opened Results
  import opened OrderedMaps
  import opened Ast
  import opened CatalogTypes
  import opened IcuMessage
  import F = Formatter
  import SB = SubstitutionBuilder

  /** `ConverterOptions`. */
  datatype ConverterOptions = ConverterOptions(
    extractionState: ExtractionState,
    localizationState: LocalizationState,
    splitSelectElements: bool)

  /** `ConverterOptions::default`: manual extraction, translated, and selects are split. */
  const DefaultOptions: ConverterOptions := ConverterOptions(Manual, Translated, true)

  /**
    `XCStringConverter`: the source language and the options, with the parser
    (`Parser::parse` under the converter's parser options) and the iteration
    order of a set of variable names.
  */
  datatype XCStringConverter = XCStringConverter(
    sourceLanguage: string,
    converterOptions: ConverterOptions,
    parse: string -> ParseResult,
    iterationOrder: set<string> -> seq<string>)

  /** An iteration over a set visits its members and nothing else. */
  ghost predicate EnumeratesSets(conv: XCStringConverter)
  {
    forall s: set<string>, x: string :: x in conv.iterationOrder(s) <==> x in s
  }

  /** The converter's errors, one per `Err` it returns, with what its message names. */
  datatype ConvertError =
    | ParseFailure(text: string, cause: string)
    | VariableCountMismatch(key: string, locale: string, found: nat, expected: nat)
    | VariableNameMismatch(key: string, locale: string, variable: string)
    | MissingVariable(key: string, locale: string, variable: string)
    | SelectNotSupported(key: string)
    | NoMessages(key: string)
    | LocaleParseFailure(locale: string, cause: string)
    | SubstitutionFailure(locale: string, buildError: SB.BuildError)
    | FormatFailure(formatError: F.FormatError)

  // ----- Variables -----

  /** The variables of a template: every argument, number, date, plural and select name, at any depth. */
  function Variables(es: seq<Elem>): set<string>
  {
    if es == [] then {} else Variables(es[..|es| - 1]) + ElementVariables(es[|es| - 1])
  }

  function ElementVariables(e: Elem): set<string>
  {
    match e
    case Argument(name) => {name}
    case Number(name) => {name}
    case Date(name) => {name}
    case Plural(name, options) => {name} + OptionVariables(options)
    case Select(name, options) => {name} + OptionVariables(options)
    case _ => {}
  }

  /** The variables of every case body of a plural or select. */
  function OptionVariables(options: seq<Case>): set<string>
  {
    if options == [] then {} else OptionVariables(options[..|options| - 1]) + Variables(options[|options| - 1].body)
  }

  /** `collect_variables_from_ast`: adds the variables of `elements` to `variables`. */
  method CollectVariablesFromAst(elements: seq<Elem>, variables: set<string>) returns (result: set<string>)
    ensures result == variables + Variables(elements)
  {
    result := variables;
    for i := 0 to |elements|
      invariant result == variables + Variables(elements[..i])
    {
      assert elements[..i + 1][..i] == elements[..i];
      match elements[i] {
        case Argument(name) =>
          result := result + {name};
        case Number(name) =>
          result := result + {name};
        case Date(name) =>
          result := result + {name};
        case Plural(name, options) =>
          result := result + {name};
          for c := 0 to |options|
            invariant result == variables + Variables(elements[..i]) + {name} + OptionVariables(options[..c])
          {
            assert options[..c + 1][..c] == options[..c];
            result := CollectVariablesFromAst(options[c].body, result);
          }
          assert options[..|options|] == options;
        case Select(name, options) =>
          result := result + {name};
          for c := 0 to |options|
            invariant result == variables + Variables(elements[..i]) + {name} + OptionVariables(options[..c])
          {
            assert options[..c + 1][..c] == options[..c];
            result := CollectVariablesFromAst(options[c].body, result);
          }
          assert options[..|options|] == options;
        case _ =>
      }
    }
    assert elements[..|elements|] == elements;
  }

  /** The variables of a template are those of its elements, wherever it is cut. */
  lemma {:induction false} VariablesAppend(a: seq<Elem>, b: seq<Elem>)
    ensures Variables(a + b) == Variables(a) + Variables(b)
    decreases |b|
  {
    if b == [] {
      assert a + b == a;
    } else {
      var init := b[..|b| - 1];
      assert (a + b)[..|a + b| - 1] == a + init;
      VariablesAppend(a, init);
    }
  }

  /** The variables of a template are exactly those of its elements. */
  lemma {:induction false} VariablesOfElements(es: seq<Elem>, name: string)
    ensures name in Variables(es) <==> exists i :: 0 <= i < |es| && name in ElementVariables(es[i])
    decreases |es|
  {
    if es != [] {
      var init := es[..|es| - 1];
      VariablesOfElements(init, name);
      if exists i :: 0 <= i < |init| && name in ElementVariables(init[i]) {
        var i :| 0 <= i < |init| && name in ElementVariables(init[i]);
        assert es[i] == init[i];
      }
      if exists i :: 0 <= i < |es| && name in ElementVariables(es[i]) {
        var i :| 0 <= i < |es| && name in ElementVariables(es[i]);
        if i < |init| {
          assert init[i] == es[i];
        }
      }
    }
  }

  /** The variables of plural and select cases are those of their bodies. */
  lemma {:induction false} OptionVariablesOfBodies(options: seq<Case>, name: string)
    ensures name in OptionVariables(options) <==> exists c :: 0 <= c < |options| && name in Variables(options[c].body)
    decreases |options|
  {
    if options != [] {
      var init := options[..|options| - 1];
      OptionVariablesOfBodies(init, name);
      if exists c :: 0 <= c < |init| && name in Variables(init[c].body) {
        var c :| 0 <= c < |init| && name in Variables(init[c].body);
        assert options[c] == init[c];
      }
      if exists c :: 0 <= c < |options| && name in Variables(options[c].body) {
        var c :| 0 <= c < |options| && name in Variables(options[c].body);
        if c < |init| {
          assert init[c] == options[c];
        }
      }
    }
  }

  /** Every name the formatter numbers in a template is one of its variables. */
  lemma {:induction false} NumberedNamesAreVariables(es: seq<Elem>)
    ensures forall name :: name in F.References(es) ==> name in Variables(es)
    decreases |es|
  {
    if es != [] {
      NumberedNamesAreVariables(es[1..]);
      assert es == [es[0]] + es[1..];
      VariablesAppend([es[0]], es[1..]);
      assert [es[0]][..0] == [];
    }
  }

  /** The template's text, parsed: its variables, or the parse error. */
  function ExtractVariables(conv: XCStringConverter, text: string): Result<set<string>, ConvertError>
  {
    match conv.parse(text)
    case Ok(es) => Ok(Variables(es))
    case Err(cause) => Err(ParseFailure(text, cause))
  }

  /** `extract_variables_cached`: parses the text and collects its variables into an empty set. */
  method ExtractVariablesCached(conv: XCStringConverter, text: string) returns (r: Result<set<string>, ConvertError>)
    ensures r == ExtractVariables(conv, text)
  {
    match conv.parse(text) {
      case Ok(parsed) =>
        var variables := CollectVariablesFromAst(parsed, {});
        assert variables == Variables(parsed);
        r := Ok(variables);
      case Err(cause) =>
        r := Err(ParseFailure(text, cause));
    }
  }

  // ----- Validation -----

  /** The first member of `order[k..]` that is not in `s`. */
  function FirstOutside(order: seq<string>, s: set<string>, k: nat): (r: Option<string>)
    requires k <= |order|
    ensures r.Some? ==> r.value !in s && exists j :: k <= j < |order| && order[j] == r.value
    ensures r.None? <==> forall j :: k <= j < |order| ==> order[j] in s
    decreases |order| - k
  {
    if k == |order| then None
    else if order[k] !in s then Some(order[k])
    else FirstOutside(order, s, k + 1)
  }

  /**
    The check of `validate_variable_consistency_optimized` from locale `i` on:
    the first locale's variables are the reference; a later locale with a
    different number of variables, then one with a variable outside the
    reference, then one missing a reference variable, is an error.
  */
  function ValidateFrom(conv: XCStringConverter, key: string, messages: OrderedMap<string, LocalizableICUMessageValue>,
                        reference: Option<set<string>>, i: nat): Result<(), ConvertError>
    requires i <= |messages|
    decreases |messages| - i
  {
    if i == |messages| then Ok(())
    else match ExtractVariables(conv, messages[i].1.value)
      case Err(e) => Err(e)
      case Ok(variables) =>
        match reference
        case None => ValidateFrom(conv, key, messages, Some(variables), i + 1)
        case Some(expected) =>
          var locale := messages[i].0;
          if |variables| != |expected| then Err(VariableCountMismatch(key, locale, |variables|, |expected|))
          else match FirstOutside(conv.iterationOrder(variables), expected, 0)
            case Some(v) => Err(VariableNameMismatch(key, locale, v))
            case None =>
              match FirstOutside(conv.iterationOrder(expected), variables, 0)
              case Some(v) => Err(MissingVariable(key, locale, v))
              case None => ValidateFrom(conv, key, messages, reference, i + 1)
  }

  function Validate(conv: XCStringConverter, message: LocalizableICUMessage): Result<(), ConvertError>
  {
    ValidateFrom(conv, message.key, message.messages, None, 0)
  }

  /** `validate_variable_consistency_optimized`. */
  method ValidateVariableConsistency(conv: XCStringConverter, message: LocalizableICUMessage) returns (r: Result<(), ConvertError>)
    ensures r == Validate(conv, message)
  {
    var reference: Option<set<string>> := None;
    for i := 0 to |message.messages|
      invariant Validate(conv, message) == ValidateFrom(conv, message.key, message.messages, reference, i)
    {
      var (locale, value) := message.messages[i];
      var variables :- ExtractVariablesCached(conv, value.value);
      match reference {
        case None =>
          reference := Some(variables);
        case Some(expected) =>
          if |variables| != |expected| {
            return Err(VariableCountMismatch(message.key, locale, |variables|, |expected|));
          }
          var order := conv.iterationOrder(variables);
          for k := 0 to |order|
            invariant FirstOutside(order, expected, 0) == FirstOutside(order, expected, k)
          {
            if order[k] !in expected {
              return Err(VariableNameMismatch(message.key, locale, order[k]));
            }
          }
          var expectedOrder := conv.iterationOrder(expected);
          for k := 0 to |expectedOrder|
            invariant FirstOutside(expectedOrder, variables, 0) == FirstOutside(expectedOrder, variables, k)
          {
            if expectedOrder[k] !in variables {
              return Err(MissingVariable(message.key, locale, expectedOrder[k]));
            }
          }
      }
    }
    r := Ok(());
  }

  /** A subset as large as its superset is the superset. */
  lemma SubsetOfEqualSize(a: set<string>, b: set<string>)
    requires a <= b && |a| == |b|
    ensures a == b
  {
    assert b == a + (b - a);
    assert a * (b - a) == {};
    assert |b - a| == 0;
  }

  /** Every locale parses and has the same variables as the first. */
  ghost predicate Consistent(conv: XCStringConverter, messages: OrderedMap<string, LocalizableICUMessageValue>)
  {
    forall i :: 0 <= i < |messages| ==>
      ExtractVariables(conv, messages[i].1.value).Ok? &&
      ExtractVariables(conv, messages[i].1.value) == ExtractVariables(conv, messages[0].1.value)
  }

  /**
    For two sets of the same size, iterating the first finds no member outside
    the second exactly when they are equal, and then iterating the second
    finds none outside the first either.
  */
  lemma SameVariables(conv: XCStringConverter, found: set<string>, expected: set<string>)
    requires EnumeratesSets(conv) && |found| == |expected|
    ensures FirstOutside(conv.iterationOrder(found), expected, 0).None? <==> found == expected
    ensures found == expected ==> FirstOutside(conv.iterationOrder(expected), found, 0).None?
  {
    var order := conv.iterationOrder(found);
    if FirstOutside(order, expected, 0).None? {
      assert found <= expected by {
        forall x | x in found ensures x in expected {
          assert x in order;
        }
      }
      SubsetOfEqualSize(found, expected);
    }
    if found == expected {
      forall j | 0 <= j < |order| ensures order[j] in expected {
        assert order[j] in order;
      }
    }
  }

  /** One locale of the check against a reference: it passes exactly when its variables are the reference's. */
  lemma ValidateFromStep(conv: XCStringConverter, key: string,
                         messages: OrderedMap<string, LocalizableICUMessageValue>, expected: set<string>, i: nat)
    requires EnumeratesSets(conv) && i < |messages|
    ensures var extracted := ExtractVariables(conv, messages[i].1.value);
      var r := ValidateFrom(conv, key, messages, Some(expected), i);
      && (r.Ok? <==> extracted == Ok(expected) && ValidateFrom(conv, key, messages, Some(expected), i + 1).Ok?)
      && (r.Err? && r.error.MissingVariable? ==> extracted == Ok(expected) && r == ValidateFrom(conv, key, messages, Some(expected), i + 1))
  {
    var extracted := ExtractVariables(conv, messages[i].1.value);
    if extracted.Ok? && |extracted.value| == |expected| {
      SameVariables(conv, extracted.value, expected);
    }
  }

  /** A locale with exactly the reference's variables passes, and the check goes on with the next. */
  lemma ValidateFromPass(conv: XCStringConverter, key: string,
                         messages: OrderedMap<string, LocalizableICUMessageValue>, expected: set<string>, i: nat)
    requires EnumeratesSets(conv) && i < |messages|
    requires ExtractVariables(conv, messages[i].1.value) == Ok(expected)
    ensures ValidateFrom(conv, key, messages, Some(expected), i) == ValidateFrom(conv, key, messages, Some(expected), i + 1)
  {
    SameVariables(conv, expected, expected);
  }

  lemma {:induction false} ValidateFromConsistent(conv: XCStringConverter, key: string,
                                                  messages: OrderedMap<string, LocalizableICUMessageValue>, expected: set<string>, i: nat)
    requires EnumeratesSets(conv) && i <= |messages|
    ensures ValidateFrom(conv, key, messages, Some(expected), i).Ok? <==>
      forall j :: i <= j < |messages| ==> ExtractVariables(conv, messages[j].1.value) == Ok(expected)
    ensures !(ValidateFrom(conv, key, messages, Some(expected), i).Err? &&
              ValidateFrom(conv, key, messages, Some(expected), i).error.MissingVariable?)
    decreases |messages| - i
  {
    if i < |messages| {
      if ExtractVariables(conv, messages[i].1.value) == Ok(expected) {
        ValidateFromPass(conv, key, messages, expected, i);
        ValidateFromConsistent(conv, key, messages, expected, i + 1);
        assert (forall j :: i <= j < |messages| ==> ExtractVariables(conv, messages[j].1.value) == Ok(expected)) <==>
          (forall j :: i + 1 <= j < |messages| ==> ExtractVariables(conv, messages[j].1.value) == Ok(expected));
      } else {
        ValidateFromStep(conv, key, messages, expected, i);
      }
    }
  }

  /**
    With a set iteration that visits every member, a message passes the check
    exactly when every locale parses and has the variables of the first, and
    the missing-variable error is never reported: a locale with as many
    variables as the reference and none outside it has all of them.
  */
  lemma ValidateAcceptsConsistent(conv: XCStringConverter, message: LocalizableICUMessage)
    requires EnumeratesSets(conv)
    ensures Validate(conv, message).Ok? <==> Consistent(conv, message.messages)
    ensures !(Validate(conv, message).Err? && Validate(conv, message).error.MissingVariable?)
  {
    var messages := message.messages;
    if messages != [] {
      var first := ExtractVariables(conv, messages[0].1.value);
      ValidateFromFirst(conv, message.key, messages);
      if first.Ok? {
        ValidateFromConsistent(conv, message.key, messages, first.value, 1);
        assert Consistent(conv, messages) <==>
          forall j :: 1 <= j < |messages| ==> ExtractVariables(conv, messages[j].1.value) == Ok(first.value);
      } else {
        assert !Consistent(conv, messages);
      }
    }
  }

  /** The first locale only sets the reference, or ends the check with its parse error. */
  lemma ValidateFromFirst(conv: XCStringConverter, key: string, messages: OrderedMap<string, LocalizableICUMessageValue>)
    requires messages != []
    ensures var first := ExtractVariables(conv, messages[0].1.value);
      ValidateFrom(conv, key, messages, None, 0) ==
        if first.Err? then Err(first.error) else ValidateFrom(conv, key, messages, Some(first.value), 1)
  {
  }

  /**
    The error a message gets is that of the first locale that differs from
    the first: a count mismatch if the numbers of variables differ, otherwise
    a name mismatch naming one of its variables that the first locale lacks.
  */
  lemma ValidateReportsFirstDeviation(conv: XCStringConverter, message: LocalizableICUMessage, i: nat)
    requires EnumeratesSets(conv)
    requires 0 < i < |message.messages|
    requires forall j :: 0 <= j <= i ==> ExtractVariables(conv, message.messages[j].1.value).Ok?
    requires forall j :: 0 < j < i ==>
      ExtractVariables(conv, message.messages[j].1.value).value == ExtractVariables(conv, message.messages[0].1.value).value
    requires ExtractVariables(conv, message.messages[i].1.value).value != ExtractVariables(conv, message.messages[0].1.value).value
    ensures var found := ExtractVariables(conv, message.messages[i].1.value).value;
      var expected := ExtractVariables(conv, message.messages[0].1.value).value;
      var locale := message.messages[i].0;
      && Validate(conv, message).Err?
      && (|found| != |expected| ==> Validate(conv, message).error == VariableCountMismatch(message.key, locale, |found|, |expected|))
      && (|found| == |expected| ==>
            Validate(conv, message).error.VariableNameMismatch? &&
            Validate(conv, message).error.locale == locale &&
            Validate(conv, message).error.variable in found - expected)
  {
    var messages := message.messages;
    var expected := ExtractVariables(conv, messages[0].1.value).value;
    ValidateFromFirstDeviation(conv, message.key, messages, expected, 1, i);
  }

  lemma {:induction false} ValidateFromFirstDeviation(conv: XCStringConverter, key: string,
                                                      messages: OrderedMap<string, LocalizableICUMessageValue>,
                                                      expected: set<string>, k: nat, i: nat)
    requires EnumeratesSets(conv)
    requires k <= i < |messages|
    requires forall j :: k <= j <= i ==> ExtractVariables(conv, messages[j].1.value).Ok?
    requires forall j :: k <= j < i ==> ExtractVariables(conv, messages[j].1.value).value == expected
    requires ExtractVariables(conv, messages[i].1.value).value != expected
    ensures var found := ExtractVariables(conv, messages[i].1.value).value;
      var r := ValidateFrom(conv, key, messages, Some(expected), k);
      && r.Err?
      && (|found| != |expected| ==> r.error == VariableCountMismatch(key, messages[i].0, |found|, |expected|))
      && (|found| == |expected| ==>
            r.error.VariableNameMismatch? && r.error.locale == messages[i].0 && r.error.variable in found - expected)
    decreases i - k
  {
    var found := ExtractVariables(conv, messages[k].1.value).value;
    if |found| == |expected| {
      SameVariables(conv, found, expected);
    }
    if k < i {
      ValidateFromPass(conv, key, messages, expected, k);
      ValidateFromFirstDeviation(conv, key, messages, expected, k + 1, i);
    } else if |found| == |expected| {
      var outside := FirstOutside(conv.iterationOrder(found), expected, 0);
      assert outside.value in found;
    }
  }

  // ----- Select detection -----

  /** The index of the first top-level select. */
  function FirstSelect(es: seq<Elem>): (r: Option<nat>)
    ensures r.Some? ==> r.value < |es| && es[r.value].Select? && forall j :: 0 <= j < r.value ==> !es[j].Select?
    ensures r.None? <==> forall j :: 0 <= j < |es| ==> !es[j].Select?
  {
    if es == [] then None
    else if es[0].Select? then Some(0)
    else match FirstSelect(es[1..])
      case None => None
      case Some(j) => Some(j + 1)
  }

  /**
    `has_select_elements_optimized`: some locale parses to a template with a
    select among its top-level elements; a locale that does not parse counts
    as having none, and selects nested in a case body are not looked at.
  */
  function HasSelectElements(conv: XCStringConverter, messages: OrderedMap<string, LocalizableICUMessageValue>): (r: bool)
    ensures r <==> exists i, j :: 0 <= i < |messages| && conv.parse(messages[i].1.value).Ok? &&
                                 0 <= j < |conv.parse(messages[i].1.value).value| && conv.parse(messages[i].1.value).value[j].Select?
  {
    if messages == [] then false
    else
      var first := conv.parse(messages[0].1.value);
      var here := first.Ok? && FirstSelect(first.value).Some?;
      assert here ==> conv.parse(messages[0].1.value).value[FirstSelect(first.value).value].Select?;
      assert forall i :: 0 < i < |messages| ==> messages[i] == messages[1..][i - 1];
      here || HasSelectElements(conv, messages[1..])
  }

  // ----- Replacing a select by one of its cases -----

  /** The index of the first case keyed `key`. */
  function FindCase(options: seq<Case>, key: string): (r: Option<nat>)
    ensures r.Some? ==> r.value < |options| && options[r.value].key == key && forall c :: 0 <= c < r.value ==> options[c].key != key
    ensures r.None? <==> forall c :: 0 <= c < |options| ==> options[c].key != key
  {
    if options == [] then None
    else if options[0].key == key then Some(0)
    else match FindCase(options[1..], key)
      case None => None
      case Some(c) => Some(c + 1)
  }

  /** What stands for a select once case `caseKey` is chosen: that case's body, else the `other` body, else nothing. */
  function CaseBody(options: seq<Case>, caseKey: string): seq<Elem>
  {
    match FindCase(options, caseKey)
    case Some(c) => options[c].body
    case None =>
      match FindCase(options, "other")
      case Some(c) => options[c].body
      case None => []
  }

  /** The elements with every top-level select replaced by its body for `caseKey`. */
  function Expand(es: seq<Elem>, caseKey: string): seq<Elem>
  {
    if es == [] then []
    else Expand(es[..|es| - 1], caseKey) + ExpandElement(es[|es| - 1], caseKey)
  }

  function ExpandElement(e: Elem, caseKey: string): seq<Elem>
  {
    if e.Select? then CaseBody(e.options, caseKey) else [e]
  }

  lemma ExpandSnoc(es: seq<Elem>, e: Elem, caseKey: string)
    ensures Expand(es + [e], caseKey) == Expand(es, caseKey) + ExpandElement(e, caseKey)
  {
    assert (es + [e])[..|es + [e]| - 1] == es;
  }

  /** A text and the state a `StringUnit` formatter is left in. */
  datatype Lenient = Lenient(text: string, table: F.Table)

  /**
    The elements formatted one after the other by one `StringUnit`
    formatter, where an element that fails contributes `""` and the
    formatting goes on (`unwrap_or_default`).
  */
  function LenientAll(t: F.Table, es: seq<Elem>): Lenient
  {
    if es == [] then Lenient("", t)
    else
      var init := LenientAll(t, es[..|es| - 1]);
      var last := F.Render(F.FormatterMode.StringUnit, init.table, es[|es| - 1]);
      Lenient(init.text + (if last.result.Ok? then last.result.value else ""), last.table)
  }

  /**
    `replace_select_with_case_optimized`: the text formatted with a fresh
    `StringUnit` formatter, every top-level select replaced by the body of the
    chosen case; a text that does not parse is returned as it is.
  */
  function ReplaceSelectWithCase(conv: XCStringConverter, text: string, caseKey: string): string
  {
    match conv.parse(text)
    case Err(_) => text
    case Ok(es) => LenientAll(F.Fresh, Expand(es, caseKey)).text
  }

  lemma LenientAllSnoc(t: F.Table, es: seq<Elem>, e: Elem)
    ensures var init := LenientAll(t, es);
      var last := F.Render(F.FormatterMode.StringUnit, init.table, e);
      LenientAll(t, es + [e]) == Lenient(init.text + (if last.result.Ok? then last.result.value else ""), last.table)
  {
    assert (es + [e])[..|es + [e]| - 1] == es;
  }

  /** Formats `e` after `done` through `formatter`; a failing element contributes `""`. */
  method FormatOneLeniently(formatter: F.XCStringFormatter, ghost done: seq<Elem>, text: string, e: Elem) returns (result: string)
    requires formatter.Valid() && formatter.mode == F.FormatterMode.StringUnit
    requires Lenient(text, formatter.State()) == LenientAll(F.Fresh, done)
    modifies formatter
    ensures formatter.Valid()
    ensures Lenient(result, formatter.State()) == LenientAll(F.Fresh, done + [e])
  {
    var piece := formatter.Format(e);
    LenientAllSnoc(F.Fresh, done, e);
    result := text + (if piece.Ok? then piece.value else "");
  }

  /** Formats `body` after `done` through `formatter`, an element that fails contributing `""`. */
  method FormatLeniently(formatter: F.XCStringFormatter, ghost done: seq<Elem>, text: string, body: seq<Elem>) returns (result: string)
    requires formatter.Valid() && formatter.mode == F.FormatterMode.StringUnit
    requires Lenient(text, formatter.State()) == LenientAll(F.Fresh, done)
    modifies formatter
    ensures formatter.Valid()
    ensures Lenient(result, formatter.State()) == LenientAll(F.Fresh, done + body)
  {
    result := text;
    ghost var formatted := done;
    PrefixSteps(done, body, 0);
    for k := 0 to |body|
      invariant formatter.Valid() && formatter.mode == F.FormatterMode.StringUnit
      invariant formatted == done + body[..k]
      invariant Lenient(result, formatter.State()) == LenientAll(F.Fresh, formatted)
    {
      PrefixSteps(done, body, k);
      result := FormatOneLeniently(formatter, formatted, result, body[k]);
      formatted := formatted + [body[k]];
    }
    PrefixSteps(done, body, |body|);
  }

  /** The prefixes `done + body[..k]` the loop of `FormatLeniently` goes through. */
  lemma PrefixSteps(done: seq<Elem>, body: seq<Elem>, k: nat)
    requires k <= |body|
    ensures k == 0 ==> done + body[..k] == done
    ensures k < |body| ==> done + body[..k + 1] == (done + body[..k]) + [body[k]]
    ensures k == |body| ==> done + body[..k] == done + body
  {
    if k < |body| {
      assert body[..k + 1] == body[..k] + [body[k]];
    }
    if k == |body| {
      assert body[..k] == body;
    }
  }

  /** `replace_select_with_case_optimized`, with the formatter it creates. */
  method ReplaceSelectWithCaseOptimized(conv: XCStringConverter, originalValue: string, caseKey: string) returns (result: string)
    ensures result == ReplaceSelectWithCase(conv, originalValue, caseKey)
  {
    match conv.parse(originalValue) {
      case Err(_) =>
        result := originalValue;
      case Ok(parsed) =>
        var formatter := new F.XCStringFormatter(F.FormatterMode.StringUnit);
        result := "";
        ghost var done: seq<Elem> := [];
        for i := 0 to |parsed|
          invariant formatter.Valid() && formatter.mode == F.FormatterMode.StringUnit
          invariant done == Expand(parsed[..i], caseKey)
          invariant Lenient(result, formatter.State()) == LenientAll(F.Fresh, done)
        {
          ExpandPrefix(parsed, i, caseKey);
          if parsed[i].Select? {
            var body := CaseBody(parsed[i].options, caseKey);
            assert ExpandElement(parsed[i], caseKey) == body;
            result := FormatLeniently(formatter, done, result, body);
            done := done + body;
          } else {
            assert ExpandElement(parsed[i], caseKey) == [parsed[i]];
            result := FormatOneLeniently(formatter, done, result, parsed[i]);
            done := done + [parsed[i]];
          }
        }
        ExpandPrefix(parsed, |parsed|, caseKey);
    }
  }

  /** The expansions `Expand(es[..i])` the loop of `ReplaceSelectWithCaseOptimized` goes through. */
  lemma ExpandPrefix(es: seq<Elem>, i: nat, caseKey: string)
    requires i <= |es|
    ensures i < |es| ==> Expand(es[..i + 1], caseKey) == Expand(es[..i], caseKey) + ExpandElement(es[i], caseKey)
    ensures i == |es| ==> Expand(es[..i], caseKey) == Expand(es, caseKey)
  {
    if i < |es| {
      assert es[..i + 1] == es[..i] + [es[i]];
      ExpandSnoc(es[..i], es[i], caseKey);
    } else {
      assert es[..i] == es;
    }
  }

  /** Where nothing fails, the lenient formatting is `format_batch`. */
  lemma {:induction false} LenientAgreesWithFormatBatch(t: F.Table, es: seq<Elem>)
    ensures var strict := F.RenderAll(F.FormatterMode.StringUnit, t, es);
      strict.result.Ok? ==> LenientAll(t, es) == Lenient(strict.result.value, strict.table)
    decreases |es|
  {
    if es != [] {
      var init := es[..|es| - 1];
      var e := es[|es| - 1];
      assert es == init + [e];
      F.RenderAllAppend(F.FormatterMode.StringUnit, t, init, [e]);
      LenientAgreesWithFormatBatch(t, init);
      var ri := F.RenderAll(F.FormatterMode.StringUnit, t, init);
      if ri.result.Ok? {
        F.RenderAllSingle(F.FormatterMode.StringUnit, ri.table, e);
      }
    }
  }

  /** A template with no top-level select is not changed by the expansion. */
  lemma {:induction false} ExpandWithoutSelect(es: seq<Elem>, caseKey: string)
    requires forall i :: 0 <= i < |es| ==> !es[i].Select?
    ensures Expand(es, caseKey) == es
    decreases |es|
  {
    if es != [] {
      ExpandWithoutSelect(es[..|es| - 1], caseKey);
      assert es[..|es| - 1] + [es[|es| - 1]] == es;
    }
  }

  /** The body chosen for a case is one of the select's case bodies (or empty). */
  lemma CaseBodyIsAnOption(options: seq<Case>, caseKey: string)
    ensures CaseBody(options, caseKey) == [] || exists c :: 0 <= c < |options| && options[c].body == CaseBody(options, caseKey)
  {
  }

  /** Replacing selects by case bodies introduces no variable. */
  lemma {:induction false} ExpandAddsNoVariables(es: seq<Elem>, caseKey: string)
    ensures Variables(Expand(es, caseKey)) <= Variables(es)
    decreases |es|
  {
    if es != [] {
      var init := es[..|es| - 1];
      var e := es[|es| - 1];
      ExpandAddsNoVariables(init, caseKey);
      VariablesAppend(Expand(init, caseKey), ExpandElement(e, caseKey));
      if e.Select? {
        var body := CaseBody(e.options, caseKey);
        CaseBodyIsAnOption(e.options, caseKey);
        forall name | name in Variables(body) ensures name in OptionVariables(e.options) {
          OptionVariablesOfBodies(e.options, name);
        }
      } else {
        assert Variables([e]) == Variables([]) + ElementVariables(e) by {
          assert [e][..0] == [];
        }
      }
    }
  }

  /**
    A text that parses comes back as the template, with each top-level select
    replaced by the chosen case, formatted by a fresh `StringUnit` formatter
    whenever that formatting succeeds; it has no variable the template lacks.
    A text that does not parse comes back unchanged.
  */
  lemma ReplaceSelectWithCaseFormats(conv: XCStringConverter, text: string, caseKey: string)
    ensures conv.parse(text).Err? ==> ReplaceSelectWithCase(conv, text, caseKey) == text
    ensures conv.parse(text).Ok? ==>
      var expanded := Expand(conv.parse(text).value, caseKey);
      var strict := F.RenderAll(F.FormatterMode.StringUnit, F.Fresh, expanded);
      && Variables(expanded) <= Variables(conv.parse(text).value)
      && (strict.result.Ok? ==> ReplaceSelectWithCase(conv, text, caseKey) == strict.result.value)
  {
    if conv.parse(text).Ok? {
      var es := conv.parse(text).value;
      ExpandAddsNoVariables(es, caseKey);
      LenientAgreesWithFormatBatch(F.Fresh, Expand(es, caseKey));
    }
  }

  // ----- Splitting a message on its select -----

  /** The value a locale gets in the message for case `caseKey`: the replaced text, the same state. */
  function ReplacedValue(conv: XCStringConverter, v: LocalizableICUMessageValue, caseKey: string): LocalizableICUMessageValue
  {
    LocalizableICUMessageValue(ReplaceSelectWithCase(conv, v.value, caseKey), v.state)
  }

  /** The locales of the message for case `caseKey`, inserted in the original order. */
  function ReplaceMessages(conv: XCStringConverter, messages: OrderedMap<string, LocalizableICUMessageValue>, caseKey: string)
    : OrderedMap<string, LocalizableICUMessageValue>
  {
    if messages == [] then []
    else
      var last := messages[|messages| - 1];
      Insert(ReplaceMessages(conv, messages[..|messages| - 1], caseKey), last.0, ReplacedValue(conv, last.1, caseKey))
  }

  /** The message for case `caseKey`: keyed `<key>_<caseKey>`, the same comment. */
  function SplitPart(conv: XCStringConverter, message: LocalizableICUMessage, caseKey: string): LocalizableICUMessage
  {
    LocalizableICUMessage(message.key + "_" + caseKey, ReplaceMessages(conv, message.messages, caseKey), message.comment)
  }

  /** One message per case, in the declared order. */
  function SplitParts(conv: XCStringConverter, message: LocalizableICUMessage, options: seq<Case>): seq<LocalizableICUMessage>
  {
    if options == [] then []
    else SplitParts(conv, message, options[..|options| - 1]) + [SplitPart(conv, message, options[|options| - 1].key)]
  }

  /** The cases of the first top-level select of the first locale; none if it does not parse or has no select. */
  function SplitCases(conv: XCStringConverter, message: LocalizableICUMessage): seq<Case>
  {
    if message.messages == [] then []
    else match conv.parse(message.messages[0].1.value)
      case Err(_) => []
      case Ok(es) =>
        match FirstSelect(es)
        case None => []
        case Some(j) => es[j].options
  }

  /**
    `split_select_message_optimized`: a message with no locale is an error;
    otherwise one message per case of `SplitCases`, or, when there is none,
    the message itself.
  */
  function SplitSelectMessage(conv: XCStringConverter, message: LocalizableICUMessage): Result<seq<LocalizableICUMessage>, ConvertError>
  {
    if message.messages == [] then Err(NoMessages(message.key))
    else
      var parts := SplitParts(conv, message, SplitCases(conv, message));
      Ok(if parts == [] then [message] else parts)
  }

  /** The locales of the message for case `caseKey`: each text replaced, inserted in the original order. */
  method ReplaceMessagesOptimized(conv: XCStringConverter, messages: OrderedMap<string, LocalizableICUMessageValue>, caseKey: string)
    returns (newMessages: OrderedMap<string, LocalizableICUMessageValue>)
    ensures newMessages == ReplaceMessages(conv, messages, caseKey)
  {
    newMessages := [];
    for l := 0 to |messages|
      invariant newMessages == ReplaceMessages(conv, messages[..l], caseKey)
    {
      assert messages[..l + 1][..l] == messages[..l];
      var (locale, value) := messages[l];
      var newValue := ReplaceSelectWithCaseOptimized(conv, value.value, caseKey);
      newMessages := Insert(newMessages, locale, LocalizableICUMessageValue(newValue, value.state));
    }
    assert messages[..|messages|] == messages;
  }

  method SplitSelectMessageOptimized(conv: XCStringConverter, message: LocalizableICUMessage)
    returns (r: Result<seq<LocalizableICUMessage>, ConvertError>)
    ensures r == SplitSelectMessage(conv, message)
  {
    if message.messages == [] {
      return Err(NoMessages(message.key));
    }
    var options := SplitCases(conv, message);
    var splitMessages: seq<LocalizableICUMessage> := [];
    for c := 0 to |options|
      invariant splitMessages == SplitParts(conv, message, options[..c])
    {
      assert options[..c + 1][..c] == options[..c];
      var caseKey := options[c].key;
      var newMessages := ReplaceMessagesOptimized(conv, message.messages, caseKey);
      splitMessages := splitMessages + [LocalizableICUMessage(message.key + "_" + caseKey, newMessages, message.comment)];
    }
    assert options[..|options|] == options;
    if splitMessages == [] {
      r := Ok([message]);
    } else {
      r := Ok(splitMessages);
    }
  }

  /** With distinct locales, the locales of a split message are the original ones, in order, each replaced. */
  lemma {:induction false} ReplaceMessagesPerLocale(conv: XCStringConverter, messages: OrderedMap<string, LocalizableICUMessageValue>, caseKey: string)
    requires KeysDistinct(messages)
    ensures var r := ReplaceMessages(conv, messages, caseKey);
      |r| == |messages| && forall l :: 0 <= l < |messages| ==> r[l] == (messages[l].0, ReplacedValue(conv, messages[l].1, caseKey))
    decreases |messages|
  {
    if messages != [] {
      var init := messages[..|messages| - 1];
      var last := messages[|messages| - 1];
      ReplaceMessagesPerLocale(conv, init, caseKey);
      var r0 := ReplaceMessages(conv, init, caseKey);
      assert last.0 !in Keys(r0) by {
        forall l | 0 <= l < |r0| ensures r0[l].0 != last.0 {
          assert r0[l].0 == messages[l].0;
        }
      }
    }
  }

  /** The parts, one per case in order. */
  lemma {:induction false} SplitPartsPerCase(conv: XCStringConverter, message: LocalizableICUMessage, options: seq<Case>)
    ensures var parts := SplitParts(conv, message, options);
      |parts| == |options| && forall c :: 0 <= c < |options| ==> parts[c] == SplitPart(conv, message, options[c].key)
    decreases |options|
  {
    if options != [] {
      SplitPartsPerCase(conv, message, options[..|options| - 1]);
    }
  }

  /**
    Splitting fails exactly on a message with no locale. Otherwise, when the
    first locale's first top-level select has cases, there is one message per
    case, in declared order, keyed `<key>_<case>`, with the same comment and
    the same locales in the same order, each with its state and its text
    replaced for that case; when it has none, the message comes back as it is.
  */
  lemma SplitSelectMessageParts(conv: XCStringConverter, message: LocalizableICUMessage)
    requires KeysDistinct(message.messages)
    ensures SplitSelectMessage(conv, message).Ok? <==> message.messages != []
    ensures SplitSelectMessage(conv, message).Err? ==> SplitSelectMessage(conv, message).error == NoMessages(message.key)
    ensures message.messages != [] && SplitCases(conv, message) == [] ==> SplitSelectMessage(conv, message).value == [message]
    ensures message.messages != [] && SplitCases(conv, message) != [] ==>
      var parts := SplitSelectMessage(conv, message).value;
      var cases := SplitCases(conv, message);
      && |parts| == |cases|
      && forall c :: 0 <= c < |cases| ==>
           && parts[c].key == message.key + "_" + cases[c].key
           && parts[c].comment == message.comment
           && |parts[c].messages| == |message.messages|
           && forall l :: 0 <= l < |message.messages| ==>
                parts[c].messages[l] == (message.messages[l].0, ReplacedValue(conv, message.messages[l].1, cases[c].key))
  {
    var cases := SplitCases(conv, message);
    var parts := SplitParts(conv, message, cases);
    SplitPartsPerCase(conv, message, cases);
    forall c | 0 <= c < |cases|
      ensures && parts[c].key == message.key + "_" + cases[c].key
              && parts[c].comment == message.comment
              && |parts[c].messages| == |message.messages|
              && forall l :: 0 <= l < |message.messages| ==>
                   parts[c].messages[l] == (message.messages[l].0, ReplacedValue(conv, message.messages[l].1, cases[c].key))
    {
      SplitPartLocales(conv, message, cases[c].key);
    }
    if message.messages != [] && cases != [] {
      assert SplitSelectMessage(conv, message) == Ok(parts);
    }
  }

  /** The message for one case: its key, its comment, and the original locales in order, each replaced. */
  lemma SplitPartLocales(conv: XCStringConverter, message: LocalizableICUMessage, caseKey: string)
    requires KeysDistinct(message.messages)
    ensures var part := SplitPart(conv, message, caseKey);
      && part.key == message.key + "_" + caseKey
      && part.comment == message.comment
      && |part.messages| == |message.messages|
      && forall l :: 0 <= l < |message.messages| ==>
           part.messages[l] == (message.messages[l].0, ReplacedValue(conv, message.messages[l].1, caseKey))
  {
    ReplaceMessagesPerLocale(conv, message.messages, caseKey);
  }

  // ----- Formatting the locales of a message -----

  /** The state of a locale's entry: `"needs_review"` is `NeedsReview`; `"translated"` and anything else is `Translated`. */
  function StateFromLabel(state: string): (s: LocalizationState)
    ensures s == NeedsReview <==> state == "needs_review"
  {
    if state == "translated" then Translated
    else if state == "needs_review" then NeedsReview
    else Translated
  }

  /**
    The default state of a message value reads back as `Translated`; so does
    the catalog's own label for `NeedsReview`, `"needsReview"`, which is not
    the label the converter reads.
  */
  lemma StateLabels()
    ensures StateFromLabel(DefaultLocalizationState) == Translated
    ensures StateFromLabel(LocalizationStateLabel(Translated)) == Translated
    ensures StateFromLabel(LocalizationStateLabel(NeedsReview)) == Translated
  {
  }

  /**
    The entry `format_optimized` makes for one locale: the text parsed, the
    substitutions built from its top-level plurals and selects, the whole
    template formatted by a fresh `StringUnit` formatter, and the state read
    from its label; substitutions are left out when there are none.
  */
  function FormatLocale(conv: XCStringConverter, locale: string, value: LocalizableICUMessageValue): Result<Localization, ConvertError>
  {
    match conv.parse(value.value)
    case Err(cause) => Err(LocaleParseFailure(locale, cause))
    case Ok(es) =>
      match SB.BuildAll(PluralsAndSelects(es)).result
      case Err(e) => Err(SubstitutionFailure(locale, e))
      case Ok(substitutions) =>
        var rendered := F.RenderAll(F.FormatterMode.StringUnit, F.Fresh, es);
        if rendered.result.Err? then Err(FormatFailure(rendered.result.error))
        else Ok(Localization(StringUnit(StateFromLabel(value.state), rendered.result.value),
                             if substitutions == [] then None else Some(substitutions)))
  }

  /** The loop of `format_optimized` from locale `i` on; the first failing locale ends it. */
  function FormatLocalesFrom(conv: XCStringConverter, messages: OrderedMap<string, LocalizableICUMessageValue>,
                             acc: OrderedMap<string, Localization>, i: nat): Result<OrderedMap<string, Localization>, ConvertError>
    requires i <= |messages|
    decreases |messages| - i
  {
    if i == |messages| then Ok(acc)
    else match FormatLocale(conv, messages[i].0, messages[i].1)
      case Err(e) => Err(e)
      case Ok(localization) => FormatLocalesFrom(conv, messages, Insert(acc, messages[i].0, localization), i + 1)
  }

  function FormatLocales(conv: XCStringConverter, messages: OrderedMap<string, LocalizableICUMessageValue>)
    : Result<OrderedMap<string, Localization>, ConvertError>
  {
    FormatLocalesFrom(conv, messages, [], 0)
  }

  /** The body of the loop of `format_optimized`: one locale, with its own fresh formatter. */
  method FormatLocaleOptimized(conv: XCStringConverter, locale: string, message: LocalizableICUMessageValue)
    returns (r: Result<Localization, ConvertError>)
    ensures r == FormatLocale(conv, locale, message)
  {
    var formatter := new F.XCStringFormatter(F.FormatterMode.StringUnit);
    var parsed;
    match conv.parse(message.value) {
      case Err(cause) =>
        return Err(LocaleParseFailure(locale, cause));
      case Ok(es) =>
        parsed := es;
    }
    var pluralAndSelects := PluralsAndSelects(parsed);
    var substitutions := SB.Build(pluralAndSelects);
    if substitutions.Err? {
      return Err(SubstitutionFailure(locale, substitutions.error));
    }
    var formatted := "";
    assert parsed[0..] == parsed;
    for k := 0 to |parsed|
      invariant formatter.Valid() && formatter.mode == F.FormatterMode.StringUnit
      invariant F.RenderAll(F.FormatterMode.StringUnit, F.Fresh, parsed) ==
        F.Prefixed(formatted, F.RenderAll(F.FormatterMode.StringUnit, formatter.State(), parsed[k..]))
    {
      F.RenderAllStep(F.FormatterMode.StringUnit, formatter.State(), parsed, k);
      var piece := formatter.Format(parsed[k]);
      if piece.Err? {
        return Err(FormatFailure(piece.error));
      }
      F.PrefixedTwice(formatted, piece.value, F.RenderAll(F.FormatterMode.StringUnit, formatter.State(), parsed[k + 1..]));
      formatted := formatted + piece.value;
    }
    assert parsed[|parsed|..] == [] && formatted + "" == formatted;
    r := Ok(Localization(StringUnit(StateFromLabel(message.state), formatted),
                         if substitutions.value == [] then None else Some(substitutions.value)));
  }

  /** `format_optimized`. */
  method FormatOptimized(conv: XCStringConverter, messages: OrderedMap<string, LocalizableICUMessageValue>)
    returns (r: Result<OrderedMap<string, Localization>, ConvertError>)
    ensures r == FormatLocales(conv, messages)
  {
    var result: OrderedMap<string, Localization> := [];
    for i := 0 to |messages|
      invariant FormatLocales(conv, messages) == FormatLocalesFrom(conv, messages, result, i)
    {
      var (locale, message) := messages[i];
      var localization :- FormatLocaleOptimized(conv, locale, message);
      result := Insert(result, locale, localization);
    }
    r := Ok(result);
  }

  /**
    A locale whose text parses gets an entry exactly when its substitutions
    build and its template has fewer than `usize::MAX` distinct names; a
    failed build is reported for the locale. The entry's text is the template
    with its n distinct names numbered 1 .. n in first-occurrence order, and
    its state is read from the label.
  */
  lemma FormatLocaleText(conv: XCStringConverter, locale: string, value: LocalizableICUMessageValue)
    requires conv.parse(value.value).Ok?
    ensures var es := conv.parse(value.value).value;
      var built := SB.BuildAll(PluralsAndSelects(es)).result;
      var names := F.FirstOccurrences([], F.References(es));
      var rendered := F.RenderAll(F.FormatterMode.StringUnit, F.Fresh, es);
      var r := FormatLocale(conv, locale, value);
      && (built.Err? ==> r == Err(SubstitutionFailure(locale, built.error)))
      && (r.Ok? <==> built.Ok? && |names| < F.USIZE_MAX)
      && (r.Ok? ==>
            && F.Dense(rendered.table, names)
            && r.value.stringUnit == StringUnit(StateFromLabel(value.state), F.InstantiateAll(F.FormatterMode.StringUnit, rendered.table.positions, es)))
  {
    var es := conv.parse(value.value).value;
    F.PositionsFollowFirstOccurrence(F.FormatterMode.StringUnit, es);
    F.RenderAllInstantiates(F.FormatterMode.StringUnit, F.Fresh, es);
  }

  /** A build with no plural or select has no entry; one with some has one per variable they name. */
  lemma BuildEmptyExactly(top: seq<Elem>)
    requires forall i :: 0 <= i < |top| ==> IsPluralOrSelect(top[i])
    requires SB.BuildAll(top).result.Ok?
    ensures var m := SB.BuildAll(top).result.value;
      && (m == [] <==> top == [])
      && forall name :: Get(m, name).Some? <==> exists k :: SB.NamedAt(top, k, name)
  {
    var m := SB.BuildAll(top).result.value;
    forall name ensures Get(m, name).Some? <==> exists k :: SB.NamedAt(top, k, name) {
      SB.BuildEntry(top, name);
    }
    if top != [] {
      assert SB.NamedAt(top, 0, top[0].name);
      assert Get(m, top[0].name).Some?;
    }
  }

  /**
    A locale's entry has substitutions exactly when its template has a
    top-level plural or select, and then they are the build's, one per
    variable named by a top-level plural or select.
  */
  lemma FormatLocaleSubstitutions(conv: XCStringConverter, locale: string, value: LocalizableICUMessageValue)
    requires FormatLocale(conv, locale, value).Ok?
    ensures var es := conv.parse(value.value).value;
      var built := SB.BuildAll(PluralsAndSelects(es)).result;
      var r := FormatLocale(conv, locale, value).value;
      && conv.parse(value.value).Ok? && built.Ok?
      && (r.substitutions.None? <==> PluralsAndSelects(es) == [])
      && (r.substitutions.Some? ==>
            r.substitutions.value == built.value &&
            forall name :: Get(built.value, name).Some? <==> exists k :: SB.NamedAt(PluralsAndSelects(es), k, name))
  {
    var es := conv.parse(value.value).value;
    BuildEmptyExactly(PluralsAndSelects(es));
  }

  /**
    A top-level plural or select of a locale's template shows in the entry's
    text as `%#@name@`, in its place among the other elements' texts, and the
    entry's substitutions hold an entry for `name`: the reference and the
    substitution it resolves to come together.
  */
  lemma SubstitutionReferenced(conv: XCStringConverter, locale: string, value: LocalizableICUMessageValue, i: nat)
    requires conv.parse(value.value).Ok? && FormatLocale(conv, locale, value).Ok?
    requires i < |conv.parse(value.value).value| && IsPluralOrSelect(conv.parse(value.value).value[i])
    ensures var es := conv.parse(value.value).value;
      var r := FormatLocale(conv, locale, value).value;
      var p := F.RenderAll(F.FormatterMode.StringUnit, F.Fresh, es).table.positions;
      && r.stringUnit.value ==
           F.InstantiateAll(F.FormatterMode.StringUnit, p, es[..i]) + F.SubstitutionRef(es[i].name) +
           F.InstantiateAll(F.FormatterMode.StringUnit, p, es[i + 1..])
      && r.substitutions.Some? && Get(r.substitutions.value, es[i].name).Some?
  {
    var es := conv.parse(value.value).value;
    var p := F.RenderAll(F.FormatterMode.StringUnit, F.Fresh, es).table.positions;
    FormatLocaleText(conv, locale, value);
    F.InstantiateAllAt(F.FormatterMode.StringUnit, p, es, i);
    FormatLocaleSubstitutions(conv, locale, value);
    var top := PluralsAndSelects(es);
    assert es[i] in top;
    var k :| 0 <= k < |top| && top[k] == es[i];
    assert SB.NamedAt(top, k, es[i].name);
  }

  /**
    The substitution a locale's entry holds for `name` is the one of the LAST
    top-level plural or select on `name`, and its cases are every option of
    that element, in declared order, under its accepted key, rendered against
    the table the build's one formatter ends with; a later option with the same
    key wins.
  */
  lemma SubstitutionCases(conv: XCStringConverter, locale: string, value: LocalizableICUMessageValue, name: string, k: nat)
    requires conv.parse(value.value).Ok? && FormatLocale(conv, locale, value).Ok?
    requires SB.LastNamedAt(PluralsAndSelects(conv.parse(value.value).value), k, name)
    ensures var top := PluralsAndSelects(conv.parse(value.value).value);
      var r := FormatLocale(conv, locale, value).value;
      var q := SB.BuildAll(top).table.positions;
      && r.substitutions.Some?
      && SB.LabelsAccepted(top[k].Plural?, top[k].options, 0)
      && Get(r.substitutions.value, name) == Some(SB.Entry(top[k], k, InsertAll([], SB.CaseEntries(top[k].Plural?, q, top[k].options, 0))))
  {
    var top := PluralsAndSelects(conv.parse(value.value).value);
    FormatLocaleSubstitutions(conv, locale, value);
    SB.BuildCases(top);
  }

  /**
    Stated by the element's place in the template: the last top-level plural
    or select on `name`, at index `i`, gives the locale's substitution for
    `name`, whose `arg_num` is one more than the number of top-level plurals
    and selects before it, holding every one of its options' cases in order.
  */
  lemma SubstitutionAt(conv: XCStringConverter, locale: string, value: LocalizableICUMessageValue, i: nat)
    requires conv.parse(value.value).Ok? && FormatLocale(conv, locale, value).Ok?
    requires i < |conv.parse(value.value).value| && IsPluralOrSelect(conv.parse(value.value).value[i])
    requires SB.LastNamedAt(conv.parse(value.value).value, i, conv.parse(value.value).value[i].name)
    ensures var es := conv.parse(value.value).value;
      var k := |PluralsAndSelects(es[..i])|;
      var r := FormatLocale(conv, locale, value).value;
      var q := SB.BuildAll(PluralsAndSelects(es)).table.positions;
      && r.substitutions.Some?
      && SB.LabelsAccepted(es[i].Plural?, es[i].options, 0)
      && Get(r.substitutions.value, es[i].name) == Some(SB.Entry(es[i], k, InsertAll([], SB.CaseEntries(es[i].Plural?, q, es[i].options, 0))))
      && Get(r.substitutions.value, es[i].name).value.argNum == k + 1
  {
    var es := conv.parse(value.value).value;
    var top, k, name := PluralsAndSelects(es), |PluralsAndSelects(es[..i])|, es[i].name;
    PluralsAndSelectsAt(es, i);
    forall k' | k < k' < |top| ensures !SB.NamedAt(top, k', name) {
      assert top[k'] in es[i + 1..];
      var j :| 0 <= j < |es[i + 1..]| && es[i + 1..][j] == top[k'];
      assert es[i + 1 + j] == top[k'];
      assert !SB.NamedAt(es, i + 1 + j, name);
    }
    assert SB.LastNamedAt(top, k, name);
    SubstitutionCases(conv, locale, value, name, k);
  }

  /** The locales formatted so far: `acc` holds the first `i`, in order. */
  ghost predicate FormattedUpTo(conv: XCStringConverter, messages: OrderedMap<string, LocalizableICUMessageValue>,
                                acc: OrderedMap<string, Localization>, i: nat)
  {
    && i <= |messages| && |acc| == i
    && forall l :: 0 <= l < i ==>
         FormatLocale(conv, messages[l].0, messages[l].1).Ok? &&
         acc[l] == (messages[l].0, FormatLocale(conv, messages[l].0, messages[l].1).value)
  }

  lemma {:induction false} FormatLocalesFromPerLocale(conv: XCStringConverter, messages: OrderedMap<string, LocalizableICUMessageValue>,
                                                      acc: OrderedMap<string, Localization>, i: nat)
    requires KeysDistinct(messages) && FormattedUpTo(conv, messages, acc, i)
    ensures var r := FormatLocalesFrom(conv, messages, acc, i);
      && (r.Ok? <==> forall l :: i <= l < |messages| ==> FormatLocale(conv, messages[l].0, messages[l].1).Ok?)
      && (r.Ok? ==> FormattedUpTo(conv, messages, r.value, |messages|))
      && (r.Err? ==> exists l :: i <= l < |messages| && FormatLocale(conv, messages[l].0, messages[l].1) == Err(r.error) &&
                                 forall l' :: i <= l' < l ==> FormatLocale(conv, messages[l'].0, messages[l'].1).Ok?)
    decreases |messages| - i
  {
    if i < |messages| {
      var here := FormatLocale(conv, messages[i].0, messages[i].1);
      if here.Ok? {
        var locale := messages[i].0;
        assert locale !in Keys(acc) by {
          forall l | 0 <= l < |acc| ensures acc[l].0 != locale {
            assert acc[l].0 == messages[l].0;
          }
        }
        var acc' := Insert(acc, locale, here.value);
        assert acc' == acc + [(locale, here.value)];
        FormatLocalesFromPerLocale(conv, messages, acc', i + 1);
      }
    }
  }

  // ----- Converting one message -----

  /** `convert_message_optimized`: the formatted locales, in a `Manual` entry. */
  function ConvertMessage(conv: XCStringConverter, message: LocalizableICUMessage): Result<XCString, ConvertError>
  {
    match FormatLocales(conv, message.messages)
    case Err(e) => Err(e)
    case Ok(localizations) => Ok(XCString(Manual, localizations))
  }

  /** The locales `FormatLocalesFrom` gathers are distinct when those it starts with are. */
  lemma {:induction false} FormatLocalesFromDistinct(conv: XCStringConverter, messages: OrderedMap<string, LocalizableICUMessageValue>,
                                                     acc: OrderedMap<string, Localization>, i: nat)
    requires i <= |messages| && KeysDistinct(acc)
    ensures FormatLocalesFrom(conv, messages, acc, i).Ok? ==> KeysDistinct(FormatLocalesFrom(conv, messages, acc, i).value)
    decreases |messages| - i
  {
    if i < |messages| {
      var here := FormatLocale(conv, messages[i].0, messages[i].1);
      if here.Ok? {
        FormatLocalesFromDistinct(conv, messages, Insert(acc, messages[i].0, here.value), i + 1);
      }
    }
  }

  /** `convert_message_optimized`: inserting the formatted locales one by one into an empty entry. */
  method ConvertMessageOptimized(conv: XCStringConverter, message: LocalizableICUMessage) returns (r: Result<XCString, ConvertError>)
    ensures r == ConvertMessage(conv, message)
  {
    var localizations :- FormatOptimized(conv, message.messages);
    FormatLocalesFromDistinct(conv, message.messages, [], 0);
    var entries: OrderedMap<string, Localization> := [];
    for i := 0 to |localizations|
      invariant entries == localizations[..i]
    {
      assert localizations[i].0 !in Keys(entries) by {
        forall l | 0 <= l < i ensures entries[l].0 != localizations[i].0 {
          assert entries[l] == localizations[l];
        }
      }
      assert localizations[..i + 1] == localizations[..i] + [localizations[i]];
      entries := Insert(entries, localizations[i].0, localizations[i].1);
    }
    assert localizations[..|localizations|] == localizations;
    r := Ok(XCString(Manual, entries));
  }

  /**
    A message converts exactly when every locale formats; its entry is
    `Manual` whatever the options say, and holds the locales in their order,
    each with the entry `FormatLocale` makes for it alone (a fresh formatter
    per locale). Otherwise the error is the first failing locale's.
  */
  lemma ConvertMessageLocales(conv: XCStringConverter, message: LocalizableICUMessage)
    requires KeysDistinct(message.messages)
    ensures var r := ConvertMessage(conv, message);
      var messages := message.messages;
      && (r.Ok? <==> forall l :: 0 <= l < |messages| ==> FormatLocale(conv, messages[l].0, messages[l].1).Ok?)
      && (r.Ok? ==>
            && r.value.extractionState == Manual
            && |r.value.localizations| == |messages|
            && forall l :: 0 <= l < |messages| ==>
                 r.value.localizations[l] == (messages[l].0, FormatLocale(conv, messages[l].0, messages[l].1).value))
      && (r.Err? ==> exists l :: 0 <= l < |messages| && FormatLocale(conv, messages[l].0, messages[l].1) == Err(r.error) &&
                                 forall l' :: 0 <= l' < l ==> FormatLocale(conv, messages[l'].0, messages[l'].1).Ok?)
  {
    FormatLocalesFromPerLocale(conv, message.messages, [], 0);
  }

  // ----- Converting a batch -----

  /**
    What one message contributes to the catalog, after its check: its own
    entry, or, when a locale has a top-level select, an error or one entry
    per message of the split, in order.
  */
  function MessageEntries(conv: XCStringConverter, message: LocalizableICUMessage): Result<Entries, ConvertError>
  {
    match Validate(conv, message)
    case Err(e) => Err(e)
    case Ok(_) =>
      if HasSelectElements(conv, message.messages) then
        if !conv.converterOptions.splitSelectElements then Err(SelectNotSupported(message.key))
        else match SplitSelectMessage(conv, message)
          case Err(e) => Err(e)
          case Ok(parts) => PartEntriesFrom(parts, ConvertParts(conv, parts), 0)
      else match ConvertMessage(conv, message)
        case Err(e) => Err(e)
        case Ok(xcstring) => Ok([(message.key, xcstring)])
  }

  type Entries = seq<(string, XCString)>

  /** The entries of the split messages from `j` on, given each one's conversion; the first failure ends it. */
  function PartEntriesFrom(parts: seq<LocalizableICUMessage>, converted: seq<Result<XCString, ConvertError>>, j: nat): Result<Entries, ConvertError>
    requires |converted| == |parts| && j <= |parts|
    decreases |parts| - j
  {
    if j == |parts| then Ok([])
    else match converted[j]
      case Err(e) => Err(e)
      case Ok(xcstring) =>
        match PartEntriesFrom(parts, converted, j + 1)
        case Err(e) => Err(e)
        case Ok(rest) => Ok([(parts[j].key, xcstring)] + rest)
  }

  /** Every split message converted. */
  function ConvertParts(conv: XCStringConverter, parts: seq<LocalizableICUMessage>): seq<Result<XCString, ConvertError>>
  {
    seq(|parts|, j requires 0 <= j < |parts| => ConvertMessage(conv, parts[j]))
  }

  /** Every message's entries. */
  function MessageResults(conv: XCStringConverter, messages: seq<LocalizableICUMessage>): seq<Result<Entries, ConvertError>>
  {
    seq(|messages|, i requires 0 <= i < |messages| => MessageEntries(conv, messages[i]))
  }

  /** The loop of `convert` from message `i` on, given every message's entries, with the catalog built so far. */
  function InsertEntriesFrom(results: seq<Result<Entries, ConvertError>>, strings: OrderedMap<string, XCString>, i: nat)
    : Result<OrderedMap<string, XCString>, ConvertError>
    requires i <= |results|
    decreases |results| - i
  {
    if i == |results| then Ok(strings)
    else match results[i]
      case Err(e) => Err(e)
      case Ok(entries) => InsertEntriesFrom(results, InsertAll(strings, entries), i + 1)
  }

  /** `convert`: the source language, version `"1.0"`, and every message's entries; the first error is the result. */
  function Converted(conv: XCStringConverter, messages: seq<LocalizableICUMessage>): Result<XCStrings, ConvertError>
  {
    match InsertEntriesFrom(MessageResults(conv, messages), [], 0)
    case Err(e) => Err(e)
    case Ok(strings) => Ok(XCStrings(conv.sourceLanguage, strings, "1.0"))
  }

  /** The entries of a message on each path of `convert`'s loop body. */
  lemma MessageEntriesPaths(conv: XCStringConverter, message: LocalizableICUMessage)
    ensures Validate(conv, message).Err? ==> MessageEntries(conv, message) == Err(Validate(conv, message).error)
    ensures Validate(conv, message).Ok? && HasSelectElements(conv, message.messages) ==>
      if conv.converterOptions.splitSelectElements then
        && SplitSelectMessage(conv, message).Ok?
        && MessageEntries(conv, message) ==
             PartEntriesFrom(SplitSelectMessage(conv, message).value, ConvertParts(conv, SplitSelectMessage(conv, message).value), 0)
      else MessageEntries(conv, message) == Err(SelectNotSupported(message.key))
    ensures Validate(conv, message).Ok? && !HasSelectElements(conv, message.messages) ==>
      MessageEntries(conv, message) ==
        if ConvertMessage(conv, message).Err? then Err(ConvertMessage(conv, message).error)
        else Ok([(message.key, ConvertMessage(conv, message).value)])
  {
  }

  /** A message's entries added to the catalog built so far, or the message's error. */
  function InsertResult(entries: Result<Entries, ConvertError>, strings: OrderedMap<string, XCString>)
    : (r: Result<OrderedMap<string, XCString>, ConvertError>)
    ensures r.Ok? <==> entries.Ok?
    ensures entries.Err? ==> r.error == entries.error
    ensures entries.Ok? && KeysDistinct(strings) ==> KeysDistinct(r.value)
  {
    match entries
    case Err(e) => Err(e)
    case Ok(es) => Ok(InsertAll(strings, es))
  }

  /** The inner loop of `convert` over the messages a select was split into. */
  method InsertParts(conv: XCStringConverter, parts: seq<LocalizableICUMessage>, strings: OrderedMap<string, XCString>)
    returns (r: Result<OrderedMap<string, XCString>, ConvertError>)
    ensures r == InsertResult(PartEntriesFrom(parts, ConvertParts(conv, parts), 0), strings)
  {
    ghost var converted := ConvertParts(conv, parts);
    var acc := strings;
    for j := 0 to |parts|
      invariant InsertResult(PartEntriesFrom(parts, converted, 0), strings) == InsertResult(PartEntriesFrom(parts, converted, j), acc)
    {
      var part := parts[j];
      assert converted[j] == ConvertMessage(conv, part);
      var xcstring :- ConvertMessageOptimized(conv, part);
      match PartEntriesFrom(parts, converted, j + 1) {
        case Err(_) =>
        case Ok(rest) =>
          InsertAllCons(acc, (part.key, xcstring), rest);
      }
      acc := Insert(acc, part.key, xcstring);
    }
    r := Ok(acc);
  }

  /** The body of `convert`'s loop: one message checked, converted and added to the catalog. */
  method InsertMessage(conv: XCStringConverter, message: LocalizableICUMessage, strings: OrderedMap<string, XCString>)
    returns (r: Result<OrderedMap<string, XCString>, ConvertError>)
    ensures r == InsertResult(MessageEntries(conv, message), strings)
  {
    MessageEntriesPaths(conv, message);
    var valid := ValidateVariableConsistency(conv, message);
    if valid.Err? {
      return Err(valid.error);
    }
    if HasSelectElements(conv, message.messages) {
      if conv.converterOptions.splitSelectElements {
        var split := SplitSelectMessageOptimized(conv, message);
        if split.Err? {
          // a message with a select has a locale, and splitting fails only without one
          assert false;
        }
        r := InsertParts(conv, split.value, strings);
      } else {
        r := Err(SelectNotSupported(message.key));
      }
    } else {
      var xcstring :- ConvertMessageOptimized(conv, message);
      assert InsertAll(strings, [(message.key, xcstring)]) == Insert(strings, message.key, xcstring) by {
        assert [(message.key, xcstring)][1..] == [];
      }
      r := Ok(Insert(strings, message.key, xcstring));
    }
  }

  /** `XCStringConverter::convert`. */
  method Convert(conv: XCStringConverter, messages: seq<LocalizableICUMessage>) returns (r: Result<XCStrings, ConvertError>)
    ensures r == Converted(conv, messages)
  {
    ghost var results := MessageResults(conv, messages);
    var strings: OrderedMap<string, XCString> := [];
    for i := 0 to |messages|
      invariant InsertEntriesFrom(results, [], 0) == InsertEntriesFrom(results, strings, i)
    {
      assert results[i] == MessageEntries(conv, messages[i]);
      var next := InsertMessage(conv, messages[i], strings);
      if next.Err? {
        return Err(next.error);
      }
      strings := next.value;
    }
    r := Ok(XCStrings(conv.sourceLanguage, strings, "1.0"));
  }

  /** The entries of `results[i..]`, one after the other (a failure contributes none). */
  ghost function EntriesFrom(results: seq<Result<Entries, ConvertError>>, i: nat): Entries
    requires i <= |results|
    decreases |results| - i
  {
    if i == |results| then []
    else (if results[i].Ok? then results[i].value else []) + EntriesFrom(results, i + 1)
  }

  lemma {:induction false} InsertEntriesFromAll(results: seq<Result<Entries, ConvertError>>, strings: OrderedMap<string, XCString>, i: nat)
    requires i <= |results|
    ensures var r := InsertEntriesFrom(results, strings, i);
      && (r.Ok? <==> forall j :: i <= j < |results| ==> results[j].Ok?)
      && (r.Ok? ==> r.value == InsertAll(strings, EntriesFrom(results, i)))
      && (r.Err? ==> exists j :: i <= j < |results| && results[j] == Err(r.error) && forall j' :: i <= j' < j ==> results[j'].Ok?)
    decreases |results| - i
  {
    if i < |results| {
      if results[i].Ok? {
        var next := InsertAll(strings, results[i].value);
        assert InsertEntriesFrom(results, strings, i) == InsertEntriesFrom(results, next, i + 1);
        assert EntriesFrom(results, i) == results[i].value + EntriesFrom(results, i + 1);
        InsertEntriesFromAll(results, next, i + 1);
        InsertAllAppend(strings, results[i].value, EntriesFrom(results, i + 1));
        assert (forall j :: i <= j < |results| ==> results[j].Ok?) <==> (forall j :: i + 1 <= j < |results| ==> results[j].Ok?);
        var r := InsertEntriesFrom(results, next, i + 1);
        if r.Err? {
          var j :| i + 1 <= j < |results| && results[j] == Err(r.error) && forall j' :: i + 1 <= j' < j ==> results[j'].Ok?;
          assert forall j' :: i <= j' < j ==> results[j'].Ok?;
        }
      } else {
        assert InsertEntriesFrom(results, strings, i) == Err(results[i].error);
      }
    }
  }

  /** All the entries the messages give, in input order. */
  ghost function AllEntries(conv: XCStringConverter, messages: seq<LocalizableICUMessage>): Entries
  {
    EntriesFrom(MessageResults(conv, messages), 0)
  }

  /**
    `convert` succeeds exactly when every message does; the catalog then has
    the converter's source language, version `"1.0"`, no key twice, and
    every message's entries inserted in input order, so that a key holds the
    entry of the LAST message that produced it (no message: no string).
    Otherwise the error is that of the first message that fails.
  */
  lemma ConvertedDocument(conv: XCStringConverter, messages: seq<LocalizableICUMessage>)
    ensures var r := Converted(conv, messages);
      var results := MessageResults(conv, messages);
      && (r.Ok? <==> forall j :: 0 <= j < |messages| ==> results[j].Ok?)
      && (r.Ok? ==>
            && r.value.sourceLanguage == conv.sourceLanguage
            && r.value.version == "1.0"
            && r.value.strings == InsertAll([], AllEntries(conv, messages))
            && KeysDistinct(r.value.strings)
            && forall key :: Get(r.value.strings, key) == Get(AllEntries(conv, messages), key))
      && (messages == [] ==> r == Ok(XCStrings(conv.sourceLanguage, [], "1.0")))
      && (r.Err? ==> exists j :: 0 <= j < |messages| && results[j] == Err(r.error) && forall j' :: 0 <= j' < j ==> results[j'].Ok?)
  {
    var results := MessageResults(conv, messages);
    InsertEntriesFromAll(results, [], 0);
    forall key {
      GetInsertAll([], AllEntries(conv, messages), key);
    }
  }

  /** Two messages under the same key, neither with a select: the catalog holds the second one's entry only. */
  lemma SameKeyLaterWins(conv: XCStringConverter, first: LocalizableICUMessage, second: LocalizableICUMessage)
    requires first.key == second.key
    requires !HasSelectElements(conv, first.messages) && !HasSelectElements(conv, second.messages)
    requires MessageEntries(conv, first).Ok? && MessageEntries(conv, second).Ok?
    ensures Converted(conv, [first, second]).Ok?
    ensures Converted(conv, [first, second]).value.strings == [(second.key, ConvertMessage(conv, second).value)]
  {
    var results := MessageResults(conv, [first, second]);
    var key := first.key;
    var x := ConvertMessage(conv, first).value;
    var y := ConvertMessage(conv, second).value;
    assert results[0] == Ok([(key, x)]);
    assert results[1] == Ok([(key, y)]);
    var empty: OrderedMap<string, XCString> := [];
    assert Keys(empty) == [];
    var once := Insert(empty, key, x);
    assert once == [(key, x)];
    assert InsertAll(empty, [(key, x)]) == once by {
      assert [(key, x)][1..] == [];
    }
    assert InsertAll(once, [(key, y)]) == Insert(once, key, y) by {
      assert [(key, y)][1..] == [];
    }
    assert Remove(once, key) == [];
    assert Insert(once, key, y) == [(key, y)];
    assert InsertEntriesFrom(results, empty, 0) == InsertEntriesFrom(results, once, 1);
    assert InsertEntriesFrom(results, once, 1) == InsertEntriesFrom(results, [(key, y)], 2);
  }

  /** The entries of the split messages, when they all convert: one per message, in order, under its key. */
  lemma {:induction false} PartEntriesFromAll(parts: seq<LocalizableICUMessage>, converted: seq<Result<XCString, ConvertError>>, j: nat)
    requires |converted| == |parts| && j <= |parts|
    ensures var r := PartEntriesFrom(parts, converted, j);
      && (r.Ok? <==> forall t :: j <= t < |parts| ==> converted[t].Ok?)
      && (r.Ok? ==> |r.value| == |parts| - j && forall t :: 0 <= t < |r.value| ==> r.value[t] == (parts[j + t].key, converted[j + t].value))
    decreases |parts| - j
  {
    if j < |parts| {
      PartEntriesFromAll(parts, converted, j + 1);
    }
  }

  /** Entry `c` of a split message is the conversion of the message for case `c`. */
  lemma SplitEntriesPerCase(conv: XCStringConverter, message: LocalizableICUMessage, cases: seq<Case>,
                            parts: seq<LocalizableICUMessage>, es: Entries)
    requires |parts| == |cases| == |es|
    requires forall c :: 0 <= c < |cases| ==> parts[c] == SplitPart(conv, message, cases[c].key)
    requires forall t :: 0 <= t < |parts| ==> ConvertParts(conv, parts)[t].Ok?
    requires forall t :: 0 <= t < |es| ==> es[t] == (parts[t].key, ConvertParts(conv, parts)[t].value)
    ensures forall c :: 0 <= c < |cases| ==>
      es[c].0 == message.key + "_" + cases[c].key && Ok(es[c].1) == ConvertMessage(conv, SplitPart(conv, message, cases[c].key))
  {
    var converted := ConvertParts(conv, parts);
    forall c | 0 <= c < |cases|
      ensures es[c].0 == message.key + "_" + cases[c].key && Ok(es[c].1) == ConvertMessage(conv, SplitPart(conv, message, cases[c].key))
    {
      assert es[c] == (parts[c].key, converted[c].value);
      assert converted[c] == ConvertMessage(conv, parts[c]);
    }
  }

  /**
    What a checked message with a select contributes when splitting is on:
    with no case to split on in the first locale, its own entry under its
    key; with cases, one entry per case, in declared order, keyed
    `<key>_<case>`, each the conversion of that case's message.
  */
  lemma MessageEntriesSplit(conv: XCStringConverter, message: LocalizableICUMessage)
    requires KeysDistinct(message.messages)
    requires Validate(conv, message).Ok? && HasSelectElements(conv, message.messages) && conv.converterOptions.splitSelectElements
    requires MessageEntries(conv, message).Ok?
    ensures var es := MessageEntries(conv, message).value;
      var cases := SplitCases(conv, message);
      && (cases == [] ==> |es| == 1 && es[0].0 == message.key && Ok(es[0].1) == ConvertMessage(conv, message))
      && (cases != [] ==>
            && |es| == |cases|
            && forall c :: 0 <= c < |cases| ==>
                 es[c].0 == message.key + "_" + cases[c].key && Ok(es[c].1) == ConvertMessage(conv, SplitPart(conv, message, cases[c].key)))
  {
    var cases := SplitCases(conv, message);
    MessageEntriesPaths(conv, message);
    SplitSelectMessageParts(conv, message);
    var parts := SplitSelectMessage(conv, message).value;
    var converted := ConvertParts(conv, parts);
    var es := MessageEntries(conv, message).value;
    assert MessageEntries(conv, message) == PartEntriesFrom(parts, converted, 0);
    PartEntriesFromAll(parts, converted, 0);
    if cases == [] {
      assert parts == [message];
      assert es[0] == (parts[0].key, converted[0].value);
    } else {
      SplitPartsPerCase(conv, message, cases);
      SplitEntriesPerCase(conv, message, cases, parts, es);
    }
  }
}
