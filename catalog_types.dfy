/**
  The String Catalog (`.xcstrings`) document the converter produces: a source
  language, a version and, per key, per-locale localizations with optional
  plural/select substitutions. Every map keeps insertion order.

  The JSON encoding is not modelled; the functions at the end give the labels
  and field names the encoding uses where the types rename or omit them.
*/
module CatalogTypes {
  import opened Results
  import opened OrderedMaps

  /** `ExtractionState`: only `manual` exists. */
  datatype ExtractionState = Manual

  datatype LocalizationState = Translated | NeedsReview

  /** `StringUnit`: a state and the formatted text. */
  datatype StringUnit = StringUnit(localizationState: LocalizationState, value: string)

  datatype VariationValue = VariationValue(stringUnit: StringUnit)

  /** `VariationType`: the cases of a plural, or the cases of a select. */
  datatype VariationType =
    | Plural(cases: OrderedMap<string, VariationValue>)
    | Select(cases: OrderedMap<string, VariationValue>)

  /** `Substitution`: `arg_num` is a `usize`, so never negative. */
  datatype Substitution = Substitution(argNum: nat, formatSpecifier: string, variations: VariationType)

  datatype Localization = Localization(stringUnit: StringUnit, substitutions: Option<OrderedMap<string, Substitution>>)

  /** `XCString`: the entry for one key. */
  datatype XCString = XCString(extractionState: ExtractionState, localizations: OrderedMap<string, Localization>)

  /** `XCStrings`: the whole document. */
  datatype XCStrings = XCStrings(sourceLanguage: string, strings: OrderedMap<string, XCString>, version: string)

  /** The lowercase label of an extraction state. */
  function ExtractionStateLabel(s: ExtractionState): (name: string)
    ensures name == "manual"
  {
    match s
    case Manual => "manual"
  }

  /** The camelCase label of a localization state. */
  function LocalizationStateLabel(s: LocalizationState): (name: string)
    ensures s == Translated <==> name == "translated"
    ensures s == NeedsReview <==> name == "needsReview"
  {
    match s
    case Translated => "translated"
    case NeedsReview => "needsReview"
  }

  /** The tag under which a variation table is written. */
  function VariationTag(v: VariationType): (tag: string)
    ensures v.Plural? <==> tag == "plural"
    ensures v.Select? <==> tag == "select"
  {
    match v
    case Plural(_) => "plural"
    case Select(_) => "select"
  }

  /** The fields a string unit is written with: its state goes under `state`, next to `value`. */
  function StringUnitFields(u: StringUnit): (fields: seq<(string, string)>)
    ensures Keys(fields) == ["state", "value"]
    ensures Get(fields, "state") == Some(LocalizationStateLabel(u.localizationState))
    ensures Get(fields, "value") == Some(u.value)
  {
    var fields := [("state", LocalizationStateLabel(u.localizationState)), ("value", u.value)];
    assert Keys(fields) == ["state", "value"];
    fields
  }

  /** The field names a localization is written with: `substitutions` is left out when absent. */
  function LocalizationFieldNames(l: Localization): (names: seq<string>)
    ensures "stringUnit" in names
    ensures "substitutions" in names <==> l.substitutions.Some?
  {
    ["stringUnit"] + if l.substitutions.Some? then ["substitutions"] else []
  }
}
