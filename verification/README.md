# Risk-node flattening, modelled in Dafny

This project models the custom flattening plugin `RiskNodeFlattener` of the XML
result-comparison example. The comparison engine turns each record of a
pricing-request document into flat (key, value) pairs before it compares them.
The plugin takes over for `<risks>` nodes. Flattening such a node attribute by
attribute would be wrong for comparison. Instead the plugin emits one pair per
child risk atom. Each key comes from a fixed template chosen by the child's kind:

| child kind (any case) | key |
|---|---|
| `value` | `[prefix.]value-<ccy>` |
| `fxdelta` | `[prefix.]fxdelta-<ccy>` |
| `fxvega` | `[prefix.]fxvega-<ccyPair>-<expiry>-<ccy>` |

- An absent dimension attribute is written as `missing`.
- A present but empty dimension attribute is written as the empty text.
- The `value` attribute becomes a decimal when it is non-empty and parses. Otherwise it stays text.
- A child without a `value` attribute stops the flattening. This includes comments and text nodes, which have no attributes at all.
- A child whose lower-cased name is not one of the three kinds also stops it.

Files:

- `wrappers.dfy`: `Option` and `Result`.
- `xml_model.dfy`: the read-only XML node (`Node`) and the object handed to a plugin (`HostObject`).
- `text.dfy`: lower-casing, `Join`/`Split` and their round trip.
- `traversal.dfy`: a fail-fast map over a sequence (`MapResult`) and its lemmas. The source's `foreach` loop over the children with `yield return` and `throw` is an instance of it.
- `decimals.dfy`: a decimal value that keeps its scale, its parser (standing in for the platform's `decimal.TryParse`) and formatter, and the parse-after-format round trip.
- `risk_node_flattener.dfy`: module `RiskNodeFlattener` holds the claim predicate, kind dispatch, key templates, value typing, the whole-call flattening (`FlattenObject`) and the child-by-child enumeration (`EnumerateRisks`), with their lemmas. Module `RiskNodeExamples` holds worked examples.

Notes on reading the code as written:

- The source has a fallback value `"uknown"` for an absent `value` attribute (line 27). It is unreachable. The very next line reads the attribute's text without a null check, so an absent attribute raises a null dereference. The model follows the code: an absent `value` attribute is the error `MissingValueAttribute`.
- That check comes before the kind switch. So a child with no `value` attribute fails with `MissingValueAttribute` whatever its name. Only a child that has the attribute can fail with `UnknownRiskKind`.
- A comparison engine would want flat keys to be unique within a record. This plugin does not ensure that. Two identical children give the same key. Dimension texts that contain a dash can also make different fxvega risks share a key (`RiskNodeExamples.VegaKeysCanCollide`). The model follows the code and claims no uniqueness.
- `FlattenObject` in the source is a lazy iterator. `FlattenObject` here gives the result of enumerating it fully: all pairs, or the first error. `EnumerateRisks` also gives the pairs yielded before the error.

## Model

| member | source | states |
|---|---|---|
| `RiskNodeFlattener.CanHandleExactName` | ComplexXmlResultComparison/RiskNodeFlattener.cs:11-17 | The plugin claims an XML node exactly when its name is `risks`, compared case-sensitively; `Risks` and any non-node object are refused; the prefix plays no part |
| `RiskNodeFlattener.ClaimedObjectsAreNodes` | ComplexXmlResultComparison/RiskNodeFlattener.cs:11-21 | A claimed object never fails the cast to a node; an object that is not a node always does |
| `RiskNodeFlattener.KindOfReadsLoweredName` | ComplexXmlResultComparison/RiskNodeFlattener.cs:31-60 | A child's name selects the kind whose name equals its lower-cased form, and no kind when the lower-cased form is none of `value`, `fxdelta`, `fxvega` |
| `RiskNodeFlattener.DispatchIgnoresCase` | ComplexXmlResultComparison/RiskNodeFlattener.cs:31 | Names equal after lower-casing select the same kind; a name selects a kind if and only if its lower-cased form is that kind's name; lower-casing first changes nothing |
| `Text.ToLower` | ComplexXmlResultComparison/RiskNodeFlattener.cs:31 | Lower-casing keeps the length of the name |
| `Text.ToLowerPointwise` | ComplexXmlResultComparison/RiskNodeFlattener.cs:31 | Lower-casing maps each character on its own through the ASCII lower-case mapping, position by position |
| `Text.ToLowerIdempotent` | ComplexXmlResultComparison/RiskNodeFlattener.cs:31 | Lower-casing twice equals lower-casing once |
| `RiskNodeFlattener.ChildOutcome` | ComplexXmlResultComparison/RiskNodeFlattener.cs:26-60 | A child flattens if and only if it has a `value` attribute and a known kind; a missing `value` attribute is reported first whatever the name; otherwise an unknown name is reported as written; the emitted value is the typed `value` attribute |
| `RiskNodeFlattener.TypedValue` | ComplexXmlResultComparison/RiskNodeFlattener.cs:26-29 | The value is a decimal if and only if the text is non-empty and parses, and then it is the parsed decimal; otherwise it is the text unchanged. The printed form of any decimal is typed as that same decimal, and a text typed as a decimal holds only digits, points and a leading sign |
| `RiskNodeFlattener.DecimalTextIsTyped` | ComplexXmlResultComparison/RiskNodeFlattener.cs:28-29 | Any decimal written in its printed form comes back as that same decimal, scale included |
| `RiskNodeFlattener.NonNumericTextIsKept` | ComplexXmlResultComparison/RiskNodeFlattener.cs:27-29 | An empty `value` attribute stays the empty text, and text that does not parse is kept verbatim |
| `RiskNodeFlattener.EnumerateRisks` | ComplexXmlResultComparison/RiskNodeFlattener.cs:19-62 | The loop yields one pair per child in child order; on an error it has yielded exactly the pairs of the children before the failing one; its outcome agrees with the whole-call `FlattenObject` |
| `RiskNodeFlattener.FlattenChildrenPointwise` | ComplexXmlResultComparison/RiskNodeFlattener.cs:22-57 | Flattening succeeds if and only if every child does, and then yields exactly one pair per child, the i-th pair being the i-th child's |
| `RiskNodeFlattener.AllChildrenFlatten` | ComplexXmlResultComparison/RiskNodeFlattener.cs:22-57 | Pairs that match the children one by one are the whole result |
| `RiskNodeFlattener.FirstChildFailureStops` | ComplexXmlResultComparison/RiskNodeFlattener.cs:22-60 | When all children before child k flatten and child k fails, the whole call fails with child k's error |
| `RiskNodeFlattener.FailedChildIsFirst` | ComplexXmlResultComparison/RiskNodeFlattener.cs:22-60 | A failed call has a first failing child: every earlier child flattens, and that child's error is the call's error |
| `RiskNodeFlattener.AttributelessChildStops` | ComplexXmlResultComparison/RiskNodeFlattener.cs:26-28 | A child with no attributes, such as a comment, stops the flattening with an error naming it once the children before it have flattened |
| `RiskNodeFlattener.FlattenObjectEntries` | ComplexXmlResultComparison/RiskNodeFlattener.cs:19-57 | On success the output has one entry per child, in order, keyed by that child's kind template and valued by its typed `value` attribute |
| `RiskNodeFlattener.BodyStartsWithKindName` | ComplexXmlResultComparison/RiskNodeFlattener.cs:33-57 | Every key body starts with its kind's lower-case name and a dash |
| `RiskNodeFlattener.KeyPrefixRule` | ComplexXmlResultComparison/RiskNodeFlattener.cs:24-54 | A null or empty prefix gives keys that start with the kind's name and never with a dot; any other prefix is followed by a dot and then the kind's name |
| `RiskNodeFlattener.KeyBodyIsJoin` | ComplexXmlResultComparison/RiskNodeFlattener.cs:33-57 | Each template is the kind's name followed by its dimensions in the order ccy; ccy; ccyPair, expiry, ccy, joined by dashes |
| `Text.SplitJoin` | ComplexXmlResultComparison/RiskNodeFlattener.cs:54 | Splitting at a separator undoes joining with it when no part contains the separator |
| `RiskNodeFlattener.KeyRecoversDimensions` | ComplexXmlResultComparison/RiskNodeFlattener.cs:33-55 | When no dimension attribute (`ccy`, `ccyPair`, `expiry`) contains a dash, splitting a key after its head gives back the kind's name and the dimension texts, `missing` standing for absent ones; the `value` attribute may hold anything, a negative number included |
| `RiskNodeFlattener.KeyDeterminesKind` | ComplexXmlResultComparison/RiskNodeFlattener.cs:31-55 | Equal keys under the same prefix come from the same kind, whatever the attributes |
| `RiskNodeFlattener.CcyKeyIsInjective` | ComplexXmlResultComparison/RiskNodeFlattener.cs:33-47 | For `value` and `fxdelta`, equal keys mean equal currency texts, an absent currency counting as `missing` |
| `RiskNodeFlattener.AbsentDimensionsUseSentinel` | ComplexXmlResultComparison/RiskNodeFlattener.cs:35-54 | A child with a `value` attribute and a known kind always flattens, whatever dimension attributes it lacks; its key is the head, then the kind's name and its dimensions joined by dashes, and each absent dimension, on its own, is `missing` in its own position (`ccy` last; `ccyPair` first and `expiry` second for fxvega) |
| `RiskNodeFlattener.ChildDependsOnReadAttributes` | ComplexXmlResultComparison/RiskNodeFlattener.cs:26-54 | Two children that agree on their name and their `value`, `ccy`, `ccyPair` and `expiry` attributes flatten alike; other attributes and grandchildren never matter |
| `RiskNodeFlattener.ChildrenDependOnReadAttributes` | ComplexXmlResultComparison/RiskNodeFlattener.cs:22-62 | Child sequences that agree one by one on the read part flatten to the same result |
| `RiskNodeFlattener.FlattenDependsOnReadAttributes` | ComplexXmlResultComparison/RiskNodeFlattener.cs:19-62 | The result for a node depends only on its children's names and read attributes, not on the node's own name, attributes or grandchildren |
| `RiskNodeExamples.UsdValueFlattens` | ComplexXmlResultComparison/RiskNodeFlattener.cs:26-39 | A `value` child with currency `USD` and value `7` under the prefix `request` gives the key `request.value-USD` and the decimal 7 |
| `RiskNodeExamples.EurUsdVegaFlattens` | ComplexXmlResultComparison/RiskNodeFlattener.cs:26-55 | An `FXVega` child with no currency and the value `n/a` gives the key `request.fxvega-EURUSD-1M-missing` and keeps `n/a` as text |
| `RiskNodeExamples.ExplodedContainer` | ComplexXmlResultComparison/RiskNodeFlattener.cs:22-57 | A risks node holding a `value` risk and an `FXVega` risk with no currency and a non-numeric value gives exactly two pairs: `request.value-USD` with decimal 7, and `request.fxvega-EURUSD-1M-missing` with text `n/a` |
| `RiskNodeExamples.VegaKeysCanCollide` | ComplexXmlResultComparison/RiskNodeFlattener.cs:49-55 | Two different fxvega risks whose dimension texts contain dashes share one key |
| `Decimals.FormatThenParse` | ComplexXmlResultComparison/RiskNodeFlattener.cs:28 | The parser reads back every decimal the formatter writes, mantissa and scale alike |
| `Decimals.ParseWholeNumber` | ComplexXmlResultComparison/RiskNodeFlattener.cs:28 | A non-empty string of digits parses as that whole number at scale 0 |
| `Decimals.ParsedTextIsNumeric` | ComplexXmlResultComparison/RiskNodeFlattener.cs:28 | An accepted text holds only digits, points and a leading sign |

## Left out

- ComplexXmlResultComparison/Program.cs and JsonArrayComparison/Program.cs are not part of this model. They load embedded resources, print to the console, write the XML report and configure library plugins.
- The set comparison, the generic XML and JSON flatteners and the value comparers are not modelled. They live in libraries whose source is not part of this repository.
- The `objectFlattener` argument of `FlattenObject` is not a parameter of the model because the plugin never reads it.
- Decimals.ParseDecimal: a simplified grammar of an optional sign, digits and an optional point with digits. The platform parser also depends on the culture and allows white space, thousands separators and trailing signs. It also rejects values beyond 96 bits and rounds beyond 28 fractional digits. None of that is modelled, and the mantissa is unbounded.
- Text.ToLower: only ASCII letters are lower-cased; the platform's culture-dependent lowering is not modelled. The three kind names contain no letter whose lowering depends on the culture.
- Exception types and message texts are not modelled. The source raises an invalid-cast, a null-reference or an invalid-operation exception. The model returns the `FlattenError` variants `NotAnXmlNode`, `MissingValueAttribute` and `UnknownRiskKind`. The source's null-reference exception carries no name; the model still records the child's name.
- The per-entry laziness of the source iterator is not observable in the model beyond `EnumerateRisks`. That method gives the pairs yielded before an error.
