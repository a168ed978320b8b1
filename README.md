# tslint-rebeccastevens rule core, modelled in Dafny

This project models two lint rules from the tslint-rebeccastevens rule set and the helpers they share:

- **`no-return-readonly-array`**: a function-like declaration must not declare a return type that is `ReadonlyArray<...>`. With the `includeTypeArguments` option, the rule also reports a `ReadonlyArray` nested in type arguments. With the `deep` option, it also reports one inside object-type literals, tuples, and whatever the type checker resolves a reference or its alias to. A rename fix (`ReadonlyArray` to `Array`) is offered only where it is safe.
- **`ternary-format`**: the rule computes the ideal multi-line layout of a non-nested conditional expression from the spans of its five parts. When the actual layout differs, it reports one violation whose fix rebuilds the expression's text.
- **Option parsing**: rule arguments such as `"include-type-arguments"` or `{ "do-it": x }` become an options object with camel-cased keys.
- **The walk**: a pre-order traversal feeds every node of a file to a rule function. It honours `skipChildren` and appends each reported invalid node to the host's diagnostic sink.
- **Sibling lookup and node-kind tests** used by the rules.

The modules follow the source files:

| module | models |
|---|---|
| `Wrappers` | `Option` and `Result` |
| `TypeSyntax` | the type syntax the readonly rule inspects, with the type checker's answers embedded as data |
| `Typeguard` | `src/common/typeguard.ts` |
| `Util` | `src/common/util.ts` |
| `Options` and `OptionsProperties` | `src/common/options.ts` |
| `NodeRuleHelpers` | `src/common/nodeRuleHelpers.ts` |
| `NoReturnReadonlyArray` and `NoReturnReadonlyArrayProperties` | `src/noReturnReadonlyArrayRule.ts` |
| `NoReturnReadonlyArrayReach` | an independent definition of what the `deep` and type-argument searches of `src/noReturnReadonlyArrayRule.ts` can reach, as sets of violations |
| `AliasLookup` | the `deep` alias search of `src/noReturnReadonlyArrayRule.ts`, with the checker as a table of alias names so that an alias may mention itself |
| `TernaryFormat` and `TernaryFormatProperties` | `src/ternaryFormatRule.ts` |

The imperative parts of the source are Dafny methods with loops, proved equal to specification functions:

- the sibling scans (`Util.GetSiblingBefore`, `Util.GetSiblingAfter`, and the scan inside `TernaryFormat.CheckNonNested`);
- the option fold (`Options.ParseOptions`, `Options.CamelizeKeys`);
- the tuple de-duplication filter (`NoReturnReadonlyArray.FilterDuplicates`);
- the walk and its sink (`NodeRuleHelpers.Walk`, `NodeRuleHelpers.VisitNode`, `NodeRuleHelpers.ForEachChild`, `NodeRuleHelpers.ReportInvalidNodes`, and the class `NodeRuleHelpers.WalkContext`).

The recursive searches and the layout arithmetic are functions. Lemmas relate them to independent reference definitions or to whole-input properties.

Compiler services are inputs.

- **Type checker.** Each type reference carries a `Resolution` record: the syntax of its resolved type and its alias symbol's declarations. That record stands in for `getTypeFromTypeNode`, `typeToTypeNode` and `aliasSymbol.declarations`. Because the record is part of an inductive datatype, the checker's answers are finite and the recursion terminates structurally. The source has no such bound: on a self-referential alias its `deep` search recurses without bound until the stack overflows. `AliasLookup` models that case separately, with the checker as a table from alias names to declarations (see Findings).
- **Ternary positions and texts.** A conditional expression carries:
  - the line and character spans of its five parts;
  - its siblings in the parent's child order, with their spans;
  - the texts of its parts;
  - the offset of its condition and the length of its text.
- **Source file.** A source file carries its text and its line ranges.

Where the rule's documentation and its code differ, the model follows the code:

- **Camel-casing.** `camelize` joins the capitalised later words with commas (see Findings). `Options.Camelize` is the code as written. `Options.CamelizeIntended` is the documented behaviour. The fold `Options.ParseOptionsWith` takes the camel-casing as a parameter, so every fold lemma holds for both. `Options.ParseOptions` runs the code as written.
- **Type-argument anchors.** With `includeTypeArguments`, a `ReadonlyArray` found in the type arguments of a return type is anchored at that argument, not at the outer return type. The outer node is used only when a `nodeToMark` is passed down (`src/noReturnReadonlyArrayRule.ts:440-443`).
- **De-duplication.** Violations are de-duplicated by anchor position only inside tuple inspection (`src/noReturnReadonlyArrayRule.ts:194-204`), not over the whole result.

## Model

| member | source | states |
|---|---|---|
| Typeguard.IsFunctionLikeDeclaration | src/common/typeguard.ts:32-44 | holds exactly for the seven function-like kinds |
| Typeguard.IsTypedFunctionLikeDeclaration | src/common/typeguard.ts:23-27 | holds iff the node is function-like and has a declared type |
| Typeguard.IsVariableLikeDeclaration | src/common/typeguard.ts:49-62 | holds exactly for the eight variable-like kinds |
| Typeguard.IsAccessExpression | src/common/typeguard.ts:67-72 | holds exactly for element-access and property-access expressions |
| Util.GetSiblingBefore | src/common/util.ts:10-25 | the one-pass scan ends with the child just before the first occurrence of the node (none if it is first) |
| Util.GetSiblingAfter | src/common/util.ts:30-45 | the one-pass scan ends with the first child other than the node after its first occurrence (none if there is none) |
| Util.SiblingBeforeStep | src/common/util.ts:16-22 | scanning one more child changes the sibling-before answer only while the node has not been seen and the child is not the node |
| Util.SiblingAfterStep | src/common/util.ts:36-42 | scanning one more child sets the sibling-after answer only once the node has been seen and nothing was set yet |
| Util.SiblingsAreNeighbours | src/common/util.ts:10-45 | among distinct children, the sibling before child i is child i-1 (none for the first) and the sibling after is child i+1 (none for the last) |
| NodeRuleHelpers.CreateInvalidNode | src/common/nodeRuleHelpers.ts:110-115 | keeps the node; omitted replacements default to the empty list, given ones are kept |
| NodeRuleHelpers.FailuresOf | src/common/nodeRuleHelpers.ts:101-107 | one sink entry per invalid node, in order, carrying its node, the rule's failure string and its replacements unchanged |
| NodeRuleHelpers.WalkContext.AddFailureAtNode | src/common/nodeRuleHelpers.ts:102-106 | appends exactly one failure to the sink and changes nothing else |
| NodeRuleHelpers.ReportInvalidNodes | src/common/nodeRuleHelpers.ts:96-108 | the sink grows by exactly the failures of the invalid nodes, in list order |
| NodeRuleHelpers.VisitNode | src/common/nodeRuleHelpers.ts:79-91 | reports the node's invalid nodes, then descends into its children unless skipChildren is true; the sink grows by Reports of the subtree |
| NodeRuleHelpers.ForEachChild | src/common/nodeRuleHelpers.ts:90 | visits the children in order; the sink grows by the children's reports concatenated |
| NodeRuleHelpers.Walk | src/common/nodeRuleHelpers.ts:73-94 | starts at the root's children (the root itself is never passed to the rule); the sink grows by their reports |
| NodeRuleHelpers.ReportsFollowVisitOrder | src/common/nodeRuleHelpers.ts:79-93 | what the walk reports is, node after node in visit order, each visited node's own failures in list order |
| NodeRuleHelpers.NoSkipVisitsPreorder | src/common/nodeRuleHelpers.ts:86-93 | a rule that never skips makes the visit order exactly the tree's pre-order |
| NodeRuleHelpers.VisitedWithinTree | src/common/nodeRuleHelpers.ts:86-90 | every visited node is a node of the subtree, visited no more often than it occurs |
| NodeRuleHelpers.SkipHidesDescendants | src/common/nodeRuleHelpers.ts:86-88 | when a node's result skips children, only that node is visited and only its own failures are reported |
| Options.LowerChar | src/common/options.ts:55 | the result is never upper-case; an upper-case letter becomes the lower-case letter whose upper case it is; any other character is kept |
| Options.ToLower | src/common/options.ts:55 | same length, and each character is LowerChar of the input's character at that index; hence no upper-case letter is left and commas and separators stay in place |
| Options.Split | src/common/options.ts:42 | splitting always yields at least one word |
| Options.UpperChar | src/common/options.ts:56 | a lower-case letter becomes its upper-case partner; any other character is kept |
| Options.UpFirst | src/common/options.ts:51-58 | throws exactly on the empty word; otherwise keeps the word's length, upper-cases its first character (UpperChar) and lower-cases every later one (LowerChar) |
| Options.UpFirstAll | src/common/options.ts:45-47 | throws iff some word is empty; otherwise is UpFirst word by word |
| Options.ParseOptions | src/common/options.ts:25-39 | the imperative fold returns exactly ParseOptionsSpec of the arguments (the fold with the as-written camel-casing) |
| Options.CamelizeKeys | src/common/options.ts:31-34 | the inner loop returns exactly the camel-cased copy of the object's entries |
| OptionsProperties.SplitRejoin | src/common/options.ts:42 | the words and the separators put back together give the text; no word contains a separator; there is one more word than separators |
| OptionsProperties.SplitOfWord | src/common/options.ts:42 | a text without separators splits into itself |
| OptionsProperties.SplitAfterWord | src/common/options.ts:42 | a word followed by a separator splits off as the first word |
| OptionsProperties.SplitOfRejoin | src/common/options.ts:42 | words without separators joined by separators split back into the same words |
| OptionsProperties.CamelizeLength | src/common/options.ts:41-49 | as written, the result is one shorter than the text when the text has a separator (the separators become commas after the second word), else equally long |
| OptionsProperties.CamelizeIntendedLength | src/common/options.ts:19-24 | the documented camel-casing removes exactly the separators |
| OptionsProperties.CamelizeOneWord | src/common/options.ts:41-49 | a single word is just lower-cased |
| OptionsProperties.CamelizeTwoWords | src/common/options.ts:41-49 | two words give the lower-cased first word, the upper-cased first letter of the second, and the rest of the second lower-cased |
| OptionsProperties.CamelizeFooBar | src/common/options.ts:41-49 | `foo-bar` becomes `fooBar` |
| OptionsProperties.CamelizeOfLowerWords | src/common/options.ts:41-58 | for lower-case words, camel-casing is the first word followed by the capitalised later words joined with the separator string |
| OptionsProperties.CamelizeDoNotDoIt | src/common/options.ts:41-49 | `do-not-do-it` becomes `doNot,Do,It` as written and `doNotDoIt` as documented |
| OptionsProperties.CamelizeIncludeTypeArguments | src/common/options.ts:41-49 | `include-type-arguments` becomes `includeType,Arguments` as written and `includeTypeArguments` as documented |
| OptionsProperties.CamelizeAgreesUpToTwoWords | src/common/options.ts:41-49 | with at most one separator the as-written and documented camel-casings agree |
| OptionsProperties.CamelizeFailsOnEmptyWord | src/common/options.ts:51-53 | both camel-casings throw iff some word after the first is empty |
| OptionsProperties.CamelizeUpperOnlyAtSecondWord | src/common/options.ts:44-47 | a comma-free as-written result has an upper-case letter only where the second word starts |
| OptionsProperties.CamelizeNeverIncludeTypeArguments | src/common/options.ts:44-47 | no text camel-cases to `includeTypeArguments` as written |
| OptionsProperties.ParseAppend | src/common/options.ts:27-37 | the fold over arguments plus one more is one step applied to the fold's result |
| OptionsProperties.StringArgumentSetsTrue | src/common/options.ts:28-29 | a string argument sets its camel-cased key to true over the options so far (overriding an earlier value) |
| OptionsProperties.ObjectArgumentMerges | src/common/options.ts:30-35 | an object argument's camel-cased copy is merged over the options so far, later keys winning |
| OptionsProperties.OtherArgumentsIgnored | src/common/options.ts:27-37 | undefined, boolean and number arguments leave the options unchanged |
| OptionsProperties.NullArgumentThrows | src/common/options.ts:32 | a null argument makes parsing throw |
| OptionsProperties.CamelizeEntriesCopies | src/common/options.ts:32-34 | the copy's keys are the camel-cased keys plus the earlier ones; the last entry for a key gives its value unchanged; other keys keep their values |
| OptionsProperties.ParsedKeysAreCamelCased | src/common/options.ts:27-37 | every parsed key is the camel-casing of some text |
| OptionsProperties.IncludeTypeArgumentsNeverParsed | src/common/options.ts:28-29 | as written, parsing never sets `includeTypeArguments` |
| OptionsProperties.ParseTwoStrings | src/common/options.ts:28-29 | two string arguments give a map of exactly their two camel-cased keys set to true |
| OptionsProperties.ShippedConfiguration | rulesets/recommended.ts:24 | the shipped arguments parse to `{includeType,Arguments: true, deep: true}` as written and `{includeTypeArguments: true, deep: true}` as documented |
| NoReturnReadonlyArray.GetInvalidNodeReplacements | src/noReturnReadonlyArrayRule.ts:474-491 | a fix exists iff replacing is safe and pos >= 0; it is the one 13-character rename to `Array` at the node's start |
| NoReturnReadonlyArray.RuleEntryPoint | src/noReturnReadonlyArrayRule.ts:44-83 | skipChildren is always false; only typed function-like declarations yield violations; messages come from the rule's three; anchors and fixes are well formed |
| NoReturnReadonlyArray.CheckOptionDeep | src/noReturnReadonlyArrayRule.ts:88-121 | only literal and tuple return types yield violations, with the deep message |
| NoReturnReadonlyArray.InspectPropertySignatureNode | src/noReturnReadonlyArrayRule.ts:126-159 | an untyped property yields nothing; results carry the deep message and the caller's anchor and fix policy; what the results are is stated by NoReturnReadonlyArrayReach.PropertyCovered |
| NoReturnReadonlyArray.InspectTupleTypeNode | src/noReturnReadonlyArrayRule.ts:164-206 | of the violations of all reference elements, in element order, it keeps a subsequence with exactly the same anchor positions, one per position and the first with that position; results carry the deep message and follow the caller's anchor and fix policy |
| NoReturnReadonlyArray.InspectTupleElements | src/noReturnReadonlyArrayRule.ts:180-193 | results carry the deep message and follow the caller's anchor and fix policy (what they are is stated by the tuple lemmas below) |
| NoReturnReadonlyArray.InspectTypeReference | src/noReturnReadonlyArrayRule.ts:211-256 | a qualified name yields nothing; results carry the caller's message or a nested one and follow the anchor and fix policy; what the results are is stated by NoReturnReadonlyArrayReach.ReferenceCovered |
| NoReturnReadonlyArray.InspectTypeReferenceWithTypeChecking | src/noReturnReadonlyArrayRule.ts:262-301 | without `deep` nothing; otherwise results are anchored at nodeToMark or this reference and never carry a fix; what the results are is stated by NoReturnReadonlyArrayReach.CheckingCovered |
| NoReturnReadonlyArray.InspectTypeReferenceNodeTypeNode | src/noReturnReadonlyArrayRule.ts:307-348 | results from the resolved syntax are anchored at nodeToMark or this reference and carry no fix; what the results are is stated by NoReturnReadonlyArrayReach.ResolvedCovered |
| NoReturnReadonlyArray.InspectTypeReferenceTypeAlias | src/noReturnReadonlyArrayRule.ts:354-383 | no alias declarations, no results; results are anchored at nodeToMark or this reference and carry no fix; every literal alias declaration is searched (NoReturnReadonlyArrayProperties.TypeAliasEveryDeclarationReported), and the result lies within and is non-empty iff the alias reach is (NoReturnReadonlyArrayReach.AliasCovered) |
| NoReturnReadonlyArray.InspectAliasDeclarations | src/noReturnReadonlyArrayRule.ts:365-382 | alias results carry the deep message, no fix, and the given anchor; the result is the literal declarations' results concatenated in order (NoReturnReadonlyArrayProperties.AliasDeclarationsAppend, AliasDeclarationAlone, AliasDeclarationsMembers) |
| NoReturnReadonlyArray.InspectTypeLiteralNode | src/noReturnReadonlyArrayRule.ts:388-410 | literal results carry the deep message and follow the caller's anchor and fix policy; the result is every property's result concatenated in order (NoReturnReadonlyArrayProperties.MembersAppend, MemberAlone, MembersMembers), and each `ReadonlyArray` property of a return type is reported at itself with its fix (NoReturnReadonlyArrayProperties.DeepLiteralEveryPropertyReported) |
| NoReturnReadonlyArray.InspectMembers | src/noReturnReadonlyArrayRule.ts:396-408 | member results carry the deep message and follow the caller's anchor and fix policy; the result is the property signatures' results concatenated in order (NoReturnReadonlyArrayProperties.MembersAppend, MemberAlone, MembersMembers) |
| NoReturnReadonlyArray.CheckOptionIncludeTypeArguments | src/noReturnReadonlyArrayRule.ts:415-469 | every result carries the given message and follows the caller's anchor and fix policy |
| NoReturnReadonlyArray.CheckArguments | src/noReturnReadonlyArrayRule.ts:427-468 | every result carries the given message and follows the caller's anchor and fix policy |
| NoReturnReadonlyArray.DedupByPosSpec | src/noReturnReadonlyArrayRule.ts:194-204 | de-duplication keeps a subsequence in original order, one item per position, the first with that position, and loses no position |
| NoReturnReadonlyArray.FilterDuplicates | src/noReturnReadonlyArrayRule.ts:172-204 | the filter with its seen-position dictionary returns exactly DedupByPos of its input |
| NoReturnReadonlyArrayProperties.DirectReadonlyArrayReturn | src/noReturnReadonlyArrayRule.ts:223-233 | a return type spelled `ReadonlyArray` gives exactly one violation with the default message at the return type, with the rename fix iff pos >= 0 |
| NoReturnReadonlyArrayProperties.WithoutOptionsOnlyDirectMatches | src/noReturnReadonlyArrayRule.ts:44-83 | with both options off, the rule reports iff the declared return type is spelled `ReadonlyArray` |
| NoReturnReadonlyArrayProperties.IncludeTypeArgumentsFindsReachableReadonlyArrays | src/noReturnReadonlyArrayRule.ts:415-469 | the type-argument search equals marking, in pre-order, every `ReadonlyArray` among the reference-only argument nesting |
| NoReturnReadonlyArrayProperties.ArgumentsFindReachableReadonlyArrays | src/noReturnReadonlyArrayRule.ts:427-468 | the same, for a list of type arguments |
| NoReturnReadonlyArrayProperties.TypeArgumentsReported | src/noReturnReadonlyArrayRule.ts:235-247 | with `includeTypeArguments`, every reachable nested `ReadonlyArray` is reported with the type message, anchored at itself and with its fix, and nothing else is reported |
| NoReturnReadonlyArrayProperties.MembersReport | src/noReturnReadonlyArrayRule.ts:388-410 | a property typed `ReadonlyArray` makes a literal's inspection non-empty |
| NoReturnReadonlyArrayProperties.DeepLiteralReported | src/noReturnReadonlyArrayRule.ts:67-76 | a literal return type with a `ReadonlyArray` property is reported iff `deep` is set |
| NoReturnReadonlyArrayProperties.TupleElementsAppend | src/noReturnReadonlyArrayRule.ts:180-193 | the element inspection of two lists joined is the inspections of the two lists joined |
| NoReturnReadonlyArrayProperties.TupleElementAlone | src/noReturnReadonlyArrayRule.ts:180-193 | one element contributes the reference inspection with the deep message if it is a reference, otherwise nothing |
| NoReturnReadonlyArrayProperties.ReferenceElements | src/noReturnReadonlyArrayRule.ts:181 | keeps only elements of the list that are type references |
| NoReturnReadonlyArrayProperties.TupleOnlyReferenceElements | src/noReturnReadonlyArrayRule.ts:180-193 | inspecting the elements gives the same as inspecting only their reference elements |
| NoReturnReadonlyArrayProperties.TupleElementsMembers | src/noReturnReadonlyArrayRule.ts:180-193 | a violation is found among the elements iff some reference element's inspection yields it |
| NoReturnReadonlyArrayProperties.TupleElementReported | src/noReturnReadonlyArrayRule.ts:164-206 | a `ReadonlyArray` element is marked by the element inspection, and its anchor position survives de-duplication |
| NoReturnReadonlyArrayProperties.DeepTupleReported | src/noReturnReadonlyArrayRule.ts:67-76 | a tuple return type with a `ReadonlyArray` element is reported iff `deep` is set |
| NoReturnReadonlyArrayProperties.MembersAppend | src/noReturnReadonlyArrayRule.ts:396-408 | the member inspection of two lists joined is the inspections of the two lists joined |
| NoReturnReadonlyArrayProperties.MemberAlone | src/noReturnReadonlyArrayRule.ts:396-408 | one member contributes its property inspection if it is a property signature, otherwise nothing |
| NoReturnReadonlyArrayProperties.MembersMembers | src/noReturnReadonlyArrayRule.ts:396-408 | a violation is found among the members iff some property signature's inspection yields it |
| NoReturnReadonlyArrayProperties.AliasDeclarationsAppend | src/noReturnReadonlyArrayRule.ts:365-382 | the alias inspection of two declaration lists joined is the inspections of the two lists joined |
| NoReturnReadonlyArrayProperties.AliasDeclarationAlone | src/noReturnReadonlyArrayRule.ts:365-382 | one declaration contributes its literal's inspection (no fix) if it is a type alias of a literal, otherwise nothing |
| NoReturnReadonlyArrayProperties.AliasDeclarationsMembers | src/noReturnReadonlyArrayRule.ts:365-382 | a violation is found among the declarations iff some literal alias declaration's inspection yields it |
| NoReturnReadonlyArrayProperties.DeepLiteralEveryPropertyReported | src/noReturnReadonlyArrayRule.ts:67-76 | with `deep`, every `ReadonlyArray` property of a literal return type is reported, anchored at itself with its rename fix |
| NoReturnReadonlyArrayProperties.TypeAliasEveryDeclarationReported | src/noReturnReadonlyArrayRule.ts:354-383 | a `ReadonlyArray` property in any literal declaration of the alias is reported at the anchor, without a fix |
| NoReturnReadonlyArrayProperties.AliasDeclarationsReport | src/noReturnReadonlyArrayRule.ts:365-382 | an alias declared as a literal with a `ReadonlyArray` property makes the alias inspection non-empty |
| NoReturnReadonlyArrayProperties.AliasTransparency | src/noReturnReadonlyArrayRule.ts:354-383 | with `deep`, a return type naming such an alias is reported, whatever the checker's syntax for the type, every violation anchored at the return type and without a fix |
| NoReturnReadonlyArrayProperties.ParsedOptionsNeverIncludeTypeArguments | src/noReturnReadonlyArrayRule.ts:235 | as written, options produced by parseOptions never turn on the type-argument path |
| NoReturnReadonlyArrayProperties.ShippedRuleOptions | rulesets/standard.ts:8 | the shipped configuration gives RuleOptions(false, true) as written and RuleOptions(true, true) as documented |
| NoReturnReadonlyArrayReach.CoversAppend | src/noReturnReadonlyArrayRule.ts:180-193 | two searches that each report exactly within their reach, joined, report exactly within the union of the reaches |
| NoReturnReadonlyArrayReach.CoversFirstNonEmpty | src/noReturnReadonlyArrayRule.ts:235-256 | taking the first search when it is non-empty, else the second, reports exactly within the union of the reaches |
| NoReturnReadonlyArrayReach.ReferenceCovered | src/noReturnReadonlyArrayRule.ts:211-256 | every violation of a reference's inspection is in ReferenceReach (`ReadonlyArray` itself; with `includeTypeArguments` every `ReadonlyArray` among its arguments; with `deep` what its resolved syntax and its alias declarations reach), and the inspection is non-empty iff that set is |
| NoReturnReadonlyArrayReach.CheckingCovered | src/noReturnReadonlyArrayRule.ts:262-301 | without `deep` nothing; with it, every violation is reachable from the resolved syntax or the alias declarations, and there is one iff something is reachable |
| NoReturnReadonlyArrayReach.ResolvedCovered | src/noReturnReadonlyArrayRule.ts:307-348 | the resolved-syntax search reports within, and non-empty iff, what the resolved reference or tuple reaches, anchored at nodeToMark or the reference |
| NoReturnReadonlyArrayReach.TupleCovered | src/noReturnReadonlyArrayRule.ts:164-206 | de-duplication keeps the tuple's result within, and non-empty iff, what its reference elements reach |
| NoReturnReadonlyArrayReach.ElementsCovered | src/noReturnReadonlyArrayRule.ts:180-193 | the element inspection reports within, and non-empty iff, what the reference elements reach |
| NoReturnReadonlyArrayReach.AliasCovered | src/noReturnReadonlyArrayRule.ts:365-382 | the alias inspection reports within, and non-empty iff, what the properties of the literal aliases reach |
| NoReturnReadonlyArrayReach.LiteralCovered | src/noReturnReadonlyArrayRule.ts:388-410 | a literal's inspection reports within, and non-empty iff, what its properties reach |
| NoReturnReadonlyArrayReach.MembersCovered | src/noReturnReadonlyArrayRule.ts:396-408 | the member inspection reports within, and non-empty iff, what the typed properties reach |
| NoReturnReadonlyArrayReach.PropertyCovered | src/noReturnReadonlyArrayRule.ts:126-159 | a property reports within, and non-empty iff, what its reference or nested literal type reaches; untyped and other properties reach nothing |
| NoReturnReadonlyArrayReach.RuleReportsReach | src/noReturnReadonlyArrayRule.ts:44-83 | for a typed function-like declaration the rule reports only violations reachable from the return type under the options, and reports something iff something is reachable; otherwise nothing |
| NoReturnReadonlyArrayReach.ReferenceSearchOrder | src/noReturnReadonlyArrayRule.ts:235-300 | for any anchor, including none as in the rule's own call: a non-empty type-argument answer is the reference's whole answer, and a non-empty answer from the resolved syntax is the checker path's whole answer; with an anchor passed down, that answer holds whatever the alias declarations are |
| AliasLookup.AliasDeclarationsOf | src/noReturnReadonlyArrayRule.ts:361-367 | a reference has declarations only if its name is in the alias table |
| AliasLookup.Both | src/noReturnReadonlyArrayRule.ts:396-408 | two searches' results joined, and a result only when both searches finished |
| AliasLookup.ExpandReference | src/noReturnReadonlyArrayRule.ts:211-256 | the search as written, within a budget of alias expansions: a qualified name yields nothing, `ReadonlyArray` exactly one violation |
| AliasLookup.ExpandAliases | src/noReturnReadonlyArrayRule.ts:365-382 | no declarations, no violations |
| AliasLookup.ExpandLiteral | src/noReturnReadonlyArrayRule.ts:388-410 | an empty literal yields no violations |
| AliasLookup.ExpandMembers | src/noReturnReadonlyArrayRule.ts:396-408 | no members, no violations |
| AliasLookup.SelfAliasNeverFinishes | src/noReturnReadonlyArrayRule.ts:354-410 | with `type T = { self: T }`, the search from a reference to `T` does not finish within any budget |
| AliasLookup.ExpandReferenceMoreFuel | src/noReturnReadonlyArrayRule.ts:211-410 | a search that finishes within a budget gives the same result with a larger one, so running out of every budget means the search never ends |
| AliasLookup.GuardedReference | src/noReturnReadonlyArrayRule.ts:354-383 | the corrected search, which does not expand an alias already being expanded: a qualified name or such an alias yields nothing; `ReadonlyArray` yields exactly one violation |
| AliasLookup.SelfAliasGuardedFinishes | src/noReturnReadonlyArrayRule.ts:354-410 | the corrected search finds nothing for `type T = { self: T }` |
| AliasLookup.GuardedFindsReadonlyArrayProperty | src/noReturnReadonlyArrayRule.ts:354-410 | the corrected search still reports an alias whose literal has a `ReadonlyArray` property, anchored at the searched reference |
| AliasLookup.ExpandAliasesMoreFuel | src/noReturnReadonlyArrayRule.ts:365-382 | a finished alias expansion keeps its answer with one more unit of budget |
| AliasLookup.ExpandMembersMoreFuel | src/noReturnReadonlyArrayRule.ts:396-408 | a finished member search keeps its answer with one more unit of budget |
| AliasLookup.ExpandAliasesMonotone | src/noReturnReadonlyArrayRule.ts:365-382 | a finished alias expansion keeps its answer under any larger budget |
| AliasLookup.LeastFuel | src/noReturnReadonlyArrayRule.ts:365-382 | a finished alias expansion has a least budget within which it finishes, with the same answer, and no smaller budget finishes |
| AliasLookup.GuardedAgreesWhereSourceFinishes | src/noReturnReadonlyArrayRule.ts:354-410 | wherever the search as written finishes, the corrected search returns exactly its answer |
| AliasLookup.AgreeReference | src/noReturnReadonlyArrayRule.ts:211-256 | from a reference, the corrected search equals a finished written search, given that the aliases being expanded never finish below that budget |
| AliasLookup.AgreeAliases | src/noReturnReadonlyArrayRule.ts:365-382 | the same for the alias declarations |
| AliasLookup.AgreeMembers | src/noReturnReadonlyArrayRule.ts:396-408 | the same for the members of a literal |
| AliasLookup.GuardedAliasesReport | src/noReturnReadonlyArrayRule.ts:365-382 | a literal alias declaration with a `ReadonlyArray` property makes the corrected alias search non-empty |
| AliasLookup.GuardedMembersReport | src/noReturnReadonlyArrayRule.ts:396-408 | a property typed `ReadonlyArray` makes the corrected member search non-empty |
| AliasLookup.GuardedAliasesAnchored | src/noReturnReadonlyArrayRule.ts:365-382 | everything the corrected alias search reports is anchored at the given node |
| AliasLookup.GuardedMembersAnchored | src/noReturnReadonlyArrayRule.ts:396-408 | everything the corrected member search reports is anchored at the given node |
| AliasLookup.GuardedReferenceAnchored | src/noReturnReadonlyArrayRule.ts:211-256 | everything the corrected reference search reports is anchored at the given node |
| TernaryFormat.FirstNonWhitespace | src/ternaryFormatRule.ts:115 | -1 iff the line is all whitespace (JavaScript `\s`); otherwise the first non-whitespace index |
| TernaryFormat.Indentation | src/ternaryFormatRule.ts:115-119 | 0 for a blank line; otherwise the index of the first non-whitespace character |
| TernaryFormat.Substring | src/ternaryFormatRule.ts:111-114 | within bounds it is the slice; never longer than the text |
| TernaryFormat.ReferenceLine | src/ternaryFormatRule.ts:105-114 | the reference line exists iff its index (the condition's line, or the one above) is within the line ranges, and is then that range's text |
| TernaryFormat.IdealLayout | src/ternaryFormatRule.ts:121-196 | the condition starts at indentation + 2, shifted down iff on the sibling's line, same width; `?` one line below at condition column + 2, width 1; branches one column after their token; single-line branches keep their width, multi-line ones their lines and end column; `:` in the columns of `?`, one line below a single-line and two below a multi-line true branch |
| TernaryFormat.RebuildText | src/ternaryFormatRule.ts:234-248 | throws (negative repeat) iff some gap is negative |
| TernaryFormat.CompareIdealToActual | src/ternaryFormatRule.ts:204-251 | no violation iff ideal equals actual; a throw iff they differ and some gap is negative; otherwise exactly one violation on the node with the rule's message and one replacement at the condition's offset spanning the node's text, whose text is the rebuilt text |
| TernaryFormat.CheckNonNested | src/ternaryFormatRule.ts:79-199 | the sibling scan followed by the layout check returns exactly CheckNonNestedSpec |
| TernaryFormat.RuleEntryPoint | src/ternaryFormatRule.ts:44-74 | other nodes: nothing, descend; conditionals always skip children; flowing ones yield nothing; non-nested ones yield checkNonNested's result or throw with it |
| TernaryFormatProperties.IdealLayoutIdempotent | src/ternaryFormatRule.ts:121-196 | the ideal layout of an ideal layout (not on the sibling's line) is itself |
| TernaryFormatProperties.IdealGaps | src/ternaryFormatRule.ts:214-223 | the gaps of an ideal layout: the condition's lines above, then one newline and indentation + 4 spaces before `?`, one space before the true branch, one or two newlines and indentation + 4 spaces before `:`, one space before the false branch |
| TernaryFormatProperties.RebuildTextPieces | src/ternaryFormatRule.ts:234-248 | with no negative gap, the rebuilt text is the first piece followed by the rebuilt rest |
| TernaryFormatProperties.RebuiltText | src/ternaryFormatRule.ts:225-250 | the replacement text for an ideal layout in full: a throw iff the condition spans more lines than it is moved down; otherwise the condition after its newlines and spaces, `?` and `:` each on a new line at indentation + 4, each branch one space after its token |
| TernaryFormatProperties.FirstLineConditionThrows | src/ternaryFormatRule.ts:105-110 | a condition on line 0 not sharing a line with a sibling reads line -1 and throws |
| TernaryFormatProperties.UnmovedMultiLineConditionThrows | src/ternaryFormatRule.ts:214-234 | a misformatted multi-line condition not on a sibling's line makes `repeat` throw |
| TernaryFormatProperties.IntendedGapsRebuild | src/ternaryFormatRule.ts:214-223 | corrected: measured from the condition's first line, the condition moves down only by the sibling's line, the later gaps are the written ones, no gap is negative so rebuilding never throws, and on a one-line condition the gaps are the written ones |
| TernaryFormatProperties.ReferenceLineOrBlank | src/ternaryFormatRule.ts:104-114 | corrected: the reference line where it exists, otherwise a line of indentation 0 |
| TernaryFormatProperties.CheckNonNestedIntended | src/ternaryFormatRule.ts:79-251 | corrected check: never throws; reports iff the layout differs from the ideal one, with one violation rebuilding the text from the corrected gaps; equal to the written check wherever that returns and the condition fits on one line |
| TernaryFormatProperties.FirstLineConditionMeasuredFromColumnZero | src/ternaryFormatRule.ts:104-110 | corrected: a condition on line 0 with no sibling on that line is checked against the ideal layout at indentation 0 |
| TernaryFormatProperties.IntendedTextKeepsCondition | src/ternaryFormatRule.ts:225-250 | corrected: for a condition not on the sibling's line the rebuilt text never throws and starts with the condition text |
| TernaryFormatProperties.UnmovedMultiLineConditionReported | src/ternaryFormatRule.ts:214-250 | corrected: a misformatted multi-line condition that stays put is reported with one violation whose fix starts with the condition text itself |
| TernaryFormatProperties.SameLineMeansPrecedingSibling | src/ternaryFormatRule.ts:85-103 | among distinct siblings, the condition is on the sibling's line iff the child just before ends on the condition's start line |
| TernaryFormatProperties.IndentationOfSpaces | src/ternaryFormatRule.ts:115-119 | a line of n spaces followed by a non-whitespace character has indentation n |

## Left out

- Compiler services are inputs, not reimplemented: `getLineAndCharacterOfPosition`, `getPositionOfLineAndCharacter`, `getLineRanges`, `getStart`/`getText`/`pos`, `forEachChild` and `getLineAndCharacterInfo` (`src/ternaryFormatRule.ts:256-282`). The type checker's `getTypeFromTypeNode`, `typeToTypeNode` and `aliasSymbol.declarations` are embedded in each reference as a finite `Resolution` record, so a cyclic alias resolution cannot be represented there. On a self-referential alias under `deep` the source does not terminate (see Findings); `AliasLookup` covers only the alias path for that case, with `includeTypeArguments` off and assuming the type node the checker synthesizes for the reference yields nothing.
- `createNodeRule` / `createNodeTypedRule` (`src/common/nodeRuleHelpers.ts:35-71`) are class construction for the host. They wire `parseOptions` and the walk together and are not modelled. `RuleOptionsOf` takes their place for the readonly rule.
- NodeRuleHelpers.Walk: the untyped and typed rule functions are one function that receives the checker as an `Option`. The choice between the two calls at `src/common/nodeRuleHelpers.ts:81-83` is therefore not a separate branch.
- Rule functions are modelled as pure functions of the node (and checker). The `ctx` they receive is used only to read options and the source file, and both are passed explicitly.
- The rules import `markAsInvalidNode`, `InvalidNode`, `RuleFunctionResult` and `InvalidNodeResult`, which `src/common/nodeRuleHelpers.ts` does not export. `markAsInvalidNode` is modelled as a record constructor with a message. `reportInvalidNodes` reports the rule's failure string, as the given file does, so the message is not what reaches the sink.
- Exceptions are `Result` errors: a null argument to `parseOptions`, an empty later word in `upFirst`, an out-of-range line range, and a negative `repeat`. The model does not say what the host does with a throw during the walk.
- Options.ToLower: only ASCII letters are case-mapped. Unicode case mapping (which can change a string's length) is not modelled.
- Options.ParseOptions: `Object.keys` enumerates entries in the order of the model's entry sequence. JavaScript's reordering of integer-like keys is not modelled. Numbers are integers: NaN, `0` versus `-0` and fractions are not modelled for `Boolean(...)`.
- Options.ParseOptions: object values are copied as they are. Prototype properties, getters and symbol keys are not modelled.
- TernaryFormat: texts, offsets and character positions are read as sequences of Dafny characters (Unicode scalar values). JavaScript counts UTF-16 code units, so the two differ on text outside the Basic Multilingual Plane.
- `deep-equal` is replaced by datatype equality on the span records.
- Re-checking a fixed ternary is not modelled. The fix is not idempotent: a condition that is not moved keeps its wrong indentation (`src/ternaryFormatRule.ts:215`).
- The ternary rule checks only non-nested conditionals. Nested layouts, comment reflow and a single-line exemption do not exist in the code and are not invented.
- Build scripts, coverage merging, rollup configuration and the rule-set files are configuration, not behaviour. The rule-set entry for `no-return-readonly-array` is used only as an example input.

## Findings

| source | as written | input that shows it | evidently intended | confidence | as-written member | corrected member |
|---|---|---|---|---|---|---|
| src/common/options.ts:44-47 | `words[0].toLowerCase() + words.slice(1).map(upFirst)` adds an array to a string, so the capitalised later words are joined with commas | `"include-type-arguments"` gives `includeType,Arguments`; `"do-not-do-it"` gives `doNot,Do,It`; so the shipped `[true, 'include-type-arguments', 'deep']` never turns on `includeTypeArguments` | the later words concatenated: `includeTypeArguments`, `doNotDoIt` (the doc comment at options.ts:19-24 and the test at test/common/nodeRuleHelpers.test.ts:56-64) | not executed | OptionsProperties.CamelizeIncludeTypeArguments | Options.CamelizeIntended |
| src/ternaryFormatRule.ts:104-110 | a condition with no sibling on its line is measured from the line above; for a condition on line 0 that is `lineRanges[-1]`, which is `undefined`, and reading its `pos` throws (the code's own comment flags it as a possible out-of-bounds access) | a file that starts with the statement `a\n  ? b : c;`: the condition `a` is on line 0 and has no sibling, so no layout is compared before the throw | a missing line above reads as an empty line, so the expression is measured from column 0 | not executed | TernaryFormatProperties.FirstLineConditionThrows | TernaryFormatProperties.ReferenceLineOrBlank |
| src/ternaryFormatRule.ts:214-248 | the condition's lines above are the ideal start line minus the actual END line, so when the condition spans several lines and is not moved down, `'\n'.repeat` gets a negative count and throws | `const x =\n  a &&\n  b\n  ? c : d;` where the sibling ends on an earlier line: the ideal condition starts on line 1 and the actual one ends on line 2, so the count is -1 | the lines above are measured from the condition's actual START line, so an unmoved condition gets no newline and the fix keeps it in place | not executed | TernaryFormatProperties.UnmovedMultiLineConditionThrows | TernaryFormatProperties.IntendedGapsRebuild |
| src/noReturnReadonlyArrayRule.ts:354-410 | with `deep`, an alias declared as a literal is searched through its properties, and a property typed by a reference searches that reference again with nothing to stop a cycle | `type T = { self: T }; function f(): T {...}` under `deep`: `inspectTypeReferenceTypeAlias` on `T` reaches the property `self: T` and calls itself on the same declaration forever (the stack overflows) | an alias already being expanded is not expanded again, so the search ends and finds nothing for `T` | not executed | AliasLookup.SelfAliasNeverFinishes | AliasLookup.GuardedReference |

The as-written half is `Options.Camelize`. Four members show what it does:

- `OptionsProperties.CamelizeDoNotDoIt` and `OptionsProperties.CamelizeIncludeTypeArguments` give its results on the example inputs.
- `OptionsProperties.CamelizeNeverIncludeTypeArguments` shows that no input yields `includeTypeArguments`.
- `NoReturnReadonlyArrayProperties.ShippedRuleOptions` gives the rule options that result from the shipped configuration.

The corrected half is `Options.CamelizeIntended`. Six members cover it:

- `OptionsProperties.CamelizeIntendedLength` shows that it removes exactly the separators.
- `OptionsProperties.CamelizeDoNotDoIt` and `OptionsProperties.CamelizeIncludeTypeArguments` give the documented results.
- `OptionsProperties.CamelizeAgreesUpToTwoWords` shows that it agrees with the code wherever the code is right.
- `OptionsProperties.ShippedConfiguration` and `NoReturnReadonlyArrayProperties.ShippedRuleOptions` show that the shipped configuration then enables both options.

For the alias cycle, the as-written half is `AliasLookup.ExpandReference`, which counts alias expansions against a budget. `AliasLookup.SelfAliasNeverFinishes` shows that no budget is enough for `T`. `AliasLookup.ExpandReferenceMoreFuel` shows that a larger budget never changes a finished answer. The corrected half is `AliasLookup.GuardedReference`, which terminates by construction. `AliasLookup.SelfAliasGuardedFinishes` shows it finds nothing for `T`, and `AliasLookup.GuardedFindsReadonlyArrayProperty` shows it still reports a `ReadonlyArray` property behind an alias. `AliasLookup.GuardedAgreesWhereSourceFinishes` shows that it returns exactly the written search's answer on every input where that search finishes: the guard changes nothing but the non-terminating cases.

`AliasLookup` and the alias functions of `NoReturnReadonlyArray` are two models of the same lines (`src/noReturnReadonlyArrayRule.ts:354-410`). `NoReturnReadonlyArray` embeds the checker's answers as finite `Resolution` records, so its alias search always ends and can be compared with the rest of the rule. `AliasLookup` reads the checker as a table from alias names to declarations, which is what lets an alias mention itself. They are not related by a lemma: a finite `Resolution` tree is one unfolding of such a table.

For the two ternary throws, the rule model keeps the code as written (`TernaryFormat.CheckNonNestedSpec`), and `TernaryFormatProperties.FirstLineConditionThrows` and `TernaryFormatProperties.UnmovedMultiLineConditionThrows` show the throws. The corrected halves are `TernaryFormatProperties.ReferenceLineOrBlank` and `TernaryFormatProperties.IntendedGaps`, combined in `TernaryFormatProperties.CheckNonNestedIntended`, which never throws. `TernaryFormatProperties.IntendedGapsRebuild` proves that no corrected gap is negative. `TernaryFormatProperties.FirstLineConditionMeasuredFromColumnZero` and `TernaryFormatProperties.UnmovedMultiLineConditionReported` give the corrected outcome on the two inputs.
