# Seamly2D pattern dependency analyser, modelled in Dafny

`seamlyDependencies.py` reads a Seamly2D pattern (an XML document). It files every element
under its type and a key, extracts which object references which, and answers two queries
over the resulting dependency map:
- what a variable depends on, directly or transitively;
- which variables use a given variable.

It reports the variables whose key starts with `#`.

The model takes the parsed document as an `Element` tree, in which each attribute map is an
ordered dictionary. It follows the five steps of the script:

- **Registry** (`categorize.dfy`).
  - `categorize_elements` becomes the class `ObjectStore`, whose field `objectsByType`
    stands for the module-level `objects_by_type`. Its recursive `Categorize` method is proved
    equal to the pure walk `Walk`, and that walk is proved equal to registering the elements one
    by one in pre-order.
  - Keys follow `ElementKey`. A line's key is `Line_<first>_<second>`, found by scanning the
    points registered so far, where the last matching point wins. Otherwise the key is the `id`.
- **Tokenizer** (`tokenizer.dfy`). `ref_pattern.findall` is a scanner over ASCII text,
  including the backtracking over trailing dots.
- **Extraction** (`extraction.dfy`).
  - The loop at lines 224-250 becomes a fold of references over the registry in iteration
    order (`RegActions`, `Run`). It is also a set of nested loop methods proved equal to that
    fold.
  - `Extract` is the loop as written. It includes CPython's "dictionary changed size during
    iteration" failure. `Snapshot` is the loop read over a snapshot of the registry, with the
    implicit lines returned separately (see Findings).
- **Queries** (`queries.dfy`).
  - The cycle-guarded search `find_variable_dependencies` is proved to return exactly the
    nodes reachable by one or more edges.
  - The reverse lookup is proved to be the inverse of the edge lists, in key order and
    without repeats.
  - The `#` scan is proved to return exactly the registered keys starting with `#`.
- **Pipeline** (`pipeline.dfy`). This is the script body from line 211 to line 269. `Run` is
  the imperative sequence. `Analyze` is its functional reading. `AnalyzeSnapshot` is the
  corrected analysis.

Python's insertion-ordered dictionaries are `OrderedMaps.OMap`: a key sequence plus a map.
Assigning to an existing key keeps its position. All lookups are total: `GetOr`, `Inner` and
`Get2` read a default exactly where `.get(…, default)` or a `defaultdict` does. Well-formedness
(`Valid`, `ValidByType`) is an invariant proved of every operation, not a precondition.

Three behaviours of the code are worth knowing, and the model proves each of them:
- With A→B and B→A, `closure(A)` is `{A, B}`: the start node is reached again through the
  cycle and is reported.
- Function names inside formulas, such as `sin` in `sin(A)*2`, are references like any other
  identifier.
- A point's `name` attribute is tokenized like a formula, because it is not among the verbatim
  point attributes. A point named `A` therefore lists `A` among its own dependencies.

## Model

| member | source | states |
|---|---|---|
| Categorize.Put2Get | seamlyDependencies.py:148 | `objects_by_type[tag][key] = a` makes that pair hold `a`. Every other (type, key) pair reads as before, including when `tag` had no dictionary yet. |
| Categorize.Put2KeepsPositions | seamlyDependencies.py:148 | Types and keys already present keep their positions in iteration order. Overwriting a key does not move it. |
| Categorize.Put2Valid | seamlyDependencies.py:194 | After a nested assignment, both dictionary levels stay well-formed: keys are distinct and each is listed exactly once. |
| Categorize.ElementKey | seamlyDependencies.py:109-145 | The key an element is filed under, computed against the registry so far. `NonLineRegistration` characterizes it for non-line elements; `LineKeyNamed` and `LineKeyFallsBack` characterize `LineKey` for lines. |
| Categorize.Register | seamlyDependencies.py:147-148 | One element's own registration. `RegisterGet` and `NonLineRegistration` characterize it. |
| Categorize.NonLineRegistration | seamlyDependencies.py:143-148 | A non-line element is filed under its `name` when that is non-empty, or else under its `id` when that is non-empty. With neither, the registry is unchanged. |
| Categorize.RegisterGet | seamlyDependencies.py:147-148 | Registering an element changes only its own (tag, key) pair, which now holds its attribute map and replaces any earlier one. |
| Categorize.RegisterValid | seamlyDependencies.py:147-148 | Registration keeps the registry well-formed. |
| Categorize.Walk | seamlyDependencies.py:107-154 | `categorize_elements(e)`: register `e`, then walk its children. `WalkIsPreOrder` and `WalkValid` characterize it. |
| Categorize.WalkSeq | seamlyDependencies.py:151-152 | The loop over the children in document order. `WalkSeqIsPreOrder` and `WalkSeqValid` characterize it. |
| Categorize.WalkValid | seamlyDependencies.py:107-154 | The recursive walk keeps the registry well-formed. |
| Categorize.WalkSeqValid | seamlyDependencies.py:151-152 | Walking a list of children keeps the registry well-formed. |
| Categorize.PreOrder | seamlyDependencies.py:151-152 | The pre-order listing of a subtree: the root, then its children's listings in document order. `WalkIsPreOrder` relates it to `categorize_elements`. |
| Categorize.RegisterAllAppend | seamlyDependencies.py:147-152 | Registering `a + b` is registering `a`, then `b`. |
| Categorize.WalkIsPreOrder | seamlyDependencies.py:107-154 | `categorize_elements(e)` registers every element of the subtree exactly once, each before its children, with children in document order. |
| Categorize.WalkSeqIsPreOrder | seamlyDependencies.py:151-152 | The loop over the children registers their subtrees in document order. |
| Categorize.PointComesFrom | seamlyDependencies.py:125 | Any `point` entry after registering a list of elements was either already there or is the attribute map of a point element in that list. |
| Categorize.LineSeesOnlyEarlierPoints | seamlyDependencies.py:125-136 | A line at position `i` in pre-order is keyed against the registry built from positions before `i`. Every point it can resolve comes from an earlier element. |
| Categorize.EndpointNames | seamlyDependencies.py:121-133 | The two names the point scan holds after visiting the registered points in order. `FirstNamePresence`, `FirstNameLastMatch`, `SecondNamePresence` and `SecondNameLastMatch` characterize it. |
| Categorize.LineKey | seamlyDependencies.py:115-142 | The key of a line. `LineKeyNamed` and `LineKeyFallsBack` characterize it: together they cover every case. |
| Categorize.FirstNamePresence | seamlyDependencies.py:125-130 | The scan finds a first name exactly when some registered point has the id `firstPoint`. |
| Categorize.FirstNameLastMatch | seamlyDependencies.py:125-130 | The first name is that of the last point with id `firstPoint`, or that id when the point has no `name`. |
| Categorize.SecondNamePresence | seamlyDependencies.py:131-133 | Because of the `elif`, a second name is found exactly when the two endpoint ids differ and some point has the id `secondPoint`. |
| Categorize.SecondNameLastMatch | seamlyDependencies.py:131-133 | When the ids differ, the second name is that of the last point with id `secondPoint`, or that id when the point has no `name`. |
| Categorize.LineKeyNamed | seamlyDependencies.py:115-136 | The key is `Line_<n1>_<n2>` when both endpoint ids are given and differ, and their last matching points have non-empty names `n1` and `n2`. |
| Categorize.LineKeyFallsBack | seamlyDependencies.py:115-142 | In every other case the key is the line's `id`: an endpoint reference is missing or empty, the ids are equal, an id matches no point, or the matched name is empty. |
| Categorize.ResolveEndpointNames | seamlyDependencies.py:121-133 | The loop over the registered points computes the endpoint names of the scan specification `EndpointNames`. |
| Categorize.KeyOf | seamlyDependencies.py:109-145 | The imperative key computation equals `ElementKey`. |
| Categorize.ImplicitAttrs | seamlyDependencies.py:247 | The attribute map of an implicit line has exactly one attribute, `implicit`. |
| Categorize.WithImplicitLinesValid | seamlyDependencies.py:246-247 | Filing the implicit lines keeps the registry well-formed. |
| Categorize.ImplicitLinesRegistered | seamlyDependencies.py:246-247 | After filing, every implicit line is a `line` entry holding `{'implicit': True}`. Every other (type, key) pair is unchanged. |
| Categorize.ObjectStore.constructor | seamlyDependencies.py:194 | `objects_by_type` starts empty and well-formed. |
| Categorize.ObjectStore.RegisterElement | seamlyDependencies.py:147-148 | The store's new registry is the old one with the element registered, and stays well-formed. |
| Categorize.ObjectStore.Categorize | seamlyDependencies.py:107-154 | The recursive method leaves the registry equal to `Walk` of the old one, and well-formed. |
| Categorize.ObjectStore.CategorizeChildren | seamlyDependencies.py:151-152 | The loop over the children leaves the registry equal to `WalkSeq` of the old one, and well-formed. |
| Categorize.ObjectStore.AddImplicitLines | seamlyDependencies.py:246-247 | Inserting the implicit lines one by one leaves the registry equal to `WithImplicitLines` of the old one, and well-formed. |
| Tokenizer.RunEnd | seamlyDependencies.py:200 | `[a-zA-Z0-9_.]*` runs greedily: every character up to the end is a reference character, and the next one is not. |
| Tokenizer.WordEnd | seamlyDependencies.py:200 | Backtracking to the closing `\b` stops just after the last word character of the run. Only dots are given back. |
| Tokenizer.TokensFrom | seamlyDependencies.py:200 | Every match starts with a letter or `_`, contains only `[A-Za-z0-9_.]`, and ends with a word character. `TokensOccur` shows that every match is a piece of the text with `\b` on both sides. `DelimitedFound` shows that every such reference standing between non-reference characters is found. `TokensSplit` fixes order and multiplicity: a character outside `[A-Za-z0-9_.]` splits the result into the matches before it, in order, followed by those after it. |
| Tokenizer.RunEndAt | seamlyDependencies.py:200 | The greedy run `[a-zA-Z0-9_.]*` ends exactly at the first character that is not a reference character. |
| Tokenizer.RunEndBefore | seamlyDependencies.py:200 | The greedy run stops no later than the first character that is not a reference character. |
| Tokenizer.OccursLater | seamlyDependencies.py:200 | A piece that starts after a later scan position also starts after an earlier one. |
| Tokenizer.MatchEndsAtBoundary | seamlyDependencies.py:200 | A match found at a position has `\b` on both sides. |
| Tokenizer.ScanStep | seamlyDependencies.py:200 | One step of `re.findall`: the match at the position, if any, then the matches from where the scan resumes. |
| Tokenizer.TokenOccurs | seamlyDependencies.py:200 | Each match of a scan from a position is a piece of the text at or after that position, with `\b` on both sides. |
| Tokenizer.TokensOccur | seamlyDependencies.py:200 | Every match of a scan is a piece of the text at or after the scan position, with `\b` on both sides. |
| Tokenizer.FoundHere | seamlyDependencies.py:200 | A scan that reaches a delimited reference matches exactly that reference, then continues after it. |
| Tokenizer.NextPosBefore | seamlyDependencies.py:200 | The scan never resumes beyond the start of a delimited reference. |
| Tokenizer.DelimitedFound | seamlyDependencies.py:200 | Every well-formed reference that stands between characters outside `[A-Za-z0-9_.]`, or at an end of the text, is among the matches of a scan that starts at or before it. |
| Tokenizer.Tokens | seamlyDependencies.py:241-244 | No match of `ref_pattern` is all digits and dots, so the numeric filter at line 243 never fires. |
| Tokenizer.WordEndAt | seamlyDependencies.py:200 | The closing `\b` after a run is the only position after the last word character with no word character after it in the run. |
| Tokenizer.RunEndPrefix | seamlyDependencies.py:200 | A run that starts before a character outside `[A-Za-z0-9_.]` ends at the same place whether or not the text goes on after that character. |
| Tokenizer.WordEndPrefix | seamlyDependencies.py:200 | Backtracking inside such a prefix is the same in the whole text. |
| Tokenizer.PrefixStep | seamlyDependencies.py:200 | Inside such a prefix, the whole text takes the same scan step as the prefix. |
| Tokenizer.SplitScan | seamlyDependencies.py:200 | Scanning up to such a character finds exactly the prefix's matches, in order, then continues from that character. |
| Tokenizer.RunEndAgree | seamlyDependencies.py:200 | Two texts that read the same from two positions have runs of the same length there. |
| Tokenizer.WordEndAgree | seamlyDependencies.py:200 | Two such texts backtrack to the closing `\b` at the same distance. |
| Tokenizer.AgreeMatch | seamlyDependencies.py:200 | A match in one of two such texts is the same match in the other, and the texts still agree after it. |
| Tokenizer.AgreeSkip | seamlyDependencies.py:200 | Where no match starts in one of two such texts, none starts in the other, and they agree one character on. |
| Tokenizer.AgreeStep | seamlyDependencies.py:200 | Two such texts take the same scan step and agree where the scan resumes. |
| Tokenizer.AgreeScan | seamlyDependencies.py:200 | Scanning two such texts finds the same matches, in the same order and number. It holds because the match depends only on the text ahead and on `\b` before it. |
| Tokenizer.TokensSplit | seamlyDependencies.py:200 | `findall` on a text split by a character outside `[A-Za-z0-9_.]` returns the matches of the part before it, in order, followed by those of the part after it. Nothing is dropped, merged or reordered. |
| Tokenizer.RepeatedReference | seamlyDependencies.py:200 | A reference written twice around such a character is reported twice. |
| Tokenizer.SquareTokens | seamlyDependencies.py:200 | `A*A` yields `A` and `A`. |
| Tokenizer.WholeReference | seamlyDependencies.py:200 | A string that is itself a well-formed reference is its own single match. |
| Tokenizer.NoStartNoTokens | seamlyDependencies.py:200 | Text with no letter and no `_` has no match. |
| Tokenizer.FormulaTokens | seamlyDependencies.py:200 | `sin(A)*2` yields `sin` and `A`. The literal `2` is not a match. |
| Tokenizer.DotTokens | seamlyDependencies.py:200 | In `a.b..`, trailing dots are not part of the match `a.b`. In `1.x`, the match is `x`. |
| Extraction.Append | seamlyDependencies.py:197 | `dependencies[k].append(v)` through the `defaultdict`: the list of `k` grows by `v` at its end. Every other list is unchanged, and `k` becomes a key. |
| Extraction.AttrActions | seamlyDependencies.py:227-250 | The references one attribute contributes. `ImplicitAttrIgnored`, `VerbatimAttr` and `TokenizedAttr` characterize it. |
| Extraction.RegActions | seamlyDependencies.py:224-226 | Every reference of the loop, type by type, object by object and attribute by attribute, in iteration order. `LineReferenceActions` computes it on an example. |
| Extraction.Step | seamlyDependencies.py:245-250 | The effect of one reference on the loop's state. `StepParts` and `FailsIff` characterize it. |
| Extraction.Run | seamlyDependencies.py:224-250 | The loop as a fold of its references. `DepsAreTargets`, `DepsKeys`, `ImplicitLinesAre`, `ImplicitLinesDistinct` and `FailsIff` characterize it. |
| Extraction.Extract | seamlyDependencies.py:224-250 | The loop as written: the fold's outcome, or `Failure(DictionaryChangedSize)` when a step inserted into a dictionary being iterated. `ExtractFails` and `LineReferenceWithoutLines` characterize it. |
| Extraction.RunValid | seamlyDependencies.py:197 | The dependency dictionary stays well-formed through the whole loop. |
| Extraction.Snapshot | seamlyDependencies.py:224-250 | The snapshot extraction yields a well-formed dependency dictionary. |
| Extraction.RunAppend | seamlyDependencies.py:224-250 | Processing references `a + b` is processing `a`, then `b`, so the nested loops compose in iteration order. |
| Extraction.StepParts | seamlyDependencies.py:245-250 | One reference appends its target to its owner's list. An implicit line is added only for a `Line_` reference that names neither a registered nor an earlier implicit line. |
| Extraction.DepsAreTargets | seamlyDependencies.py:224-250 | Each key's dependency list is its earlier list followed by the targets of its references, in loop order. |
| Extraction.DepsKeys | seamlyDependencies.py:224-250 | The keys of `dependencies` are the earlier keys plus the owners of references. |
| Extraction.ImplicitLinesAre | seamlyDependencies.py:245-247 | A line becomes implicit exactly when some `Line_` reference names it and it is not a registered `line` key. |
| Extraction.ImplicitLinesDistinct | seamlyDependencies.py:246-247 | Each implicit line is created once. |
| Extraction.ImplicitLinesUnregistered | seamlyDependencies.py:246 | No implicit line is a registered line. |
| Extraction.FailsIff | seamlyDependencies.py:224-247 | The loop as written fails exactly when some reference, at its position, inserts into a dictionary being iterated. |
| Extraction.ImplicitAttrIgnored | seamlyDependencies.py:227 | An attribute named `implicit` never contributes a reference. |
| Extraction.VerbatimAttr | seamlyDependencies.py:228-237 | A `draftBlock` `name`, or one of the seven point reference attributes, contributes its whole value as one dependency exactly when the value is non-empty and not all digits and dots. Otherwise it contributes nothing. |
| Extraction.RefActionsOfTokens | seamlyDependencies.py:242-250 | Each non-numeric match contributes one reference, in order. |
| Extraction.TokenizedAttr | seamlyDependencies.py:238-250 | Any other attribute contributes one reference per match, in order. A `Line_` match makes the object a user of the line (a reversed edge); every other match becomes a dependency of the object. |
| Extraction.WholeReferenceAttr | seamlyDependencies.py:241-250 | A tokenized attribute whose whole value is one reference contributes exactly that reference: a use of the line when it starts with `Line_`, otherwise a dependency of the object. |
| Extraction.ImplicitEntryContributesNothing | seamlyDependencies.py:225-227 | An implicit entry that joins a dictionary before the loop reaches it contributes no reference. This is why iterating it changes nothing. |
| Extraction.ExtractFails | seamlyDependencies.py:224-250 | The loop as written fails exactly when `Raises` holds. When it does not fail, it delivers the snapshot outcome. |
| Extraction.SnapshotDeps | seamlyDependencies.py:224-250 | Every object's list is the targets of its references, in loop order. The keys with a list are exactly the owners of references. |
| Extraction.SnapshotImplicitLines | seamlyDependencies.py:245-247 | The implicit lines are exactly the `Line_` references that name no registered line, and each appears once. |
| Extraction.LengthNamesLine | seamlyDependencies.py:241-248 | A point's `length` formula `Line_A_B` makes the point a user of `Line_A_B`. |
| Extraction.PointNameIsOwnDependency | seamlyDependencies.py:234-250 | A point named `A` records `A` as its own dependency. |
| Extraction.LineReferencePatternRegistry | seamlyDependencies.py:107-154 | A document whose root has no `name` or `id` and holds one point named `A` with `length` `Line_A_B`. Walking it files only the point, under `A`. |
| Extraction.LineReferencePointActions | seamlyDependencies.py:226-250 | That point's attributes, in document order, contribute `A` as its own dependency and then `A` as a user of `Line_A_B`. |
| Extraction.LineReferenceActions | seamlyDependencies.py:224-250 | The registry of that document produces exactly those two references. |
| Extraction.LineReferenceRun | seamlyDependencies.py:245-250 | With no `line` entry, the fold over those two references gives `A: [A]` and `Line_A_B: [A]`, one implicit line `Line_A_B`, and failure. |
| Extraction.LineReferenceWithoutLines | seamlyDependencies.py:246-247 | On that registry, the loop as written fails. The snapshot reading records `A` as its own dependency and as the user of `Line_A_B`, and collects `Line_A_B` as an implicit line. |
| Extraction.ExtractRefs | seamlyDependencies.py:242-250 | The loop over the matches takes the state to `Run` of its references. |
| Extraction.ExtractAttr | seamlyDependencies.py:227-250 | The handling of one attribute takes the state to `Run` of its references. |
| Extraction.ExtractObject | seamlyDependencies.py:226-250 | The loop over an object's attributes takes the state to `Run` of its references. |
| Extraction.ExtractType | seamlyDependencies.py:225-250 | The loop over one type's objects takes the state to `Run` of its references. |
| Extraction.ExtractTypes | seamlyDependencies.py:224-250 | The outer loop takes the initial state to `Run` of every reference of the registry. |
| Extraction.ExtractDependencies | seamlyDependencies.py:224-250 | The imperative extraction returns `Extract` of the registry. |
| Queries.ClosureFrom | seamlyDependencies.py:26-37 | A visited or unknown target yields nothing. Otherwise the result contains every direct dependency. |
| Queries.Closure | seamlyDependencies.py:26-27 | The top-level call with `visited=None`, an empty visited set. `ClosureIsReachability`, `SelfInClosureIffCycle` and `DirectInClosure` characterize it. |
| Queries.FindVariableDependencies | seamlyDependencies.py:14-44 | The recursive method with its loop computes `ClosureFrom`, with a fresh copy of the visited set on each path. |
| Queries.UnionClosuresHas | seamlyDependencies.py:40-42 | The loop's union holds exactly what some direct dependency's closure holds. |
| Queries.ClosureSound | seamlyDependencies.py:29-42 | Everything in a closure is the end of a path of one or more edges from the target, avoiding the visited set. |
| Queries.ClosureComplete | seamlyDependencies.py:29-42 | The end of any repetition-free path that avoids the visited set is in the closure of its start. |
| Queries.ShortestPath | seamlyDependencies.py:29-30 | Any path can be shortened to one without repeated nodes, so the cycle guard loses no reachable node. |
| Queries.ClosureIsReachability | seamlyDependencies.py:14-44 | With an empty visited set, `y` is in the closure of `x` exactly when `y` is reachable from `x` by one or more edges. |
| Queries.SelfInClosureIffCycle | seamlyDependencies.py:29-42 | A variable is in its own closure exactly when it lies on a cycle. |
| Queries.DirectInClosure | seamlyDependencies.py:36-37 | Every direct dependency is in the closure. |
| Queries.MutualDependency | seamlyDependencies.py:29-42 | With A→B and B→A, the closure of A is `{A, B}`. |
| Queries.UsersOf | seamlyDependencies.py:57-61 | The keys among the first `n` of `dependencies` whose list contains the target, in iteration order. `UsersIff`, `UsersInOrder`, `UsersNoRepeats` and `UsersAreInverse` characterize it. |
| Queries.FindVariablesUsingTarget | seamlyDependencies.py:46-61 | The loop returns `UsersOf` over all keys. |
| Queries.UsersIff | seamlyDependencies.py:57-61 | A key is among the users scanned so far exactly when it is one of those keys and its list contains the target. |
| Queries.UsersInOrder | seamlyDependencies.py:57-61 | The users appear in key iteration order: they form a subsequence of the keys. |
| Queries.UsersNoRepeats | seamlyDependencies.py:57-61 | No user is listed twice. |
| Queries.UsersAreInverse | seamlyDependencies.py:46-61 | `v` is a user of `t` exactly when `t` is in `dependencies[v]`. The result is repetition-free and in key order. |
| Queries.HashKeys | seamlyDependencies.py:265-269 | The `#` keys of the first `n` types, type by type. `HashKeysIff` and `HashVariablesAreHashKeys` characterize it. |
| Queries.HashVariables | seamlyDependencies.py:265-269 | The nested scan returns `HashKeys` over all types. |
| Queries.HashKeysOfIff | seamlyDependencies.py:267-269 | One type contributes exactly its keys that start with `#`. |
| Queries.HashKeysIff | seamlyDependencies.py:265-269 | A name is reported exactly when it starts with `#` and is a key of one of the scanned types. |
| Queries.HashVariablesAreHashKeys | seamlyDependencies.py:265-269 | A name is reported exactly when it starts with `#` and some type has an object under that key. |
| Pipeline.Analyze | seamlyDependencies.py:211-269 | The script's analysis as written, or the error that stops it. `AnalyzeIsSnapshot` and `Run` characterize it. |
| Pipeline.AnalyzeSnapshot | seamlyDependencies.py:194-269 | The corrected analysis yields a well-formed registry and a well-formed dependency dictionary. |
| Pipeline.AnalyzeIsSnapshot | seamlyDependencies.py:211-250 | The script as written stops exactly when `Raises` holds of the registry. Otherwise its analysis is the corrected one. |
| Pipeline.Run | seamlyDependencies.py:194-269 | The imperative script body computes `Analyze` of the document. When it succeeds, its registry and dependency dictionary are well-formed. |
| Pipeline.AnalysisRegistry | seamlyDependencies.py:211-247 | The reported registry is the document's elements in pre-order, each under its key, then the implicit lines. Every implicit line is unknown to the document and is filed as `{'implicit': True}`. |
| Pipeline.LineReferencePatternAnalysis | seamlyDependencies.py:211-250 | On the one-point document, the script as written stops. The corrected analysis gives `A: [A]` and `Line_A_B: [A]`, and files `Line_A_B` as an implicit line. |

## Left out

- The file dialog, `os.chdir`, console clearing and `input()` (lines 168-187) are user interface and operating-system calls. They are not modelled.
- `ET.parse` (line 190) is a foreign library. The parsed tree is the input `Element`.
- Printing is not modelled. This covers the debug print at line 239, the results listing at lines 252-259, and the `#` listing, analysis and summary statistics at lines 271-294.
- `analyze_variable` (lines 63-105) only prints. Its two queries are modelled (`Queries.FindVariableDependencies`, `Queries.FindVariablesUsingTarget`). The `sorted` calls and the printing lookup of the first type holding the variable (lines 92-100) are not.
- `Tokenizer.Tokens`: models `\b` and `\w` on ASCII characters only. Python's Unicode word characters are out of scope.
- Element attribute maps are not required to be well-formed. An `Attrs` value may list a key twice or list a key the map lacks, which no Python dict can do. No theorem needs that property, so every theorem also covers such values. For well-formed maps they describe the script's behaviour.
- Attribute values are strings. The implicit attribute value `True` (a Python boolean) is modelled as the string `"True"`. No rule in the model reads that value.
- `Extraction.Extract`: when the loop as written fails, the model reports only `Failure(DictionaryChangedSize)`. The partial `dependencies` at the moment of the crash are not modelled.
- `Queries.FindVariableDependencies`: running time and recursion depth are not modelled. Line 41 makes one recursive call per simple path, each with a copy of `visited`, so the running time grows with the number of simple paths. Python's default recursion limit raises `RecursionError` on a dependency chain of about 1000 variables. The Dafny function is total and shows neither effect.
- `Queries.FindVariableDependencies`: the visited set is a value. A caller-supplied set is not mutated as Python's `visited.add` would mutate it; the script never passes one.

## Findings

| source | as written | input that shows it | evidently intended | confidence | as-written member | corrected member |
|---|---|---|---|---|---|---|
| seamlyDependencies.py:246-247 | A `Line_` reference inserts into `objects_by_type['line']` while `objects_by_type` and its inner dictionaries are being iterated. CPython raises `RuntimeError: dictionary changed size during iteration` in two cases: the `line` type is absent (the `defaultdict` read creates it), or the current type is `line` and the reference is a new implicit line. | A document with one point element whose `name` is `A` and whose `length` is `Line_A_B`, and no line elements | Record `A` as a user of `Line_A_B` and file `Line_A_B` as an implicit line after the iteration | high; not executed | Pipeline.LineReferencePatternAnalysis | Extraction.Snapshot |
