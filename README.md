# Godot source generators, modelled in Dafny

The repository holds two Roslyn source generators for Godot C# projects. They share one shape:

- a syntax receiver collects the `partial`, non-`static` classes outside `addons/` that declare a field carrying a marker attribute;
- for each candidate, the generator emits a C# file named `<namespace>_<class>_<Kind>.g` holding a method that assigns each marked field.

The two generators are:

- **DependencyResolver** (marker `[InjectDependency]`). It walks the candidate's base classes through the semantic model, following the first base-list entry. At every visited level it gathers the marked fields and the using directives of that level's file; a directive that binds to a namespace is rendered with its fully qualified name. It emits `ResolveDependencies()`, which assigns each field with `GetTree().Root.GetChildren().OfType<T>().FirstOrDefault()`. The node path written in the attribute is extracted but never used.
- **SceneNodeResolver** (marker `[SceneNode]`). It looks only at the candidate's own fields and copies its file's using directives as written. It emits `ResolveNodes()`, which assigns each field with `this.GetNode<T>("path")`.

## Modules

- `Syntax` stands in for the parts of Roslyn the generators read:
  - classes, fields, attributes, using directives and syntax trees as values;
  - the semantic model as two resolver functions in `Compilation`.
- `Markers` holds what both generators share, parametrised by the marker name:
  - the candidate filter;
  - field extraction, including the node path (`Trim('"')` of the first argument);
  - the hint name;
  - the assembly of a run's generated files, where the first exception aborts the run.
- `DependencyWalk` specifies the `while (currentClass != null)` loop:
  - one iteration either leaves the loop, keeps the SAME class, or moves to the base class;
  - the states visited within a given number of iterations;
  - when the loop terminates at all.
- `DependencyResolver` and `SceneNodeResolver` hold the generators:
  - the receivers and `GenerateClass` are imperative, as in C#;
  - each generator has a specification function for what one candidate yields (`GeneratedSource`) and for a whole run (`GeneratedFiles`);
  - parsers read a generated unit back.
- `Sequences`, `Strings` and `Emission` hold the LINQ, `string` and `StringBuilder` operations, plus the line readers.

Exceptions thrown by `First()` become `Failure` values. Roslyn's semantic queries are inputs. The dependency loop can run forever: a base type that does not resolve to a named type leaves `currentClass` unchanged. An exception ends the loop early, though. So the precondition is `Ends(comp, Start(c), fuel)`: within `fuel` iterations the loop leaves normally or a level's fields throw. `Halts` is the stricter condition that the walk alone leaves. A run needs `RunEnds`: every candidate the run reaches ends, up to and including the first one that throws. The fuel is ghost.

## Model

| member | source | states |
|---|---|---|
| DependencyResolver.DependencySyntaxReceiver.constructor | DependencyResolver/DependencyResolverGenerator.cs:173-175 | A new receiver holds no candidates. |
| DependencyResolver.DependencySyntaxReceiver.OnVisitSyntaxNode | DependencyResolver/DependencyResolverGenerator.cs:177-191 | A visited node is appended exactly when it is a class declaration meeting `IsCandidate` for `InjectDependency`. Nothing else changes. |
| DependencyResolver.CollectCandidates | DependencyResolver/DependencyResolverGenerator.cs:175-191 | Visiting all nodes in order leaves the receiver holding `CandidatesOf(nodes)`, in visiting order. |
| Markers.CandidatesOf | DependencyResolver/DependencyResolverGenerator.cs:179-189 | A class is collected iff it is among the visited nodes and it is partial, not static, outside `addons/`, and has a directly declared field with an attribute named exactly like the marker. |
| Markers.Attributes | DependencyResolver/DependencyResolverGenerator.cs:185-186 | Definition: `AttributeLists.SelectMany(a => a.Attributes)`, every attribute of the field in order. |
| Markers.IsMarked | DependencyResolver/DependencyResolverGenerator.cs:185-187 | Definition: some attribute of the field has a name whose text is exactly the marker. |
| Markers.HasMarkedField | DependencyResolver/DependencyResolverGenerator.cs:183-187 | Definition: some field declared directly in the class is marked. |
| Markers.IsCandidate | DependencyResolver/DependencyResolverGenerator.cs:179-187 | Definition of the receiver's filter: `partial`, not `static`, a file path without `addons/`, and an own field carrying an attribute named exactly like the marker. `abstract` is not tested. |
| Markers.ExcludedFileNeverCandidate | DependencyResolver/DependencyResolverGenerator.cs:182 | A class whose file path contains `addons/` anywhere is never a candidate. |
| Strings.ContainsSubstring | DependencyResolver/DependencyResolverGenerator.cs:182 | Definition of ordinal `Contains`: the text starts with the pattern, or its tail contains it. |
| Strings.ContainsSubstringIff | DependencyResolver/DependencyResolverGenerator.cs:182 | Ordinal `Contains` holds iff the text occurs at some position. |
| Markers.HintNameInjective | DependencyResolver/DependencyResolverGenerator.cs:42-44 | Two classes get the same hint name only when they agree on namespace and class name, provided no underscore appears in those names. |
| Markers.NamespaceName | DependencyResolver/DependencyResolverGenerator.cs:42 | Definition: the name of the enclosing namespace declaration, or `Global` for any other parent. |
| Markers.HintName | DependencyResolver/DependencyResolverGenerator.cs:42-44 | Definition: `<namespace>_<class>_<kind>.g`. |
| Markers.HintNameCollision | DependencyResolver/DependencyResolverGenerator.cs:42-44 | Different classes can share a hint name: class `C` in namespace `A_B` and class `B_C` in namespace `A` are both named `A_B_C_<kind>.g`. |
| DependencyResolver.RenderUsing | DependencyResolver/DependencyResolverGenerator.cs:156-164 | Definition: `using <qualified name>;` when the directive's name binds to a namespace symbol, the directive's own text otherwise. |
| DependencyResolver.GetUsings | DependencyResolver/DependencyResolverGenerator.cs:151-167 | Definition: `Distinct` of the file's directives, rendered, in document order. |
| DependencyResolver.RenderedUsings | DependencyResolver/DependencyResolverGenerator.cs:153-164 | Definition: every using directive of the class's file, rendered, in document order, repeats included. |
| DependencyResolver.GetUsingsContents | DependencyResolver/DependencyResolverGenerator.cs:151-167 | `GetUsings` has no repeats. It holds exactly the renderings of the file's directives: `using <qualified name>;` when the name binds to a namespace, the directive's own text otherwise. |
| DependencyResolver.ChainUsings | DependencyResolver/DependencyResolverGenerator.cs:70-71 | Definition: what `usings.AddRange(GetUsings(currentClass, model))` adds over the visited states, in visiting order. |
| DependencyResolver.ImportBlock | DependencyResolver/DependencyResolverGenerator.cs:62-127 | Definition: `usings.Distinct()`, where `usings` holds the candidate's own usings followed by every visited state's. |
| DependencyResolver.ChainUsingsDistinct | DependencyResolver/DependencyResolverGenerator.cs:70-71 | Deduplicating per file, concatenating, then deduplicating again equals deduplicating all the rendered directives at once. |
| DependencyResolver.ImportBlockOfWalk | DependencyResolver/DependencyResolverGenerator.cs:62-71 | The import block equals `Distinct` of every rendered directive of every visited file, even though the candidate's file is gathered twice. It has no repeats, holds exactly those lines, and keeps the order of first occurrence. |
| DependencyResolver.ImportBlockStable | DependencyResolver/DependencyResolverGenerator.cs:127 | Deduplicating the import block again changes nothing. |
| Sequences.AddNew | DependencyResolver/DependencyResolverGenerator.cs:165 | The fold behind `Distinct`. Continuing from already yielded elements `seen`, it keeps `seen` as its prefix and yields exactly the elements of `seen` and of the input. It adds no repeats when `seen` has none. |
| Sequences.Distinct | DependencyResolver/DependencyResolverGenerator.cs:165 | The result of LINQ `Distinct` has no repeats and holds exactly the elements of its input. |
| Sequences.DistinctKeepsFirstOccurrenceOrder | DependencyResolver/DependencyResolverGenerator.cs:127 | `Distinct` lists elements in the order of their first occurrence. |
| Sequences.DistinctIdempotent | DependencyResolver/DependencyResolverGenerator.cs:127 | Applying `Distinct` twice gives the same result as applying it once. |
| Sequences.DistinctRepeated | DependencyResolver/DependencyResolverGenerator.cs:62-71 | Gathering the same list twice in a row, `Distinct(a + a + b)`, gives the same as `Distinct(a + b)`. |
| Sequences.DistinctOfDistinctPrefix | DependencyResolver/DependencyResolverGenerator.cs:70-71 | Deduplicating a prefix first and then the whole list gives the same as deduplicating the whole list once. |
| Sequences.TryMap | DependencyResolver/DependencyResolverGenerator.cs:79-88 | Definition: `Select(f).ToList()` with a selector that may throw: all results in order, or the first exception. |
| Sequences.TryMapContents | DependencyResolver/DependencyResolverGenerator.cs:79-88 | `Select(...).ToList()` with a throwing selector succeeds iff every element succeeds. On success the results are pointwise and in order. On failure it reports the first failing element's exception. |
| Sequences.TryFlatMap | DependencyResolver/DependencyResolverGenerator.cs:67-90 | Definition: the selector run eagerly from left to right, with the results one after the other, or the first exception. |
| Sequences.TryFlatMapAppend | DependencyResolver/DependencyResolverGenerator.cs:90 | Gathering over two consecutive runs of levels concatenates their results. It fails iff one part fails, and a failure in the first part wins. |
| Sequences.TryFlatMapSplit | DependencyResolver/DependencyResolverGenerator.cs:90 | A successful gathering is, level by level, the prefix's results, that level's results, then the suffix's results, and each part succeeds. |
| Sequences.Flatten | DependencyResolver/DependencyResolverGenerator.cs:83 | `SelectMany(a => a.Attributes)` holds exactly the attributes of all the lists. |
| Sequences.FlattenAppend | DependencyResolver/DependencyResolverGenerator.cs:83 | Flattening two runs of lists concatenates their flattenings, so `SelectMany` keeps the lists' order. |
| Sequences.FlattenSnoc | DependencyResolver/DependencyResolverGenerator.cs:83 | Flattening one more list appends its elements at the end, in order. |
| Sequences.TryFlatMapFailFirst | DependencyResolver/DependencyResolverGenerator.cs:67-90 | A failing gathering reports the exception of the first failing level. |
| Markers.MarkedDecls | DependencyResolver/DependencyResolverGenerator.cs:75-78 | A declaration is kept iff it is a field of the class carrying the marker attribute. |
| Markers.MarkedDeclsAppend | DependencyResolver/DependencyResolverGenerator.cs:75-78 | The marker filter distributes over concatenation, so declaration order is kept. |
| Markers.ExtractField | DependencyResolver/DependencyResolverGenerator.cs:79-87 | Definition of one field's tuple: the type as written; the FIRST declared variable, or `First()`'s exception when there is none; then the node path. |
| Markers.MarkedFields | DependencyResolver/DependencyResolverGenerator.cs:75-88 | Definition of the LINQ pipeline over one class: the marked declarations mapped through `ExtractField`, where the first exception aborts. |
| Markers.MarkedFieldsContents | DependencyResolver/DependencyResolverGenerator.cs:75-88 | A level's extraction succeeds iff every marked declaration extracts. The tuples then correspond one to one with the marked declarations, in declaration order, each with the type as written and the FIRST declared variable. |
| Markers.ExtractAllContents | DependencyResolver/DependencyResolverGenerator.cs:79-88 | Extracting a run of marked declarations succeeds iff each one extracts. Each tuple is then that declaration's extraction; otherwise the first failing declaration's exception is reported. |
| Markers.MarkedFieldsFailFirst | DependencyResolver/DependencyResolverGenerator.cs:79-88 | A failing extraction reports the exception of the first marked declaration that fails. |
| Markers.FirstMarker | DependencyResolver/DependencyResolverGenerator.cs:82-86 | The attribute found is the first one named like the marker, and `None` is returned iff no attribute has that name. |
| Markers.NodePath | DependencyResolver/DependencyResolverGenerator.cs:82-86 | Definition: `""` when no marker attribute has an argument list, `First()`'s exception for an empty list `()`, and otherwise the first argument trimmed of `"`. |
| Markers.NodePathContents | DependencyResolver/DependencyResolverGenerator.cs:82-86 | Path extraction fails iff the first marker attribute has the empty argument list `()`. A path never starts or ends with `"`. It is `""` without an argument list; otherwise it is the first argument with a run of quotes cut from each end. |
| Strings.LeadingCount | DependencyResolver/DependencyResolverGenerator.cs:85 | The count is the length of the leading run of the trimmed character. |
| Strings.TrailingCountContents | DependencyResolver/DependencyResolverGenerator.cs:85 | The count is the length of the trailing run of the trimmed character. |
| Strings.Trim | DependencyResolver/DependencyResolverGenerator.cs:85 | Definition of `Trim(c)`: the input without its leading run of `c` and then without the trailing run of what is left. |
| Strings.TrimContents | DependencyResolver/DependencyResolverGenerator.cs:85 | `Trim(c)` leaves a slice of the input that neither starts nor ends with `c`, and everything cut away is `c`. |
| Strings.TrimUntouched | DependencyResolver/DependencyResolverGenerator.cs:85 | A text that neither starts nor ends with `c` is left unchanged by `Trim(c)`. |
| Strings.TrimIdempotent | DependencyResolver/DependencyResolverGenerator.cs:85 | Trimming twice gives the same result as trimming once. |
| DependencyWalk.Start | DependencyResolver/DependencyResolverGenerator.cs:45-67 | Definition: the loop starts at the candidate with the semantic model of its own syntax tree. |
| DependencyWalk.FirstBaseType | DependencyResolver/DependencyResolverGenerator.cs:93 | Only the first base-list entry is followed, and there is none iff the base list is empty. |
| DependencyWalk.NextStep | DependencyResolver/DependencyResolverGenerator.cs:93-117 | Definition of one base step. It stops without a base-list entry. It stays on the same class and model when the base type is not a named-type symbol. It stops when there is no declaring reference or the declaration is not a class. Otherwise it moves to the declaring class and its tree's model. |
| DependencyWalk.Successor | DependencyResolver/DependencyResolverGenerator.cs:96-107 | Definition of the next loop state: the same state after a step that stays, and the declaring class with its model after a step that moves. |
| DependencyWalk.Walk | DependencyResolver/DependencyResolverGenerator.cs:67-118 | When the loop ends within `fuel` iterations, the visited states start at the state the loop started in, and there are at least one and at most `fuel` of them. |
| DependencyWalk.Halts | DependencyResolver/DependencyResolverGenerator.cs:67-118 | Definition: the walk alone, without exceptions, leaves the loop within `fuel` iterations. |
| DependencyWalk.Reach | DependencyResolver/DependencyResolverGenerator.cs:93-117 | Definition: the state reached after `k` iterations, or `None` if the loop was left before. |
| DependencyWalk.WalkShape | DependencyResolver/DependencyResolverGenerator.cs:67-118 | Each visited state leads to the next by one iteration, and only the last state leaves the loop. |
| DependencyWalk.WalkStep | DependencyResolver/DependencyResolverGenerator.cs:93-117 | The k-th state leaves the loop iff it is the last one; otherwise the next state is its successor. |
| DependencyWalk.WalkFuelIrrelevant | DependencyResolver/DependencyResolverGenerator.cs:68 | More fuel does not change a walk that already halts. |
| DependencyWalk.HaltsAfterReach | DependencyResolver/DependencyResolverGenerator.cs:68-118 | Once k iterations have reached a state, the loop ends within `fuel` iterations iff `fuel > k` and it ends within `fuel - k` iterations from that state. |
| DependencyWalk.CycleNeverHalts | DependencyResolver/DependencyResolverGenerator.cs:99-106 | A base-class chain that comes back to where it started loops forever. |
| DependencyWalk.ReachedCycleNeverHalts | DependencyResolver/DependencyResolverGenerator.cs:99-106 | A base-class chain that reaches a state and later comes back to it loops forever, even when the cycle does not pass through the start (A, B, C, B, ...). |
| DependencyWalk.StayNeverHalts | DependencyResolver/DependencyResolverGenerator.cs:96-97 | A base type that does not resolve to a named-type symbol leaves `currentClass` unchanged, so the loop never ends. |
| DependencyWalk.HaltsIffReachesStop | DependencyResolver/DependencyResolverGenerator.cs:68-117 | The loop halts within `fuel` iterations iff some state reached in fewer than `fuel` steps leaves the loop. |
| DependencyWalk.ReachAlongWalk | DependencyResolver/DependencyResolverGenerator.cs:67-118 | The k-th state of the walk is the state reached after k iterations. |
| DependencyResolver.ResolveBase | DependencyResolver/DependencyResolverGenerator.cs:93-117 | The base step leaves the loop iff `NextStep` says stop. Otherwise the next class and model are the successor state; for an unresolved base type that is the same class and model. |
| DependencyResolver.Levels | DependencyResolver/DependencyResolverGenerator.cs:67-118 | The states the loop visits until it leaves normally or a level's fields throw. When that happens within `fuel` iterations, there are between one and `fuel` of them, starting at the starting state. |
| DependencyResolver.Ends | DependencyResolver/DependencyResolverGenerator.cs:67-118 | Definition: the loop ends within `fuel` iterations, normally or by an exception. |
| DependencyResolver.LevelsShape | DependencyResolver/DependencyResolverGenerator.cs:67-118 | Every visited state but the last extracts its fields, does not stop, and is followed by its successor. The last one throws or stops. |
| DependencyResolver.LevelsStep | DependencyResolver/DependencyResolverGenerator.cs:75-117 | The k-th visited state throws or stops iff it is the last one; otherwise the next state is its successor. |
| DependencyResolver.LevelsOfHalting | DependencyResolver/DependencyResolverGenerator.cs:67-118 | When the walk halts, the loop ends too. The states it visits are a prefix of the walk, and they are the whole walk unless the last one throws. |
| DependencyResolver.LevelsIsWalk | DependencyResolver/DependencyResolverGenerator.cs:67-118 | When the last state the loop visits does not throw, the walk halts and the loop visits exactly the walk's states. |
| DependencyResolver.LevelsFuelIrrelevant | DependencyResolver/DependencyResolverGenerator.cs:67-118 | More fuel does not change the states of a loop that already ends. |
| DependencyResolver.GatherLevels | DependencyResolver/DependencyResolverGenerator.cs:62-118 | The loop visits exactly the states of `Levels`. It returns the candidate's usings, then every visited level's usings, with every level's marked fields concatenated; or the exception of the level that throws. |
| DependencyResolver.GatheredOf | DependencyResolver/DependencyResolverGenerator.cs:62-90 | Definition of what the loop gathers: the candidate's usings followed by each visited level's, and the levels' marked fields, or the first exception. |
| DependencyResolver.LevelFields | DependencyResolver/DependencyResolverGenerator.cs:75-88 | Definition: one visited level's `classFields`, the marked fields of that class, or the exception raised extracting them. |
| DependencyResolver.ChainFields | DependencyResolver/DependencyResolverGenerator.cs:67-90 | Definition: `fields.AddRange(classFields)` over the visited levels, in visiting order, or the first exception raised. |
| DependencyResolver.ChainFieldsLevels | DependencyResolver/DependencyResolverGenerator.cs:67-90 | The gathered fields are the levels' marked fields, derived class first, each level in declaration order and never reordered. |
| DependencyResolver.ChainFieldsFailFirst | DependencyResolver/DependencyResolverGenerator.cs:75-90 | A failing gathering reports the first level whose fields cannot be extracted, and all earlier levels extract. |
| DependencyResolver.GeneratedSource | DependencyResolver/DependencyResolverGenerator.cs:56-148 | Definition of one candidate's text: the unit's lines for the gathered fields and `Distinct` of the gathered usings, joined with newlines; or the exception. |
| DependencyResolver.GeneratedSourceOfLoop | DependencyResolver/DependencyResolverGenerator.cs:56-148 | Generation fails iff the last level the loop visits throws, with that level's exception. When it succeeds, the walk halts and the loop visited exactly the walk. |
| DependencyResolver.GeneratedSourceFuelIrrelevant | DependencyResolver/DependencyResolverGenerator.cs:56-148 | Once a candidate's loop ends, more fuel leaves it ending and does not change its generated source. |
| DependencyResolver.FailingLevelEndsBeforeWalk | DependencyResolver/DependencyResolverGenerator.cs:75-97 | When the candidate's own fields throw, generation ends after one level with that exception. This holds even when its base type does not resolve, in which case the walk alone never halts. |
| DependencyResolver.GeneratedSourceOfWalk | DependencyResolver/DependencyResolverGenerator.cs:56-148 | When the walk halts, the loop ends. Generation fails iff some visited level's fields cannot be extracted. Otherwise the unit imports `Distinct` of all rendered directives of the visited files and assigns every visited level's fields in walk order. |
| DependencyResolver.GenerateClass | DependencyResolver/DependencyResolverGenerator.cs:56-149 | When the loop ends, the method returns `GeneratedSource`: the loop, the gathering and the emission of one candidate. |
| DependencyResolver.EmitUnit | DependencyResolver/DependencyResolverGenerator.cs:124-148 | The `StringBuilder` ends up holding the unit's lines, each followed by a newline. |
| DependencyResolver.AssignmentLine | DependencyResolver/DependencyResolverGenerator.cs:141 | Definition: `this.<name> = GetTree().Root.GetChildren().OfType<<type>>().FirstOrDefault();` with eight spaces of indentation. |
| DependencyResolver.HeaderLines | DependencyResolver/DependencyResolverGenerator.cs:125-137 | Definition of the lines appended before the fields: the namespace line, an empty line, the ONE import line, the pragma-wrapped usings, the class line and the method opening. |
| DependencyResolver.UnitLines | DependencyResolver/DependencyResolverGenerator.cs:124-146 | Definition: the header lines, one assignment line per field in order, and the closing lines. |
| DependencyResolver.HeaderLinesParts | DependencyResolver/DependencyResolverGenerator.cs:125-137 | The header has 13 lines. The namespace line comes first, the import block is ONE line, and the pragma-wrapped extra usings, the class line and the method opening follow at fixed positions. |
| DependencyResolver.UnitLinesIgnorePaths | DependencyResolver/DependencyResolverGenerator.cs:139-142 | The extracted node path never reaches the output: fields that agree on names and types give the same unit. |
| DependencyResolver.ParseAssignmentOf | DependencyResolver/DependencyResolverGenerator.cs:141 | Every emitted `this.N = GetTree().Root.GetChildren().OfType<T>().FirstOrDefault();` line reads back as the field's name and type. |
| DependencyResolver.ParseUnitOf | DependencyResolver/DependencyResolverGenerator.cs:124-146 | The generated lines read back as the namespace, the `IDependencyResolver` class, the joined import line and one assignment per field, in field order. Every fixed line is in place. |
| DependencyResolver.Outcome | DependencyResolver/DependencyResolverGenerator.cs:47 | Definition: a candidate's generated source when its loop ends within `fuel` iterations, and `None` otherwise. |
| DependencyResolver.Outcomes | DependencyResolver/DependencyResolverGenerator.cs:41-47 | There is one outcome per candidate, in order. |
| DependencyResolver.RunEndsWhenWalksHalt | DependencyResolver/DependencyResolverGenerator.cs:41-53 | When every candidate's walk halts, the run ends. |
| DependencyResolver.FailingCandidateEndsRun | DependencyResolver/DependencyResolverGenerator.cs:41-53 | A run whose first candidate's generation throws ends with that exception, whatever the later candidates would do, even if they loop forever. |
| DependencyResolver.GeneratedFiles | DependencyResolver/DependencyResolverGenerator.cs:41-53 | Definition: the files a run adds, the assembly of the outcomes the run reaches. |
| DependencyResolver.RunPlan | DependencyResolver/DependencyResolverGenerator.cs:41-53 | The run reaches a prefix of the candidates. Each reached candidate's generation ends with its generated source. All but the last succeed, and the run stops short only after an exception. The run's result is the assembly of those sources. |
| DependencyResolver.RunFuelIrrelevant | DependencyResolver/DependencyResolverGenerator.cs:41-53 | More fuel does not change a run that already ends: it still ends, reaches the same outcomes and adds the same files. |
| DependencyResolver.RunEndsWhenGenerationsEnd | DependencyResolver/DependencyResolverGenerator.cs:41-53 | Every run on which the C# returns meets the precondition. Suppose the first `n` candidates end, each within its own fuel, and succeed, and the next one, if any, ends by throwing. Then with a fuel covering them all the run ends, reaches exactly those candidates, and each keeps its own generated source. |
| DependencyResolver.OutcomesWithEnoughFuel | DependencyResolver/DependencyResolverGenerator.cs:41-53 | With a fuel covering each of those candidates' own, their outcomes are their generated sources: `n` successes and then, if there is a next candidate, its exception. |
| DependencyResolver.GeneratedFilesContents | DependencyResolver/DependencyResolverGenerator.cs:41-53 | A run succeeds iff every candidate's generation ends and succeeds. It then adds, in candidate order, one file per candidate named `<ns>_<class>_DependencyResolver.g` holding that candidate's text. |
| DependencyResolver.GeneratedFilesFailFirst | DependencyResolver/DependencyResolverGenerator.cs:41-53 | A failing run reports the exception of the first candidate that fails; every earlier candidate's generation ends and succeeds. |
| DependencyResolver.Execute | DependencyResolver/DependencyResolverGenerator.cs:29-54 | When the run ends, the run over the receiver's candidates yields `GeneratedFiles`, with the hint name computed inline. It stops at the first exception, so later candidates never run. |
| Markers.Assemble | DependencyResolver/DependencyResolverGenerator.cs:41-53 | Definition of what a run adds given each candidate's outcome: one file per candidate in order, named by its hint name; the first exception ends the run. |
| Markers.RunEnds | DependencyResolver/DependencyResolverGenerator.cs:41-53 | Definition: every candidate the run reaches has an outcome, up to and including the first whose generation throws. |
| Markers.Reached | DependencyResolver/DependencyResolverGenerator.cs:41-53 | The run reaches at most all the candidates. |
| Markers.ReachedContents | DependencyResolver/DependencyResolverGenerator.cs:41-53 | Each reached outcome is its candidate's own. All but the last succeed, and the run stops short of the candidates only after an exception. |
| Markers.RunEndsWhenAllEnd | DependencyResolver/DependencyResolverGenerator.cs:41-53 | A run where every candidate's generation ends, ends. |
| Markers.RunEndsRefined | DependencyResolver/DependencyResolverGenerator.cs:41-53 | Replacing only absent outcomes of a run that ends gives a run that ends and reaches the same outcomes. |
| Markers.RunEndsOfTerminatingRun | DependencyResolver/DependencyResolverGenerator.cs:41-53 | `n` successes followed by an exception, or by the end of the candidates, make a run that ends and reaches exactly those outcomes. |
| Markers.AssembleContents | DependencyResolver/DependencyResolverGenerator.cs:41-53 | Assembling succeeds iff every outcome succeeds. Files then come in candidate order, named by hint name; otherwise the first failure is reported. |
| Markers.AssembleFiles | DependencyResolver/DependencyResolverGenerator.cs:41-52 | In a successful run every outcome succeeded, and the files are the candidates' files in order. |
| Markers.AssembleFailure | DependencyResolver/DependencyResolverGenerator.cs:41-53 | A failing run reports the first failing outcome, and every earlier one succeeded. |
| Markers.AssembleStep | DependencyResolver/DependencyResolverGenerator.cs:41-52 | One more candidate appends its file, or its exception ends the run. |
| Markers.AssemblePrefixFailure | DependencyResolver/DependencyResolverGenerator.cs:41-53 | Once some candidate fails, later candidates change nothing. |
| Strings.StringBuilder.constructor | DependencyResolver/DependencyResolverGenerator.cs:124 | A new builder is empty. |
| Strings.StringBuilder.AppendLine | DependencyResolver/DependencyResolverGenerator.cs:125 | `AppendLine` appends the line and a newline. |
| Strings.StringBuilder.AppendLines | DependencyResolver/DependencyResolverGenerator.cs:125-137 | A run of `AppendLine` calls appends `JoinLines` of the lines. |
| Strings.Join | DependencyResolver/DependencyResolverGenerator.cs:127 | Definition of `string.Join("\n", xs)`: the elements with a newline between neighbours, and `""` for no elements. |
| Strings.JoinLines | DependencyResolver/DependencyResolverGenerator.cs:124-148 | Definition: the text a `StringBuilder` holds after one `AppendLine` per line, each line followed by a newline. |
| Strings.JoinedLineIsLines | DependencyResolver/DependencyResolverGenerator.cs:127 | Appending `string.Join("\n", xs)` as one line gives the same text as appending each element as its own line, except that an empty list leaves one empty line. |
| SceneNodeResolver.SceneNodeSyntaxReceiver.constructor | SceneNodeResolver/SceneNodeResolverGenerator.cs:111-113 | A new receiver holds no candidates. |
| SceneNodeResolver.SceneNodeSyntaxReceiver.OnVisitSyntaxNode | SceneNodeResolver/SceneNodeResolverGenerator.cs:115-129 | A visited node is appended exactly when it is a class declaration meeting `IsCandidate` for `SceneNode`. |
| SceneNodeResolver.CollectCandidates | SceneNodeResolver/SceneNodeResolverGenerator.cs:113-129 | Visiting all nodes in order leaves the receiver holding the candidates, in visiting order. |
| SceneNodeResolver.Imports | SceneNodeResolver/SceneNodeResolverGenerator.cs:60-64 | Definition: `Distinct` of the file's directive texts, as written, in document order. |
| SceneNodeResolver.ImportsContents | SceneNodeResolver/SceneNodeResolverGenerator.cs:60-64 | The import block holds each directive text of the file exactly once and nothing else, in the order of first occurrence. |
| SceneNodeResolver.HeaderLines | SceneNodeResolver/SceneNodeResolverGenerator.cs:82-93 | Definition of the lines appended before the fields: the namespace line, an empty line, the ONE import line, the pragma-wrapped using, the class line and the method opening. |
| SceneNodeResolver.HeaderLinesParts | SceneNodeResolver/SceneNodeResolverGenerator.cs:82-93 | The header has 12 lines: the namespace line, the ONE import line, one pragma-wrapped extra using, the `ISceneNodeResolver` class line and the `ResolveNodes()` opening. |
| SceneNodeResolver.AssignmentLine | SceneNodeResolver/SceneNodeResolverGenerator.cs:97 | Definition: `this.<name> = this.GetNode<<type>>("<path>");` with eight spaces of indentation. |
| SceneNodeResolver.UnitLines | SceneNodeResolver/SceneNodeResolverGenerator.cs:81-102 | Definition: the header lines, one assignment line per field in order, and the closing lines. |
| SceneNodeResolver.ParseAssignmentOf | SceneNodeResolver/SceneNodeResolverGenerator.cs:97 | Every emitted `this.N = this.GetNode<T>("P");` line reads back as exactly the field it was written for, path included. |
| SceneNodeResolver.ParseUnitOf | SceneNodeResolver/SceneNodeResolverGenerator.cs:81-102 | The generated lines read back as the namespace, the class, the joined import line and exactly the fields, in order. Every fixed line is in place. |
| SceneNodeResolver.GeneratedSource | SceneNodeResolver/SceneNodeResolverGenerator.cs:54-104 | Definition of one candidate's text: the unit's lines for its own marked fields and the import block, joined with newlines; or the first exception. |
| SceneNodeResolver.GeneratedSourceContents | SceneNodeResolver/SceneNodeResolverGenerator.cs:54-104 | Generation fails iff some own marked field cannot be extracted. Otherwise the unit assigns exactly the candidate's own marked fields, in declaration order, and there is no base walk. |
| SceneNodeResolver.GenerateClass | SceneNodeResolver/SceneNodeResolverGenerator.cs:54-105 | The method returns `GeneratedSource` of the candidate. |
| SceneNodeResolver.EmitUnit | SceneNodeResolver/SceneNodeResolverGenerator.cs:81-104 | The `StringBuilder` ends up holding the unit's lines, each followed by a newline. |
| SceneNodeResolver.Sources | SceneNodeResolver/SceneNodeResolverGenerator.cs:40-45 | There is one generation outcome per candidate. |
| SceneNodeResolver.GeneratedFiles | SceneNodeResolver/SceneNodeResolverGenerator.cs:40-51 | Definition: the files a run adds, the assembly of every candidate's outcome. |
| SceneNodeResolver.GeneratedFilesContents | SceneNodeResolver/SceneNodeResolverGenerator.cs:40-51 | A run succeeds iff every candidate generates. It then adds, in order, one file per candidate named `<ns>_<class>_SceneNodeResolver.g` with its text. |
| SceneNodeResolver.GeneratedFilesFailFirst | SceneNodeResolver/SceneNodeResolverGenerator.cs:40-51 | A failing run reports the exception of the first candidate that fails. |
| SceneNodeResolver.Execute | SceneNodeResolver/SceneNodeResolverGenerator.cs:29-52 | The run over the receiver's candidates yields `GeneratedFiles`. |

## Left out

- Roslyn itself is not modelled. Parsing, `DescendantNodes`, `GetSemanticModel`, `GetSymbolInfo` and `DeclaringSyntaxReferences` become the plain values in `Syntax` and the two resolver functions in `Compilation`. A semantic model is identified by its syntax tree.
- Debug output is left out. This covers the `_debugDump` writes and the two `File.AppendAllText` calls after the walk (DependencyResolver/DependencyResolverGenerator.cs:120-121), which run on every generation even though `_debugDump` is false. They do not affect the generated text. If they throw, that failure is not modelled.
- The `classesLookedAt` list is not modelled, because only the debug output reads it.
- Host wiring is left out: `Initialize`, the `context.SyntaxReceiver` type test, `AddSource` and the UTF-8 `SourceText`. A run is modelled as the list of (hint name, text) pairs it adds. An exception ends the run with no file.
- The line terminator is fixed. `AppendLine` is modelled with a `"\n"` terminator, where .NET uses the platform's `Environment.NewLine`.
- EmitUnit (both generators): the thirteen (or twelve) header `AppendLine` calls are one `AppendLines` call over the header lines. The appended text is the same.
- The attribute and interface declaration files are not modelled. They hold no logic.
- Hint-name collisions are not modelled as behaviour. The code has no collision check; `HintNameInjective` only states when names cannot collide.
- Members other than fields are not modelled, since both generators read only field declarations. The argument text is kept as written, not as a constant value.
- DependencyResolver.GenerateClass, DependencyResolver.GatherLevels, DependencyResolver.GeneratedFiles, DependencyResolver.Execute: termination is a precondition (`Ends`, or `RunEnds` for a run, with a ghost fuel), because the C# loop does not always terminate. It runs forever exactly when no visited level throws and the walk never leaves the loop; `StayNeverHalts` and `CycleNeverHalts` state when the walk never leaves. The precondition admits every input on which the C# terminates, including a run that ends at an exception before a candidate whose loop would run forever (`RunEndsWhenGenerationsEnd`, with `RunFuelIrrelevant` showing that the fuel chosen does not matter).
- DependencyResolver.ResolveBase and DependencyResolver.GatherLevels are helper methods that split the body of `GenerateClass`, and EmitUnit splits off its `StringBuilder` part. The statements are the same and in the same order.
- Candidates need not be non-abstract. The code does not test `abstract`, so an abstract partial class with a marked field is a candidate.
