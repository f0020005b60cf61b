/** The dependency generator: candidates are partial classes with a field marked
    `[InjectDependency]`; for each one it walks the base classes, gathers the marked fields
    and the using directives of every visited file, and emits a `ResolveDependencies()`
    method that assigns each field from the scene tree's root. */
module DependencyResolver {
  import opened Wrappers
  import opened Sequences
  import opened Strings
  import opened Syntax
  import opened Markers
  import opened Emission
  import opened DependencyWalk

  const Marker: string := "InjectDependency"
  const Kind: string := "DependencyResolver"

  /* ---------------------------------------------------------------- candidates */

  /** Collects the candidate classes while the host visits the syntax nodes. */
  class DependencySyntaxReceiver {
    var candidateClasses: seq<ClassDecl>

    constructor ()
      ensures candidateClasses == []
    {
      candidateClasses := [];
    }

    method OnVisitSyntaxNode(node: SyntaxNode)
      modifies this
      ensures candidateClasses ==
        old(candidateClasses) + (if node.ClassDeclaration? && IsCandidate(node.decl, Marker) then [node.decl] else [])
    {
      if node.ClassDeclaration? {
        var classDecl := node.decl;
        if && PartialKeyword in classDecl.modifiers
           && StaticKeyword !in classDecl.modifiers
           && !ContainsSubstring(classDecl.tree.filePath, ExcludedPathSegment)
           && HasMarkedField(classDecl, Marker)
        {
          candidateClasses := candidateClasses + [classDecl];
        }
      }
    }
  }

  /** The host visits every syntax node once, in order, with a fresh receiver: the receiver
      ends up holding exactly the candidates among the nodes, in visiting order. */
  method CollectCandidates(nodes: seq<SyntaxNode>) returns (receiver: DependencySyntaxReceiver)
    ensures fresh(receiver)
    ensures receiver.candidateClasses == CandidatesOf(nodes, Marker)
  {
    receiver := new DependencySyntaxReceiver();
    for i := 0 to |nodes|
      invariant receiver.candidateClasses == CandidatesOf(nodes[..i], Marker)
    {
      assert nodes[..i + 1][..i] == nodes[..i];
      receiver.OnVisitSyntaxNode(nodes[i]);
    }
    assert nodes[..|nodes|] == nodes;
  }

  /* ---------------------------------------------------------------- usings */

  /** A using directive as `GetUsings` renders it: `using <namespace>;` with the fully
      qualified name when the directive's name binds to a namespace, its own text otherwise. */
  function RenderUsing(comp: Compilation, model: SemanticModel, u: UsingDirective): string {
    match comp.namespaceOf(model, u)
    case Some(ns) => "using " + ns + ";"
    case None => u.text
  }

  /** Every using directive of the class's file, rendered, in document order. */
  function RenderedUsings(comp: Compilation, c: ClassDecl, model: SemanticModel): seq<string> {
    seq(|c.tree.usings|, i requires 0 <= i < |c.tree.usings| => RenderUsing(comp, model, c.tree.usings[i]))
  }

  /** `GetUsings`: the rendered using directives of the class's file, without repeats. */
  function GetUsings(comp: Compilation, c: ClassDecl, model: SemanticModel): seq<string> {
    Distinct(RenderedUsings(comp, c, model))
  }

  /** Each using directive of the file contributes its rendering, once; nothing else is
      added. */
  lemma GetUsingsContents(comp: Compilation, c: ClassDecl, model: SemanticModel)
    ensures NoDuplicates(GetUsings(comp, c, model))
    ensures forall x :: x in GetUsings(comp, c, model) <==>
      exists i :: 0 <= i < |c.tree.usings| && x == RenderUsing(comp, model, c.tree.usings[i])
  {
    var rendered := RenderedUsings(comp, c, model);
    assert forall i :: 0 <= i < |c.tree.usings| ==> rendered[i] == RenderUsing(comp, model, c.tree.usings[i]);
  }

  /** The usings `GetUsings` yields for one visited state. */
  function VisitedUsings(comp: Compilation): Cursor -> seq<string> {
    (cur: Cursor) => GetUsings(comp, cur.cls, cur.model)
  }

  /** The rendered using directives of one visited state's file, repeats included. */
  function VisitedRawUsings(comp: Compilation): Cursor -> seq<string> {
    (cur: Cursor) => RenderedUsings(comp, cur.cls, cur.model)
  }

  /** What `usings.AddRange(GetUsings(currentClass, model))` adds over the visited states. */
  function ChainUsings(comp: Compilation, chain: seq<Cursor>): seq<string> {
    FlatMap(chain, VisitedUsings(comp))
  }

  /** Every rendered using directive of every visited file, in visiting order, repeats
      included. */
  function RawUsings(comp: Compilation, chain: seq<Cursor>): seq<string> {
    FlatMap(chain, VisitedRawUsings(comp))
  }

  /** The import block written into the generated file: `usings.Distinct()`, where `usings`
      starts with the candidate's own usings and then gathers every visited state's. */
  function ImportBlock(comp: Compilation, c: ClassDecl, chain: seq<Cursor>): seq<string> {
    Distinct(GetUsings(comp, c, c.tree) + ChainUsings(comp, chain))
  }

  /** Deduplicating per file and then over the whole list gives the same as deduplicating
      the raw list once. */
  lemma {:induction false} ChainUsingsDistinct(comp: Compilation, chain: seq<Cursor>)
    ensures Distinct(ChainUsings(comp, chain)) == Distinct(RawUsings(comp, chain))
  {
    if chain != [] {
      var init, last := chain[..|chain| - 1], chain[|chain| - 1];
      var a, b := ChainUsings(comp, init), RawUsings(comp, init);
      var raw := RenderedUsings(comp, last.cls, last.model);
      assert ChainUsings(comp, chain) == a + Distinct(raw);
      assert RawUsings(comp, chain) == b + raw;
      ChainUsingsDistinct(comp, init);
      AddNewAppend([], a, Distinct(raw));
      AddNewDistinct(Distinct(a), raw);
      AddNewAppend([], b, raw);
    }
  }

  /** The import block of a walk that starts at the candidate holds every using line of
      every visited file exactly once, nothing else, and in the order of first occurrence:
      gathering the candidate's file twice makes no difference. */
  lemma ImportBlockOfWalk(comp: Compilation, c: ClassDecl, chain: seq<Cursor>)
    requires chain != [] && chain[0] == Start(c)
    ensures ImportBlock(comp, c, chain) == Distinct(RawUsings(comp, chain))
    ensures NoDuplicates(ImportBlock(comp, c, chain))
    ensures forall x :: x in ImportBlock(comp, c, chain) <==> x in RawUsings(comp, chain)
    ensures forall i, j :: 0 <= i < j < |ImportBlock(comp, c, chain)| ==>
      IndexOf(RawUsings(comp, chain), ImportBlock(comp, c, chain)[i])
        < IndexOf(RawUsings(comp, chain), ImportBlock(comp, c, chain)[j])
  {
    var own := GetUsings(comp, c, c.tree);
    var rest := chain[1..];
    assert chain == [chain[0]] + rest;
    FlatMapCons(chain[0], rest, VisitedUsings(comp));
    assert ChainUsings(comp, chain) == own + ChainUsings(comp, rest);
    assert own + ChainUsings(comp, chain) == own + own + ChainUsings(comp, rest);
    DistinctRepeated(own, ChainUsings(comp, rest));
    ChainUsingsDistinct(comp, chain);
    forall i, j | 0 <= i < j < |ImportBlock(comp, c, chain)|
      ensures IndexOf(RawUsings(comp, chain), ImportBlock(comp, c, chain)[i])
            < IndexOf(RawUsings(comp, chain), ImportBlock(comp, c, chain)[j])
    {
      DistinctKeepsFirstOccurrenceOrder(RawUsings(comp, chain), i, j);
    }
  }

  /** Re-deduplicating the import block changes nothing. */
  lemma ImportBlockStable(comp: Compilation, c: ClassDecl, chain: seq<Cursor>)
    ensures Distinct(ImportBlock(comp, c, chain)) == ImportBlock(comp, c, chain)
  {
    DistinctIdempotent(GetUsings(comp, c, c.tree) + ChainUsings(comp, chain));
  }

  /* ---------------------------------------------------------------- fields */

  /** One visited level's marked fields (the `classFields` of one iteration). */
  function LevelFields(cur: Cursor): Result<seq<FieldInfo>, GenError> {
    MarkedFields(cur.cls.fields, Marker)
  }

  /** `fields.AddRange(classFields)` over the visited states: every level's marked fields, in
      visiting order, or the first exception raised. */
  function ChainFields(chain: seq<Cursor>): Result<seq<FieldInfo>, GenError> {
    TryFlatMap(chain, LevelFields)
  }

  /** The collected fields of a walk are, level by level from the derived class down to the
      base, each level's marked fields in declaration order. */
  lemma ChainFieldsLevels(chain: seq<Cursor>, j: nat)
    requires ChainFields(chain).Success? && j < |chain|
    ensures ChainFields(chain[..j]).Success? && ChainFields(chain[j + 1..]).Success?
    ensures MarkedFields(chain[j].cls.fields, Marker).Success?
    ensures ChainFields(chain).value ==
      ChainFields(chain[..j]).value + MarkedFields(chain[j].cls.fields, Marker).value + ChainFields(chain[j + 1..]).value
  {
    TryFlatMapSplit(chain, LevelFields, j);
  }

  /** A failing walk reports the exception of the first level whose fields cannot be
      extracted; all levels before it extract. */
  lemma ChainFieldsFailFirst(chain: seq<Cursor>)
    requires ChainFields(chain).Failure?
    ensures exists j ::
      && 0 <= j < |chain|
      && MarkedFields(chain[j].cls.fields, Marker) == Failure(ChainFields(chain).error)
      && forall i :: 0 <= i < j ==> MarkedFields(chain[i].cls.fields, Marker).Success?
  {
    TryFlatMapFailFirst(chain, LevelFields);
  }

  /* ---------------------------------------------------------------- the loop */

  /** The states the `while (currentClass != null)` loop visits, in order, when it ends within
      `fuel` iterations: it ends after a state whose fields throw, or whose base step leaves
      the loop. `None` when it does not end within `fuel` iterations. */
  function Levels(comp: Compilation, cur: Cursor, fuel: nat): (w: Option<seq<Cursor>>)
    ensures w.Some? ==> 1 <= |w.value| <= fuel && w.value[0] == cur
    decreases fuel
  {
    if fuel == 0 then None
    else if LevelFields(cur).Failure? || NextStep(comp, cur).Stop? then Some([cur])
    else
      match Levels(comp, Successor(comp, cur), fuel - 1)
      case None => None
      case Some(rest) => Some([cur] + rest)
  }

  /** The loop started in `cur` ends within `fuel` iterations, normally or with an exception. */
  predicate Ends(comp: Compilation, cur: Cursor, fuel: nat) {
    Levels(comp, cur, fuel).Some?
  }

  /** Every visited state but the last extracts its fields and moves on to its successor; the
      last one throws or leaves the loop. */
  lemma {:induction false} LevelsShape(comp: Compilation, cur: Cursor, fuel: nat)
    requires Ends(comp, cur, fuel)
    ensures var w := Levels(comp, cur, fuel).value;
      && (LevelFields(w[|w| - 1]).Failure? || NextStep(comp, w[|w| - 1]).Stop?)
      && forall k :: 0 <= k < |w| - 1 ==>
        && LevelFields(w[k]).Success? && !NextStep(comp, w[k]).Stop?
        && w[k + 1] == Successor(comp, w[k])
    decreases fuel
  {
    var w := Levels(comp, cur, fuel).value;
    if !(LevelFields(cur).Failure? || NextStep(comp, cur).Stop?) {
      var next := Successor(comp, cur);
      LevelsShape(comp, next, fuel - 1);
      var rest := Levels(comp, next, fuel - 1).value;
      assert w == [cur] + rest;
      assert forall k :: 1 <= k < |w| ==> w[k] == rest[k - 1];
    }
  }

  /** One iteration along the loop: the `k`-th state ends the loop exactly when it is the
      last one, and otherwise the next state is its successor. */
  lemma LevelsStep(comp: Compilation, cur: Cursor, fuel: nat, k: nat)
    requires Ends(comp, cur, fuel) && k < |Levels(comp, cur, fuel).value|
    ensures var w := Levels(comp, cur, fuel).value;
      && ((LevelFields(w[k]).Failure? || NextStep(comp, w[k]).Stop?) <==> k == |w| - 1)
      && (k < |w| - 1 ==> w[k + 1] == Successor(comp, w[k]))
  {
    LevelsShape(comp, cur, fuel);
  }

  /** When the walk halts the loop ends too, having visited a prefix of the walk: all of it,
      or the states up to the first one whose fields throw. */
  lemma {:induction false} LevelsOfHalting(comp: Compilation, cur: Cursor, fuel: nat)
    requires Halts(comp, cur, fuel)
    ensures Ends(comp, cur, fuel)
    ensures var w, l := Walk(comp, cur, fuel).value, Levels(comp, cur, fuel).value;
      && |l| <= |w| && l == w[..|l|]
      && (l == w || LevelFields(l[|l| - 1]).Failure?)
    decreases fuel
  {
    var w := Walk(comp, cur, fuel).value;
    if !(LevelFields(cur).Failure? || NextStep(comp, cur).Stop?) {
      var next := Successor(comp, cur);
      LevelsOfHalting(comp, next, fuel - 1);
      var w', l' := Walk(comp, next, fuel - 1).value, Levels(comp, next, fuel - 1).value;
      assert w == [cur] + w';
      assert Levels(comp, cur, fuel).value == [cur] + l';
      assert w[..|l'| + 1] == [cur] + w'[..|l'|];
    } else {
      assert w[..1] == [cur];
    }
  }

  /** A loop that ends without an exception has visited exactly the walk, which halts. */
  lemma {:induction false} LevelsIsWalk(comp: Compilation, cur: Cursor, fuel: nat)
    requires Ends(comp, cur, fuel)
    requires var l := Levels(comp, cur, fuel).value; LevelFields(l[|l| - 1]).Success?
    ensures Halts(comp, cur, fuel) && Walk(comp, cur, fuel) == Levels(comp, cur, fuel)
    decreases fuel
  {
    if !(LevelFields(cur).Failure? || NextStep(comp, cur).Stop?) {
      var next := Successor(comp, cur);
      var rest := Levels(comp, next, fuel - 1).value;
      assert Levels(comp, cur, fuel).value == [cur] + rest;
      assert rest[|rest| - 1] == ([cur] + rest)[|rest|];
      LevelsIsWalk(comp, next, fuel - 1);
    }
  }

  /** More fuel does not change the states of a loop that already ends. */
  lemma {:induction false} LevelsFuelIrrelevant(comp: Compilation, cur: Cursor, fuel: nat, more: nat)
    requires Ends(comp, cur, fuel) && fuel <= more
    ensures Levels(comp, cur, more) == Levels(comp, cur, fuel)
    decreases fuel
  {
    if !(LevelFields(cur).Failure? || NextStep(comp, cur).Stop?) {
      LevelsFuelIrrelevant(comp, Successor(comp, cur), fuel - 1, more - 1);
    }
  }

  /* ---------------------------------------------------------------- emission */

  /** What an assignment line says between the field name and the type, and after the type. */
  const TypeHead: string := " = GetTree().Root.GetChildren().OfType<"
  const TypeTail: string := ">().FirstOrDefault();"

  /** The statement emitted for one field: the node path plays no part. */
  function AssignmentLine(f: FieldInfo): string {
    AssignPrefix + f.name + TypeHead + f.typeText + TypeTail
  }

  function AssignmentLines(fields: seq<FieldInfo>): seq<string> {
    Map(fields, AssignmentLine)
  }

  lemma AssignmentLinesSnoc(fields: seq<FieldInfo>, i: nat)
    requires i < |fields|
    ensures AssignmentLines(fields[..i + 1]) == AssignmentLines(fields[..i]) + [AssignmentLine(fields[i])]
  {
  }

  /** The pragma-wrapped usings the generated code itself needs. */
  const ExtraUsingLines: seq<string> := [
    "#pragma warning disable CS0105 // Disable warning about redundant using directive",
    "using Codartesien.SourceGenerators.DependencyResolver;",
    "using System.Linq;",
    "#pragma warning restore CS0105" ]

  function ClassLine(className: string): string {
    "public partial class " + className + " : IDependencyResolver"
  }

  const MethodOpenLines: seq<string> := [
    "{",
    "#pragma warning disable CS0109 // Disable warning about redundant 'new' keyword",
    "    public new void ResolveDependencies()",
    "    {" ]

  /** The lines appended before the field assignments: the import block is ONE line, the
      `string.Join("\n", ...)` of the distinct usings. */
  function HeaderLines(namespaceName: string, className: string, imports: seq<string>): seq<string> {
    [NamespaceLine(namespaceName), "", Join(imports)] + ExtraUsingLines + ["", ClassLine(className)] + MethodOpenLines
  }

  /** The lines of the generated unit, one per `AppendLine` call. */
  function UnitLines(namespaceName: string, className: string, imports: seq<string>, fields: seq<FieldInfo>): seq<string> {
    HeaderLines(namespaceName, className, imports) + AssignmentLines(fields) + FooterLines
  }

  /** The node path never reaches the output: fields that agree on names and types give
      the same unit. */
  lemma UnitLinesIgnorePaths(namespaceName: string, className: string, imports: seq<string>, fields: seq<FieldInfo>, others: seq<FieldInfo>)
    requires |fields| == |others|
    requires forall i :: 0 <= i < |fields| ==> fields[i].name == others[i].name && fields[i].typeText == others[i].typeText
    ensures UnitLines(namespaceName, className, imports, fields) == UnitLines(namespaceName, className, imports, others)
  {
    forall i | 0 <= i < |fields| ensures AssignmentLines(fields)[i] == AssignmentLines(others)[i] {
      assert AssignmentLine(fields[i]) == AssignmentLine(others[i]);
    }
    assert AssignmentLines(fields) == AssignmentLines(others);
  }

  lemma HeaderLinesParts(namespaceName: string, className: string, imports: seq<string>)
    ensures var header := HeaderLines(namespaceName, className, imports);
      && |header| == 13
      && header[0] == NamespaceLine(namespaceName) && header[1] == "" && header[2] == Join(imports)
      && header[3..7] == ExtraUsingLines && header[7] == "" && header[8] == ClassLine(className)
      && header[9..13] == MethodOpenLines
  {
    var header := HeaderLines(namespaceName, className, imports);
    var front := [NamespaceLine(namespaceName), "", Join(imports)] + ExtraUsingLines;
    var upToClass := front + ["", ClassLine(className)];
    assert header == upToClass + MethodOpenLines;
    assert |front| == 7 && front[3..7] == ExtraUsingLines;
    assert header[..7] == front && header[7..9] == ["", ClassLine(className)] && header[9..] == MethodOpenLines;
  }

  /** What an assignment line says: the field assigned and the type looked up. */
  datatype Assignment = Assignment(name: string, typeText: string)

  function AssignmentOf(f: FieldInfo): Assignment {
    Assignment(f.name, f.typeText)
  }

  /** Reads an emitted assignment line back. */
  function ParseAssignment(line: string): Option<Assignment> {
    var target :- SplitTarget(line);
    var typeText :- Between(target.1, TypeHead, TypeTail);
    Some(Assignment(target.0, typeText))
  }

  /** Every emitted assignment reads back as the field's name and type, as long as the name
      has no blank (a C# identifier never has one). */
  lemma ParseAssignmentOf(f: FieldInfo)
    requires ' ' !in f.name
    ensures ParseAssignment(AssignmentLine(f)) == Some(AssignmentOf(f))
  {
    var rest := TypeHead + f.typeText + TypeTail;
    AppendAssoc(AssignPrefix + f.name, TypeHead, f.typeText);
    AppendAssoc(AssignPrefix + f.name, TypeHead + f.typeText, TypeTail);
    assert AssignmentLine(f) == AssignPrefix + f.name + rest;
    SplitTargetOf(f.name, rest);
    BetweenOf(TypeHead, f.typeText, TypeTail);
  }

  /** What a generated unit says: its namespace, its class, its import line and its
      assignments in order. */
  datatype ParsedUnit = ParsedUnit(namespaceName: string, className: string, importLine: string, assignments: seq<Assignment>)

  /** Reads a generated unit back from its lines, checking every fixed line. */
  function ParseUnit(lines: seq<string>): Option<ParsedUnit> {
    if |lines| < 16 then None
    else
      var namespaceName :- ParseNamespaceLine(lines[0]);
      var className :- Between(lines[8], "public partial class ", " : IDependencyResolver");
      var assignments :- ParseLines(lines[13..|lines| - 3], ParseAssignment);
      if && lines[1] == ""
         && lines[3..7] == ExtraUsingLines
         && lines[7] == ""
         && lines[9..13] == MethodOpenLines
         && lines[|lines| - 3..] == FooterLines
      then Some(ParsedUnit(namespaceName, className, lines[2], assignments))
      else None
  }

  /** The generated unit reads back as exactly what it was built from: the namespace, the
      class, the import block joined into one line, and one assignment per field, in order. */
  lemma ParseUnitOf(namespaceName: string, className: string, imports: seq<string>, fields: seq<FieldInfo>)
    requires forall i :: 0 <= i < |fields| ==> ' ' !in fields[i].name
    ensures ParseUnit(UnitLines(namespaceName, className, imports, fields))
      == Some(ParsedUnit(namespaceName, className, Join(imports), Map(fields, AssignmentOf)))
  {
    var header := HeaderLines(namespaceName, className, imports);
    var body := AssignmentLines(fields);
    var lines := UnitLines(namespaceName, className, imports, fields);
    HeaderLinesParts(namespaceName, className, imports);
    SliceParts(header, body, FooterLines);
    assert lines[..13] == header && lines[13..|lines| - 3] == body && lines[|lines| - 3..] == FooterLines;
    assert lines[3..7] == header[3..7] && lines[9..13] == header[9..13];
    ParseNamespaceLineOf(namespaceName);
    BetweenOf("public partial class ", className, " : IDependencyResolver");
    forall i | 0 <= i < |fields| ensures ParseAssignment(AssignmentLine(fields[i])) == Some(AssignmentOf(fields[i])) {
      ParseAssignmentOf(fields[i]);
    }
    ParseLinesOf(fields, AssignmentLine, ParseAssignment, AssignmentOf);
  }

  /** What the base-class loop gathers: the using lines (the candidate's own, then those of
      every visited state) and the marked fields of every visited state, or the first
      exception raised. */
  datatype Gathered = Gathered(usings: seq<string>, fields: seq<FieldInfo>)

  function GatheredOf(comp: Compilation, c: ClassDecl, fuel: nat): Result<Gathered, GenError>
    requires Ends(comp, Start(c), fuel)
  {
    var chain := Levels(comp, Start(c), fuel).value;
    var fields :- ChainFields(chain);
    Success(Gathered(GetUsings(comp, c, c.tree) + ChainUsings(comp, chain), fields))
  }

  /** The text `GenerateClass` returns for a candidate whose loop ends within `fuel`
      iterations, or the exception it raises. */
  function GeneratedSource(comp: Compilation, c: ClassDecl, fuel: nat): Result<string, GenError>
    requires Ends(comp, Start(c), fuel)
  {
    var gathered :- GatheredOf(comp, c, fuel);
    Success(JoinLines(UnitLines(NamespaceName(c), c.identifier, Distinct(gathered.usings), gathered.fields)))
  }

  /** Generation fails exactly when some visited level's fields cannot be extracted, with
      that exception; otherwise the generated unit imports every using line of every visited
      file once, in order of first occurrence, and assigns every visited level's marked
      fields in visiting order. */
  lemma GeneratedSourceOfWalk(comp: Compilation, c: ClassDecl, fuel: nat)
    requires Halts(comp, Start(c), fuel)
    ensures Ends(comp, Start(c), fuel)
    ensures var chain := Walk(comp, Start(c), fuel).value;
      && (GeneratedSource(comp, c, fuel).Success? <==> ChainFields(chain).Success?)
      && (GeneratedSource(comp, c, fuel).Failure? ==> GeneratedSource(comp, c, fuel).error == ChainFields(chain).error)
      && (GeneratedSource(comp, c, fuel).Success? ==>
            GeneratedSource(comp, c, fuel).value
              == JoinLines(UnitLines(NamespaceName(c), c.identifier, Distinct(RawUsings(comp, chain)), ChainFields(chain).value)))
  {
    var w := Walk(comp, Start(c), fuel).value;
    LevelsOfHalting(comp, Start(c), fuel);
    var l := Levels(comp, Start(c), fuel).value;
    if l == w {
      ImportBlockOfWalk(comp, c, w);
    } else {
      assert ChainFields(l).Failure?;
      TryFlatMapPrefixFailure(w, |l|, LevelFields);
    }
  }

  /** Generation by a loop that ends fails exactly when the last visited state's fields
      throw, with that exception; when it succeeds, the walk halts and the loop visited all
      of it. */
  lemma GeneratedSourceOfLoop(comp: Compilation, c: ClassDecl, fuel: nat)
    requires Ends(comp, Start(c), fuel)
    ensures var l := Levels(comp, Start(c), fuel).value;
      && (GeneratedSource(comp, c, fuel).Failure? <==> LevelFields(l[|l| - 1]).Failure?)
      && (GeneratedSource(comp, c, fuel).Failure? ==>
            GeneratedSource(comp, c, fuel).error == LevelFields(l[|l| - 1]).error)
    ensures GeneratedSource(comp, c, fuel).Success? ==>
      Halts(comp, Start(c), fuel) && Walk(comp, Start(c), fuel) == Levels(comp, Start(c), fuel)
  {
    var l := Levels(comp, Start(c), fuel).value;
    var n := |l| - 1;
    LevelsShape(comp, Start(c), fuel);
    if ChainFields(l[..n]).Failure? {
      TryFlatMapFailFirst(l[..n], LevelFields);
      assert false;
    }
    if LevelFields(l[n]).Success? {
      LevelsIsWalk(comp, Start(c), fuel);
    }
  }

  /** A candidate whose own fields throw ends on the first iteration with that exception,
      before the base step: even when its base type does not resolve to a named type and the
      walk would never halt. */
  lemma FailingLevelEndsBeforeWalk(comp: Compilation, c: ClassDecl)
    requires LevelFields(Start(c)).Failure?
    ensures Ends(comp, Start(c), 1)
    ensures GeneratedSource(comp, c, 1) == Failure(LevelFields(Start(c)).error)
    ensures NextStep(comp, Start(c)).Stay? ==> forall fuel: nat :: !Halts(comp, Start(c), fuel)
  {
    TryFlatMapSingle(Start(c), LevelFields);
    if NextStep(comp, Start(c)).Stay? {
      forall fuel: nat ensures !Halts(comp, Start(c), fuel) {
        StayNeverHalts(comp, Start(c), fuel);
      }
    }
  }

  /** More fuel does not change what generating for a candidate yields once its loop ends. */
  lemma GeneratedSourceFuelIrrelevant(comp: Compilation, c: ClassDecl, fuel: nat, more: nat)
    requires Ends(comp, Start(c), fuel) && fuel <= more
    ensures Ends(comp, Start(c), more)
    ensures GeneratedSource(comp, c, more) == GeneratedSource(comp, c, fuel)
  {
    LevelsFuelIrrelevant(comp, Start(c), fuel, more);
  }

  /** One iteration's base-class step (`BaseList?.Types.FirstOrDefault()`, the symbol lookup
      and `DeclaringSyntaxReferences.FirstOrDefault()`): the class to look at next and the
      semantic model to use for it. */
  method ResolveBase(comp: Compilation, current: ClassDecl, model: SemanticModel)
    returns (next: Option<ClassDecl>, nextModel: SemanticModel)
    ensures NextStep(comp, Cursor(current, model)).Stop? <==> next.None?
    ensures next.Some? ==> Cursor(next.value, nextModel) == Successor(comp, Cursor(current, model))
  {
    next, nextModel := Some(current), model;
    var baseType := FirstBaseType(current);
    if baseType.Some? {
      var baseSymbol := comp.symbolOf(model, baseType.value);
      if baseSymbol.NamedType? {
        var refs := baseSymbol.declaringSyntaxReferences;
        if refs != [] {
          var parentSyntaxRef := refs[0];
          next := if parentSyntaxRef.node.ClassDeclaration? then Some(parentSyntaxRef.node.decl) else None;
          nextModel := parentSyntaxRef.tree;
        } else {
          next := None;
        }
      }
      // A base type that is not a named type leaves the class as it is.
    } else {
      next := None;
    }
  }

  /** The `while (currentClass != null)` loop of `GenerateClass`: it visits exactly the
      states of the loop trace, gathering usings and fields level by level, and stops at the
      first level whose fields throw. */
  method GatherLevels(comp: Compilation, classNode: ClassDecl, ghost fuel: nat) returns (r: Result<Gathered, GenError>)
    requires Ends(comp, Start(classNode), fuel)
    ensures r == GatheredOf(comp, classNode, fuel)
  {
    var model := classNode.tree;
    var usings := GetUsings(comp, classNode, model);
    var fields: seq<FieldInfo> := [];

    ghost var chain := Levels(comp, Start(classNode), fuel).value;
    ghost var k := 0;
    var currentClass: Option<ClassDecl> := Some(classNode);
    while currentClass.Some?
      invariant k <= |chain|
      invariant currentClass.Some? <==> k < |chain|
      invariant currentClass.Some? ==> chain[k] == Cursor(currentClass.value, model)
      invariant ChainFields(chain[..k]) == Success(fields)
      invariant usings == GetUsings(comp, classNode, classNode.tree) + ChainUsings(comp, chain[..k])
      decreases |chain| - k
    {
      var current := currentClass.value;
      LevelsStep(comp, Start(classNode), fuel, k);
      TakeSnoc(chain, k);
      FlatMapSnoc(chain[..k], chain[k], VisitedUsings(comp));
      AppendAssoc(GetUsings(comp, classNode, classNode.tree), ChainUsings(comp, chain[..k]), GetUsings(comp, current, model));
      usings := usings + GetUsings(comp, current, model);

      var classFields := MarkedFields(current.fields, Marker);
      TryFlatMapAppend(chain[..k], [chain[k]], LevelFields);
      TryFlatMapSingle(chain[k], LevelFields);
      if classFields.Failure? {
        TakeAll(chain);
        return Failure(classFields.error);
      }
      fields := fields + classFields.value;

      currentClass, model := ResolveBase(comp, current, model);
      k := k + 1;
    }
    TakeAll(chain);
    r := Success(Gathered(usings, fields));
  }

  /** The generator for one candidate. Termination is a precondition: the loop must end,
      normally or with an exception, within some number of iterations (`fuel`, which only
      the proof uses). */
  method GenerateClass(comp: Compilation, classNode: ClassDecl, ghost fuel: nat) returns (r: Result<string, GenError>)
    requires Ends(comp, Start(classNode), fuel)
    ensures r == GeneratedSource(comp, classNode, fuel)
  {
    var namespaceName := NamespaceName(classNode);
    var className := classNode.identifier;
    var gathered :- GatherLevels(comp, classNode, fuel);
    var sourceCode := EmitUnit(namespaceName, className, Distinct(gathered.usings), gathered.fields);
    r := Success(sourceCode);
  }

  /** The `StringBuilder` part of `GenerateClass`: the fixed header with the import block,
      one assignment per field in order, and the fixed footer. */
  method EmitUnit(namespaceName: string, className: string, imports: seq<string>, fields: seq<FieldInfo>)
    returns (text: string)
    ensures text == JoinLines(UnitLines(namespaceName, className, imports, fields))
  {
    var header := HeaderLines(namespaceName, className, imports);
    var sb := new StringBuilder();
    sb.AppendLines(header);
    assert AssignmentLines(fields[..0]) == [];
    AppendEmpty(JoinLines(header));
    for i := 0 to |fields|
      invariant sb.text == JoinLines(header) + JoinLines(AssignmentLines(fields[..i]))
    {
      AssignmentLinesSnoc(fields, i);
      var done, line := JoinLines(AssignmentLines(fields[..i])), AssignmentLine(fields[i]);
      JoinLinesSnoc(AssignmentLines(fields[..i]), line);
      AppendAssoc(JoinLines(header), done, line);
      AppendAssoc(JoinLines(header), done + line, "\n");
      sb.AppendLine(line);
    }
    TakeAll(fields);
    JoinLinesAppend(header, AssignmentLines(fields));
    JoinLinesAppend(header + AssignmentLines(fields), FooterLines);
    sb.AppendLines(FooterLines);
    text := sb.text;
  }

  /** What generating for `c` yields, or `None` when its loop does not end within `fuel`
      iterations. */
  function Outcome(comp: Compilation, c: ClassDecl, fuel: nat): Option<Result<string, GenError>> {
    if Ends(comp, Start(c), fuel) then Some(GeneratedSource(comp, c, fuel)) else None
  }

  /** Each candidate's outcome, in order. */
  function Outcomes(comp: Compilation, cands: seq<ClassDecl>, fuel: nat): (r: seq<Option<Result<string, GenError>>>)
    ensures |r| == |cands|
  {
    seq(|cands|, i requires 0 <= i < |cands| => Outcome(comp, cands[i], fuel))
  }

  /** When every candidate's walk halts, the run ends. */
  lemma RunEndsWhenWalksHalt(comp: Compilation, cands: seq<ClassDecl>, fuel: nat)
    requires forall i :: 0 <= i < |cands| ==> Halts(comp, Start(cands[i]), fuel)
    ensures RunEnds(Outcomes(comp, cands, fuel))
  {
    forall i | 0 <= i < |cands| ensures Outcomes(comp, cands, fuel)[i].Some? {
      LevelsOfHalting(comp, Start(cands[i]), fuel);
    }
    RunEndsWhenAllEnd(Outcomes(comp, cands, fuel));
  }

  /** What a run over the candidates `cands` adds, when it ends. */
  function GeneratedFiles(comp: Compilation, cands: seq<ClassDecl>, fuel: nat): Result<seq<GeneratedFile>, GenError>
    requires RunEnds(Outcomes(comp, cands, fuel))
  {
    var sources := Reached(Outcomes(comp, cands, fuel));
    Assemble(cands[..|sources|], sources, Kind)
  }

  /** More fuel does not change a run that already ends: it still ends, reaches the same
      outcomes and adds the same files. */
  lemma RunFuelIrrelevant(comp: Compilation, cands: seq<ClassDecl>, fuel: nat, more: nat)
    requires RunEnds(Outcomes(comp, cands, fuel)) && fuel <= more
    ensures RunEnds(Outcomes(comp, cands, more))
    ensures Reached(Outcomes(comp, cands, more)) == Reached(Outcomes(comp, cands, fuel))
    ensures GeneratedFiles(comp, cands, more) == GeneratedFiles(comp, cands, fuel)
  {
    var outcomes, moreOutcomes := Outcomes(comp, cands, fuel), Outcomes(comp, cands, more);
    forall i | 0 <= i < |outcomes| && outcomes[i].Some?
      ensures moreOutcomes[i] == outcomes[i]
    {
      assert outcomes[i] == Outcome(comp, cands[i], fuel);
      assert moreOutcomes[i] == Outcome(comp, cands[i], more);
      GeneratedSourceFuelIrrelevant(comp, cands[i], fuel, more);
    }
    RunEndsRefined(outcomes, moreOutcomes);
  }

  /** Every run on which the C# code returns ends under the precondition: if the first `n`
      candidates' generations end (each within its own fuel) and succeed, and the next one,
      if any, ends by throwing, then the run ends with any fuel `max` that covers them all,
      and each of those candidates keeps its outcome. */
  lemma RunEndsWhenGenerationsEnd(comp: Compilation, cands: seq<ClassDecl>, fuels: seq<nat>, n: nat, max: nat)
    requires |fuels| == |cands| && n <= |cands|
    requires forall i :: 0 <= i < |cands| ==> fuels[i] <= max
    requires forall i :: 0 <= i < n ==>
      Ends(comp, Start(cands[i]), fuels[i]) && GeneratedSource(comp, cands[i], fuels[i]).Success?
    requires n < |cands| ==>
      Ends(comp, Start(cands[n]), fuels[n]) && GeneratedSource(comp, cands[n], fuels[n]).Failure?
    ensures RunEnds(Outcomes(comp, cands, max))
    ensures |Reached(Outcomes(comp, cands, max))| == if n < |cands| then n + 1 else n
    ensures forall i :: 0 <= i < |Reached(Outcomes(comp, cands, max))| ==>
      Ends(comp, Start(cands[i]), fuels[i])
      && Reached(Outcomes(comp, cands, max))[i] == GeneratedSource(comp, cands[i], fuels[i])
  {
    OutcomesWithEnoughFuel(comp, cands, fuels, n, max);
    RunEndsOfTerminatingRun(Outcomes(comp, cands, max), n);
  }

  /** With a fuel that covers the first `n` candidates' and the next one's own, those
      candidates keep their outcomes: `n` successes and, if there is a next one, its
      exception. */
  lemma OutcomesWithEnoughFuel(comp: Compilation, cands: seq<ClassDecl>, fuels: seq<nat>, n: nat, max: nat)
    requires |fuels| == |cands| && n <= |cands|
    requires forall i :: 0 <= i < |cands| ==> fuels[i] <= max
    requires forall i :: 0 <= i < n ==>
      Ends(comp, Start(cands[i]), fuels[i]) && GeneratedSource(comp, cands[i], fuels[i]).Success?
    requires n < |cands| ==>
      Ends(comp, Start(cands[n]), fuels[n]) && GeneratedSource(comp, cands[n], fuels[n]).Failure?
    ensures forall i :: 0 <= i < n ==>
      Outcomes(comp, cands, max)[i].Some? && Outcomes(comp, cands, max)[i].value.Success?
    ensures n < |cands| ==>
      Outcomes(comp, cands, max)[n].Some? && Outcomes(comp, cands, max)[n].value.Failure?
    ensures forall i :: 0 <= i < |cands| && i <= n ==>
      Ends(comp, Start(cands[i]), fuels[i])
      && Outcomes(comp, cands, max)[i] == Some(GeneratedSource(comp, cands[i], fuels[i]))
  {
    forall i | 0 <= i < |cands| && i <= n
      ensures Ends(comp, Start(cands[i]), fuels[i])
      ensures Outcomes(comp, cands, max)[i] == Some(GeneratedSource(comp, cands[i], fuels[i]))
    {
      assert Outcomes(comp, cands, max)[i] == Outcome(comp, cands[i], max);
      GeneratedSourceFuelIrrelevant(comp, cands[i], fuels[i], max);
    }
  }

  /** A candidate that throws ends the run with its exception, whatever the candidates after
      it would do. */
  lemma FailingCandidateEndsRun(comp: Compilation, c: ClassDecl, rest: seq<ClassDecl>, fuel: nat)
    requires Ends(comp, Start(c), fuel) && GeneratedSource(comp, c, fuel).Failure?
    ensures RunEnds(Outcomes(comp, [c] + rest, fuel))
    ensures GeneratedFiles(comp, [c] + rest, fuel) == Failure(GeneratedSource(comp, c, fuel).error)
  {
    var cands := [c] + rest;
    var outcomes := Outcomes(comp, cands, fuel);
    var sources := [GeneratedSource(comp, c, fuel)];
    assert outcomes[0] == Some(GeneratedSource(comp, c, fuel));
    assert Reached(outcomes) == sources;
    assert cands[..1] == [c] && [c][..0] == [] && sources[..0] == [];
    assert Assemble([c][..0], sources[..0], Kind) == Success([]);
    assert Assemble([c], sources, Kind) == Failure(GeneratedSource(comp, c, fuel).error);
  }

  /** What the run reaches, stated without the outcomes: the sources produced before the
      run stops, each the generated source of its candidate, all but the last successful, and
      fewer than the candidates only after an exception. */
  lemma RunPlan(comp: Compilation, cands: seq<ClassDecl>, fuel: nat)
    returns (sources: seq<Result<string, GenError>>)
    requires RunEnds(Outcomes(comp, cands, fuel))
    ensures |sources| <= |cands|
    ensures GeneratedFiles(comp, cands, fuel) == Assemble(cands[..|sources|], sources, Kind)
    ensures forall j :: 0 <= j < |sources| - 1 ==> sources[j].Success?
    ensures |sources| < |cands| ==> |sources| > 0 && sources[|sources| - 1].Failure?
    ensures forall j :: 0 <= j < |sources| ==>
      Ends(comp, Start(cands[j]), fuel) && sources[j] == GeneratedSource(comp, cands[j], fuel)
  {
    var outcomes := Outcomes(comp, cands, fuel);
    sources := Reached(outcomes);
    ReachedContents(outcomes);
    forall j | 0 <= j < |sources|
      ensures Ends(comp, Start(cands[j]), fuel) && sources[j] == GeneratedSource(comp, cands[j], fuel)
    {
      assert outcomes[j] == Outcome(comp, cands[j], fuel);
    }
  }

  /** A run succeeds exactly when every candidate's generation ends and succeeds; it then
      holds, for each candidate in order, the file named
      `<namespace>_<class>_DependencyResolver.g` with its generated text. */
  lemma GeneratedFilesContents(comp: Compilation, cands: seq<ClassDecl>, fuel: nat)
    requires RunEnds(Outcomes(comp, cands, fuel))
    ensures GeneratedFiles(comp, cands, fuel).Success? <==>
      forall i :: 0 <= i < |cands| ==>
        Ends(comp, Start(cands[i]), fuel) && GeneratedSource(comp, cands[i], fuel).Success?
    ensures GeneratedFiles(comp, cands, fuel).Success? ==>
      && |GeneratedFiles(comp, cands, fuel).value| == |cands|
      && forall i :: 0 <= i < |cands| ==>
        && Ends(comp, Start(cands[i]), fuel) && GeneratedSource(comp, cands[i], fuel).Success?
        && GeneratedFiles(comp, cands, fuel).value[i]
             == GeneratedFile(HintName(cands[i], Kind), GeneratedSource(comp, cands[i], fuel).value)
  {
    var sources := RunPlan(comp, cands, fuel);
    var reached := cands[..|sources|];
    AssembleContents(reached, sources, Kind);
    assert forall i :: 0 <= i < |sources| ==> reached[i] == cands[i];
    if GeneratedFiles(comp, cands, fuel).Success? {
      assert |sources| == |cands|;
    } else {
      var i :| 0 <= i < |sources| && sources[i] == Failure(GeneratedFiles(comp, cands, fuel).error);
      assert !GeneratedSource(comp, cands[i], fuel).Success?;
    }
  }

  /** A failing run reports the exception of the first candidate whose generation fails; the
      candidates before it all generate. */
  lemma GeneratedFilesFailFirst(comp: Compilation, cands: seq<ClassDecl>, fuel: nat)
    requires RunEnds(Outcomes(comp, cands, fuel))
    requires GeneratedFiles(comp, cands, fuel).Failure?
    ensures exists i ::
      && 0 <= i < |cands|
      && Ends(comp, Start(cands[i]), fuel)
      && GeneratedSource(comp, cands[i], fuel) == Failure(GeneratedFiles(comp, cands, fuel).error)
      && forall j :: 0 <= j < i ==> Ends(comp, Start(cands[j]), fuel) && GeneratedSource(comp, cands[j], fuel).Success?
  {
    var sources := RunPlan(comp, cands, fuel);
    AssembleFailure(cands[..|sources|], sources, Kind);
    var i :| 0 <= i < |sources| && sources[i] == Failure(GeneratedFiles(comp, cands, fuel).error)
      && forall j :: 0 <= j < i ==> sources[j].Success?;
  }

  /** The generator's run over all collected candidates; the first exception aborts the
      run, and no file is added. */
  method Execute(comp: Compilation, receiver: DependencySyntaxReceiver, ghost fuel: nat)
    returns (r: Result<seq<GeneratedFile>, GenError>)
    requires RunEnds(Outcomes(comp, receiver.candidateClasses, fuel))
    ensures r == GeneratedFiles(comp, receiver.candidateClasses, fuel)
  {
    var candidates := receiver.candidateClasses;
    ghost var sources := RunPlan(comp, candidates, fuel);
    ghost var reached := candidates[..|sources|];
    var added: seq<GeneratedFile> := [];
    for i := 0 to |candidates|
      invariant i <= |sources|
      invariant 0 < i ==> sources[i - 1].Success?
      invariant Assemble(reached[..i], sources[..i], Kind) == Success(added)
    {
      assert i < |sources|;
      var classNode := candidates[i];
      var namespaceName := NamespaceName(classNode);
      var className := classNode.identifier;
      var uniqueHintName := namespaceName + "_" + className + "_" + Kind + ".g";
      var sourceCode := GenerateClass(comp, classNode, fuel);
      assert sources[i] == sourceCode && reached[i] == classNode;
      AssembleStep(reached, sources, Kind, i);
      if sourceCode.Failure? {
        assert i == |sources| - 1;
        TakeAll(reached);
        TakeAll(sources);
        return Failure(sourceCode.error);
      }
      added := added + [GeneratedFile(uniqueHintName, sourceCode.value)];
    }
    TakeAll(reached);
    TakeAll(sources);
    r := Success(added);
  }
}
