/** The scene-node generator: candidates are partial classes with a field marked
    `[SceneNode]`; for each one it emits a `ResolveNodes()` method that looks every marked
    field up with `GetNode<T>` at the node path given in the attribute. There is no
    base-class walk, and the using directives of the candidate's file are copied as written. */
module SceneNodeResolver {
  import opened Wrappers
  import opened Sequences
  import opened Strings
  import opened Syntax
  import opened Markers
  import opened Emission

  const Marker: string := "SceneNode"
  const Kind: string := "SceneNodeResolver"

  /* ---------------------------------------------------------------- candidates */

  /** Collects the candidate classes while the host visits the syntax nodes. */
  class SceneNodeSyntaxReceiver {
    var candidateClasses: seq<ClassDecl>

    constructor ()
      ensures candidateClasses == []
    {
      candidateClasses := [];
    }

    method OnVisitSyntaxNode(node: SyntaxNode)
      modifies this
      ensures candidateClasses ==
        old(candidateClasses) + (if node.ClassDeclaration? && IsCandidate(node.decl, Marker) then [node.decl] else [])
    {
      if node.ClassDeclaration? {
        var classDecl := node.decl;
        if && PartialKeyword in classDecl.modifiers
           && StaticKeyword !in classDecl.modifiers
           && !ContainsSubstring(classDecl.tree.filePath, ExcludedPathSegment)
           && HasMarkedField(classDecl, Marker)
        {
          candidateClasses := candidateClasses + [classDecl];
        }
      }
    }
  }

  /** The host visits every syntax node once, in order, with a fresh receiver: the receiver
      ends up holding exactly the candidates among the nodes, in visiting order. */
  method CollectCandidates(nodes: seq<SyntaxNode>) returns (receiver: SceneNodeSyntaxReceiver)
    ensures fresh(receiver)
    ensures receiver.candidateClasses == CandidatesOf(nodes, Marker)
  {
    receiver := new SceneNodeSyntaxReceiver();
    for i := 0 to |nodes|
      invariant receiver.candidateClasses == CandidatesOf(nodes[..i], Marker)
    {
      TakeSnoc(nodes, i);
      receiver.OnVisitSyntaxNode(nodes[i]);
    }
    TakeAll(nodes);
  }

  /* ---------------------------------------------------------------- usings */

  function UsingText(u: UsingDirective): string {
    u.text
  }

  /** The import block: the text of every using directive of the candidate's file, as
      written, without repeats. */
  function Imports(c: ClassDecl): seq<string> {
    Distinct(Map(c.tree.usings, UsingText))
  }

  /** Every using directive's text appears exactly once, nothing else does, and the texts
      keep the order in which they first occur in the file. */
  lemma ImportsContents(c: ClassDecl)
    ensures NoDuplicates(Imports(c))
    ensures forall x :: x in Imports(c) <==> exists k :: 0 <= k < |c.tree.usings| && c.tree.usings[k].text == x
    ensures forall i, j :: 0 <= i < j < |Imports(c)| ==>
      IndexOf(Map(c.tree.usings, UsingText), Imports(c)[i]) < IndexOf(Map(c.tree.usings, UsingText), Imports(c)[j])
  {
    var texts := Map(c.tree.usings, UsingText);
    assert forall k :: 0 <= k < |texts| ==> texts[k] == c.tree.usings[k].text;
    forall i, j | 0 <= i < j < |Imports(c)|
      ensures IndexOf(texts, Imports(c)[i]) < IndexOf(texts, Imports(c)[j])
    {
      DistinctKeepsFirstOccurrenceOrder(texts, i, j);
    }
  }

  /* ---------------------------------------------------------------- emission */

  /** What an assignment line says between the field name and the type, between the type
      and the path, and after the path. */
  const TypeHead: string := " = this.GetNode<"
  const PathHead: string := ">(\""
  const PathTail: string := "\");"

  /** The statement emitted for one field: the node path is written between quotes. */
  function AssignmentLine(f: FieldInfo): string {
    AssignPrefix + f.name + TypeHead + f.typeText + PathHead + f.nodePath + PathTail
  }

  function AssignmentLines(fields: seq<FieldInfo>): seq<string> {
    Map(fields, AssignmentLine)
  }

  lemma AssignmentLinesSnoc(fields: seq<FieldInfo>, i: nat)
    requires i < |fields|
    ensures AssignmentLines(fields[..i + 1]) == AssignmentLines(fields[..i]) + [AssignmentLine(fields[i])]
  {
  }

  /** The pragma-wrapped using the generated code itself needs. */
  const ExtraUsingLines: seq<string> := [
    "#pragma warning disable CS0105 // Disable warning about redundant using directive",
    "using Codartesien.SourceGenerators.SceneNodeResolver;",
    "#pragma warning restore CS0105" ]

  function ClassLine(className: string): string {
    "public partial class " + className + " : ISceneNodeResolver"
  }

  const MethodOpenLines: seq<string> := [
    "{",
    "#pragma warning disable CS0109 // Disable warning about redundant 'new' keyword",
    "    public new void ResolveNodes()",
    "    {" ]

  /** The lines appended before the field assignments: the import block is ONE line, the
      `string.Join("\n", ...)` of the distinct using texts. */
  function HeaderLines(namespaceName: string, className: string, imports: seq<string>): seq<string> {
    [NamespaceLine(namespaceName), "", Join(imports)] + ExtraUsingLines + ["", ClassLine(className)] + MethodOpenLines
  }

  lemma HeaderLinesParts(namespaceName: string, className: string, imports: seq<string>)
    ensures var header := HeaderLines(namespaceName, className, imports);
      && |header| == 12
      && header[0] == NamespaceLine(namespaceName) && header[1] == "" && header[2] == Join(imports)
      && header[3..6] == ExtraUsingLines && header[6] == "" && header[7] == ClassLine(className)
      && header[8..12] == MethodOpenLines
  {
    var header := HeaderLines(namespaceName, className, imports);
    var front := [NamespaceLine(namespaceName), "", Join(imports)] + ExtraUsingLines;
    var upToClass := front + ["", ClassLine(className)];
    assert header == upToClass + MethodOpenLines;
    assert |front| == 6 && front[3..6] == ExtraUsingLines;
    assert header[..6] == front && header[6..8] == ["", ClassLine(className)] && header[8..] == MethodOpenLines;
  }

  /** The lines of the generated unit, one per `AppendLine` call. */
  function UnitLines(namespaceName: string, className: string, imports: seq<string>, fields: seq<FieldInfo>): seq<string> {
    HeaderLines(namespaceName, className, imports) + AssignmentLines(fields) + FooterLines
  }

  /** Reads an emitted assignment line back into the field it was written for. */
  function ParseAssignment(line: string): Option<FieldInfo> {
    var target :- SplitTarget(line);
    var typeAndPath :- Between(target.1, TypeHead, PathTail);
    var (front, back) := SplitAtFirst(typeAndPath, '"');
    var typeText :- Between(front, "", ">(");
    if back == [] then None
    else Some(FieldInfo(typeText, target.0, back[1..]))
  }

  /** An assignment line regrouped as the parser reads it: the target, then the text between
      `TypeHead` and `PathTail`. */
  lemma AssignmentLineShape(f: FieldInfo)
    ensures AssignmentLine(f) ==
      AssignPrefix + f.name + (TypeHead + (f.typeText + ">(" + ("\"" + f.nodePath)) + PathTail)
  {
    var a, t, n := AssignPrefix + f.name, f.typeText, f.nodePath;
    assert PathHead == ">(" + "\"";
    AppendAssoc(t, ">(", "\"" + n);
    AppendAssoc(">(", "\"", n);
    AppendAssoc(t, PathHead, n);
    AppendAssoc(TypeHead, t, PathHead);
    AppendAssoc(TypeHead, t + PathHead, n);
    AppendAssoc(a, TypeHead, t);
    AppendAssoc(a, TypeHead + t, PathHead);
    AppendAssoc(a, TypeHead + t + PathHead, n);
    AppendAssoc(a, TypeHead + t + PathHead + n, PathTail);
  }

  /** The text between `TypeHead` and `PathTail` splits at its first quote into the type and
      the path, provided the type has no quote. */
  lemma TypeAndPathOf(t: string, n: string)
    requires '"' !in t
    ensures SplitAtFirst(t + ">(" + ("\"" + n), '"') == (t + ">(", "\"" + n)
    ensures Between(t + ">(", "", ">(") == Some(t)
  {
    assert '"' !in t + ">(";
    SplitAtFirstOf(t + ">(", "\"" + n, '"');
    assert "" + t == t;
    BetweenOf("", t, ">(");
  }

  /** Every emitted assignment reads back as the field it was written for, as long as the
      name has no blank and the type no quote (C# identifiers and type syntax have neither);
      the path may hold any character. */
  lemma ParseAssignmentOf(f: FieldInfo)
    requires ' ' !in f.name && '"' !in f.typeText
    ensures ParseAssignment(AssignmentLine(f)) == Some(f)
  {
    var path := "\"" + f.nodePath;
    var typeAndPath := f.typeText + ">(" + path;
    var rest := TypeHead + typeAndPath + PathTail;
    AssignmentLineShape(f);
    SplitTargetOf(f.name, rest);
    BetweenOf(TypeHead, typeAndPath, PathTail);
    TypeAndPathOf(f.typeText, f.nodePath);
    assert path[1..] == f.nodePath;
  }

  /** What a generated unit says: its namespace, its class, its import line and the fields
      it looks up, in order. */
  datatype ParsedUnit = ParsedUnit(namespaceName: string, className: string, importLine: string, fields: seq<FieldInfo>)

  /** Reads a generated unit back from its lines, checking every fixed line. */
  function ParseUnit(lines: seq<string>): Option<ParsedUnit> {
    if |lines| < 15 then None
    else
      var namespaceName :- ParseNamespaceLine(lines[0]);
      var className :- Between(lines[7], "public partial class ", " : ISceneNodeResolver");
      var fields :- ParseLines(lines[12..|lines| - 3], ParseAssignment);
      if && lines[1] == ""
         && lines[3..6] == ExtraUsingLines
         && lines[6] == ""
         && lines[8..12] == MethodOpenLines
         && lines[|lines| - 3..] == FooterLines
      then Some(ParsedUnit(namespaceName, className, lines[2], fields))
      else None
  }

  /** The generated unit reads back as exactly what it was built from: the namespace, the
      class, the import block joined into one line, and every field with its type and its
      node path, in order. */
  lemma ParseUnitOf(namespaceName: string, className: string, imports: seq<string>, fields: seq<FieldInfo>)
    requires forall i :: 0 <= i < |fields| ==> ' ' !in fields[i].name && '"' !in fields[i].typeText
    ensures ParseUnit(UnitLines(namespaceName, className, imports, fields))
      == Some(ParsedUnit(namespaceName, className, Join(imports), fields))
  {
    var header := HeaderLines(namespaceName, className, imports);
    var body := AssignmentLines(fields);
    var lines := UnitLines(namespaceName, className, imports, fields);
    HeaderLinesParts(namespaceName, className, imports);
    SliceParts(header, body, FooterLines);
    assert lines[..12] == header && lines[12..|lines| - 3] == body && lines[|lines| - 3..] == FooterLines;
    assert lines[3..6] == header[3..6] && lines[8..12] == header[8..12];
    ParseNamespaceLineOf(namespaceName);
    BetweenOf("public partial class ", className, " : ISceneNodeResolver");
    forall i | 0 <= i < |fields| ensures ParseAssignment(AssignmentLine(fields[i])) == Some(fields[i]) {
      ParseAssignmentOf(fields[i]);
    }
    ParseLinesOf(fields, AssignmentLine, ParseAssignment, (f: FieldInfo) => f);
    assert Map(fields, (f: FieldInfo) => f) == fields;
  }

  /* ---------------------------------------------------------------- one candidate */

  /** The text `GenerateClass` returns for a candidate, or the exception it raises. */
  function GeneratedSource(c: ClassDecl): Result<string, GenError> {
    var fields :- MarkedFields(c.fields, Marker);
    Success(JoinLines(UnitLines(NamespaceName(c), c.identifier, Imports(c), fields)))
  }

  /** Generation fails exactly when some marked field of the candidate cannot be extracted;
      otherwise the unit assigns exactly the candidate's own marked fields, in declaration
      order, each at its node path. */
  lemma GeneratedSourceContents(c: ClassDecl)
    ensures GeneratedSource(c).Success? <==>
      forall i :: 0 <= i < |MarkedDecls(c.fields, Marker)| ==> ExtractField(MarkedDecls(c.fields, Marker)[i], Marker).Success?
    ensures GeneratedSource(c).Failure? ==> GeneratedSource(c).error == MarkedFields(c.fields, Marker).error
    ensures GeneratedSource(c).Success? ==>
      GeneratedSource(c).value == JoinLines(UnitLines(NamespaceName(c), c.identifier, Imports(c), MarkedFields(c.fields, Marker).value))
  {
    MarkedFieldsContents(c.fields, Marker);
  }

  /** The generator for one candidate. */
  method GenerateClass(classNode: ClassDecl) returns (r: Result<string, GenError>)
    ensures r == GeneratedSource(classNode)
  {
    var namespaceName := NamespaceName(classNode);
    var className := classNode.identifier;
    var usings := Distinct(Map(classNode.tree.usings, UsingText));
    var fields :- MarkedFields(classNode.fields, Marker);
    var sourceCode := EmitUnit(namespaceName, className, usings, fields);
    r := Success(sourceCode);
  }

  /** The `StringBuilder` part of `GenerateClass`: the fixed header with the import block,
      one `GetNode` assignment per field in order, and the fixed footer. */
  method EmitUnit(namespaceName: string, className: string, imports: seq<string>, fields: seq<FieldInfo>)
    returns (text: string)
    ensures text == JoinLines(UnitLines(namespaceName, className, imports, fields))
  {
    var header := HeaderLines(namespaceName, className, imports);
    var sb := new StringBuilder();
    sb.AppendLines(header);
    assert AssignmentLines(fields[..0]) == [];
    AppendEmpty(JoinLines(header));
    for i := 0 to |fields|
      invariant sb.text == JoinLines(header) + JoinLines(AssignmentLines(fields[..i]))
    {
      AssignmentLinesSnoc(fields, i);
      var done, line := JoinLines(AssignmentLines(fields[..i])), AssignmentLine(fields[i]);
      JoinLinesSnoc(AssignmentLines(fields[..i]), line);
      AppendAssoc(JoinLines(header), done, line);
      AppendAssoc(JoinLines(header), done + line, "\n");
      sb.AppendLine(line);
    }
    TakeAll(fields);
    JoinLinesAppend(header, AssignmentLines(fields));
    JoinLinesAppend(header + AssignmentLines(fields), FooterLines);
    sb.AppendLines(FooterLines);
    text := sb.text;
  }

  /* ---------------------------------------------------------------- the run */

  /** The outcome of generating for each candidate, in order. */
  function Sources(cands: seq<ClassDecl>): (r: seq<Result<string, GenError>>)
    ensures |r| == |cands|
  {
    Map(cands, GeneratedSource)
  }

  /** What a run over the candidates `cands` adds. */
  function GeneratedFiles(cands: seq<ClassDecl>): Result<seq<GeneratedFile>, GenError> {
    Assemble(cands, Sources(cands), Kind)
  }

  /** A run succeeds exactly when every candidate's generation does; it then holds, for each
      candidate in order, the file named `<namespace>_<class>_SceneNodeResolver.g` with its
      generated text. */
  lemma GeneratedFilesContents(cands: seq<ClassDecl>)
    ensures GeneratedFiles(cands).Success? <==> forall i :: 0 <= i < |cands| ==> GeneratedSource(cands[i]).Success?
    ensures GeneratedFiles(cands).Success? ==>
      && |GeneratedFiles(cands).value| == |cands|
      && forall i :: 0 <= i < |cands| ==>
        GeneratedFiles(cands).value[i] == GeneratedFile(HintName(cands[i], Kind), GeneratedSource(cands[i]).value)
  {
    var sources := Sources(cands);
    AssembleContents(cands, sources, Kind);
    assert GeneratedFiles(cands) == Assemble(cands, sources, Kind);
    forall i | 0 <= i < |cands| ensures sources[i] == GeneratedSource(cands[i]) {
    }
    if forall i :: 0 <= i < |cands| ==> GeneratedSource(cands[i]).Success? {
      assert forall i :: 0 <= i < |sources| ==> sources[i].Success?;
    }
  }

  /** A failing run reports the exception of the first candidate whose generation fails. */
  lemma GeneratedFilesFailFirst(cands: seq<ClassDecl>)
    requires GeneratedFiles(cands).Failure?
    ensures exists i ::
      && 0 <= i < |cands|
      && GeneratedSource(cands[i]) == Failure(GeneratedFiles(cands).error)
      && forall j :: 0 <= j < i ==> GeneratedSource(cands[j]).Success?
  {
    var sources := Sources(cands);
    AssembleContents(cands, sources, Kind);
    assert forall i :: 0 <= i < |cands| ==> sources[i] == GeneratedSource(cands[i]);
  }

  /** The generator's run over all collected candidates; the first exception aborts the
      run, and no file is added. */
  method Execute(receiver: SceneNodeSyntaxReceiver) returns (r: Result<seq<GeneratedFile>, GenError>)
    ensures r == GeneratedFiles(receiver.candidateClasses)
  {
    var candidates := receiver.candidateClasses;
    ghost var sources := Sources(candidates);
    var added: seq<GeneratedFile> := [];
    for i := 0 to |candidates|
      invariant Assemble(candidates[..i], sources[..i], Kind) == Success(added)
    {
      var classNode := candidates[i];
      var namespaceName := NamespaceName(classNode);
      var className := classNode.identifier;
      var uniqueHintName := namespaceName + "_" + className + "_" + Kind + ".g";
      var sourceCode := GenerateClass(classNode);
      assert sources[i] == sourceCode;
      AssembleStep(candidates, sources, Kind, i);
      if sourceCode.Failure? {
        AssemblePrefixFailure(candidates, sources, Kind, i + 1);
        return Failure(sourceCode.error);
      }
      added := added + [GeneratedFile(uniqueHintName, sourceCode.value)];
    }
    TakeAll(candidates);
    TakeAll(sources);
    r := Success(added);
  }
}
