/** What the two generators share word for word apart from the marker name: which classes
    the syntax receiver collects, how a marked field is read, and how a hint name is built. */
module Markers {
  import opened Wrappers
  import opened Sequences
  import opened Strings
  import opened Syntax

  /** A marked field as the generators collect it. */
  datatype FieldInfo = FieldInfo(typeText: string, name: string, nodePath: string)

  /** The exceptions field extraction can throw: `First()` on an empty sequence. */
  datatype GenError =
    | NoVariable(typeText: string)         // `Declaration.Variables.First()`
    | EmptyArgumentList(typeText: string)  // `ArgumentList.Arguments.First()` on `()`

  /** Files whose path contains this text are never generated for. */
  const ExcludedPathSegment: string := "addons/"

  const GlobalNamespace: string := "Global"

  /** `f.AttributeLists.SelectMany(a => a.Attributes)`. */
  function Attributes(f: FieldDecl): seq<Attribute> {
    Flatten(f.attributeLists)
  }

  /** Some attribute of the field has exactly the name text `marker`. */
  predicate IsMarked(f: FieldDecl, marker: string) {
    exists a :: a in Attributes(f) && a.name == marker
  }

  predicate HasMarkedField(c: ClassDecl, marker: string) {
    exists f :: f in c.fields && IsMarked(f, marker)
  }

  /** The syntax receiver's test: partial, not static, outside the excluded files, and with
      a directly declared marked field. */
  predicate IsCandidate(c: ClassDecl, marker: string) {
    && PartialKeyword in c.modifiers
    && StaticKeyword !in c.modifiers
    && !ContainsSubstring(c.tree.filePath, ExcludedPathSegment)
    && HasMarkedField(c, marker)
  }

  /** A class declared in a file whose path contains "addons/" is never a candidate. */
  lemma ExcludedFileNeverCandidate(c: ClassDecl, marker: string, i: nat)
    requires OccursAt(c.tree.filePath, ExcludedPathSegment, i)
    ensures !IsCandidate(c, marker)
  {
    ContainsSubstringIff(c.tree.filePath, ExcludedPathSegment);
  }

  /** The classes among `nodes` that the syntax receiver collects, in visiting order. */
  function CandidatesOf(nodes: seq<SyntaxNode>, marker: string): (r: seq<ClassDecl>)
    ensures forall c :: c in r <==> ClassDeclaration(c) in nodes && IsCandidate(c, marker)
  {
    if nodes == [] then []
    else
      var init, last := nodes[..|nodes| - 1], nodes[|nodes| - 1];
      assert nodes == init + [last];
      CandidatesOf(init, marker)
        + (if last.ClassDeclaration? && IsCandidate(last.decl, marker) then [last.decl] else [])
  }

  /** The first attribute named `marker`, if any. */
  function FirstMarker(attrs: seq<Attribute>, marker: string): (r: Option<Attribute>)
    ensures r.None? <==> forall k :: 0 <= k < |attrs| ==> attrs[k].name != marker
    ensures r.Some? ==> exists k :: 0 <= k < |attrs| && attrs[k] == r.value && r.value.name == marker
                                    && forall j :: 0 <= j < k ==> attrs[j].name != marker
  {
    if attrs == [] then None
    else if attrs[0].name == marker then
      Some(attrs[0])
    else
      var r := FirstMarker(attrs[1..], marker);
      assert forall k :: 1 <= k < |attrs| ==> attrs[k] == attrs[1..][k - 1];
      r
  }

  /** The node path of a field: the first argument of its first marker attribute with the
      surrounding quote characters trimmed; "" when that attribute has no argument list; an
      exception when the argument list is empty. */
  function NodePath(f: FieldDecl, marker: string): Result<string, GenError> {
    match FirstMarker(Attributes(f), marker)
    case None => Success("")
    case Some(attr) =>
      match attr.argumentList
      case None => Success("")
      case Some(args) =>
        if |args| == 0 then Failure(EmptyArgumentList(f.typeText))
        else Success(Trim(args[0], '"'))
  }

  /** The path fails exactly on an empty argument list `()`; otherwise it never starts or
      ends with a quote, it is "" without an argument list, and with one it is the first
      argument once a run of quotes is cut from each end. */
  lemma NodePathContents(f: FieldDecl, marker: string)
    ensures NodePath(f, marker).Failure? <==>
      FirstMarker(Attributes(f), marker).Some? && FirstMarker(Attributes(f), marker).value.argumentList == Some([])
    ensures NodePath(f, marker).Failure? ==> NodePath(f, marker).error == EmptyArgumentList(f.typeText)
    ensures NodePath(f, marker).Success? ==>
      var p := NodePath(f, marker).value; p == [] || (p[0] != '"' && p[|p| - 1] != '"')
    ensures NodePath(f, marker).Success? && FirstMarker(Attributes(f), marker).Some? ==>
      match FirstMarker(Attributes(f), marker).value.argumentList
      case None => NodePath(f, marker).value == ""
      case Some(args) =>
        (|args| > 0 &&
         exists i, j :: 0 <= i <= j <= |args[0]| && NodePath(f, marker).value == args[0][i..j]
                     && AllChar(args[0][..i], '"') && AllChar(args[0][j..], '"'))
  {
    match FirstMarker(Attributes(f), marker)
    case None =>
    case Some(attr) =>
      match attr.argumentList
      case None =>
      case Some(args) =>
        if |args| > 0 {
          TrimContents(args[0], '"');
        }
  }

  /** One marked field as a (type, name, path) tuple: the type as written, the FIRST
      declared variable only, and the node path. */
  function ExtractField(f: FieldDecl, marker: string): Result<FieldInfo, GenError> {
    if |f.variables| == 0 then Failure(NoVariable(f.typeText))
    else
      var path :- NodePath(f, marker);
      Success(FieldInfo(f.typeText, f.variables[0], path))
  }

  function Extractor(marker: string): FieldDecl -> Result<FieldInfo, GenError> {
    f => ExtractField(f, marker)
  }

  lemma ExtractorApply(marker: string, f: FieldDecl)
    ensures Extractor(marker)(f) == ExtractField(f, marker)
  {
  }

  /** The marked field declarations, in declaration order. */
  function MarkedDecls(fields: seq<FieldDecl>, marker: string): (r: seq<FieldDecl>)
    ensures forall f :: f in r <==> f in fields && IsMarked(f, marker)
  {
    if fields == [] then []
    else
      assert fields == [fields[0]] + fields[1..];
      (if IsMarked(fields[0], marker) then [fields[0]] else []) + MarkedDecls(fields[1..], marker)
  }

  /** Filtering distributes over concatenation: the order of declarations is kept. */
  lemma {:induction false} MarkedDeclsAppend(a: seq<FieldDecl>, b: seq<FieldDecl>, marker: string)
    ensures MarkedDecls(a + b, marker) == MarkedDecls(a, marker) + MarkedDecls(b, marker)
  {
    if a != [] {
      assert (a + b)[0] == a[0] && (a + b)[1..] == a[1..] + b;
      MarkedDeclsAppend(a[1..], b, marker);
    } else {
      assert a + b == b;
    }
  }

  /** The LINQ pipeline `Where(marked).Select(extract).ToList()` over a class's fields:
      one tuple per marked field, in declaration order, or the first exception raised. */
  function MarkedFields(fields: seq<FieldDecl>, marker: string): Result<seq<FieldInfo>, GenError> {
    TryMap(MarkedDecls(fields, marker), Extractor(marker))
  }

  /** Extracting a run of declarations: it succeeds exactly when each declaration extracts,
      and then gives each one's tuple at the same position. */
  lemma ExtractAllContents(m: seq<FieldDecl>, marker: string)
    ensures TryMap(m, Extractor(marker)).Success? <==>
      forall i :: 0 <= i < |m| ==> ExtractField(m[i], marker).Success?
    ensures TryMap(m, Extractor(marker)).Success? ==>
      && |TryMap(m, Extractor(marker)).value| == |m|
      && forall i :: 0 <= i < |m| ==> ExtractField(m[i], marker) == Success(TryMap(m, Extractor(marker)).value[i])
    ensures TryMap(m, Extractor(marker)).Failure? ==> exists i ::
      && 0 <= i < |m|
      && ExtractField(m[i], marker) == Failure(TryMap(m, Extractor(marker)).error)
      && forall j :: 0 <= j < i ==> ExtractField(m[j], marker).Success?
  {
    var extract := Extractor(marker);
    TryMapContents(m, extract);
    forall i | 0 <= i < |m| ensures extract(m[i]) == ExtractField(m[i], marker) {
      ExtractorApply(marker, m[i]);
    }
    if TryMap(m, extract).Failure? {
      var i :| 0 <= i < |m| && extract(m[i]) == Failure(TryMap(m, extract).error)
        && forall j :: 0 <= j < i ==> extract(m[j]).Success?;
      assert ExtractField(m[i], marker).Failure?;
    } else {
      forall i | 0 <= i < |m| ensures ExtractField(m[i], marker).Success? {
        assert extract(m[i]).Success?;
      }
    }
  }

  /** The pipeline succeeds exactly when every marked field can be extracted; then each
      tuple takes the type as written and the name of the FIRST declared variable of the
      marked declaration at the same position. */
  lemma MarkedFieldsContents(fields: seq<FieldDecl>, marker: string)
    ensures MarkedFields(fields, marker).Success? <==>
      forall i :: 0 <= i < |MarkedDecls(fields, marker)| ==> ExtractField(MarkedDecls(fields, marker)[i], marker).Success?
    ensures MarkedFields(fields, marker).Success? ==>
      && |MarkedFields(fields, marker).value| == |MarkedDecls(fields, marker)|
      && forall i :: 0 <= i < |MarkedDecls(fields, marker)| ==>
        ExtractField(MarkedDecls(fields, marker)[i], marker) == Success(MarkedFields(fields, marker).value[i])
  {
    var m := MarkedDecls(fields, marker);
    ExtractAllContents(m, marker);
    assert MarkedFields(fields, marker) == TryMap(m, Extractor(marker));
    if MarkedFields(fields, marker).Failure? {
      var i :| 0 <= i < |m| && ExtractField(m[i], marker) == Failure(MarkedFields(fields, marker).error);
      assert !ExtractField(m[i], marker).Success?;
      assert !(forall k :: 0 <= k < |m| ==> ExtractField(m[k], marker).Success?);
    }
  }

  /** A failing extraction reports the exception of the first marked field that cannot be
      extracted. */
  lemma MarkedFieldsFailFirst(fields: seq<FieldDecl>, marker: string)
    requires MarkedFields(fields, marker).Failure?
    ensures exists i ::
      && 0 <= i < |MarkedDecls(fields, marker)|
      && ExtractField(MarkedDecls(fields, marker)[i], marker) == Failure(MarkedFields(fields, marker).error)
      && forall j :: 0 <= j < i ==> ExtractField(MarkedDecls(fields, marker)[j], marker).Success?
  {
    ExtractAllContents(MarkedDecls(fields, marker), marker);
  }

  /** The namespace written in the generated file and in the hint name: the name of the
      enclosing namespace declaration, or "Global". */
  function NamespaceName(c: ClassDecl): string {
    match c.parent
    case NamespaceDeclaration(name) => name
    case OtherParent => GlobalNamespace
  }

  /** `$"{namespaceName}_{className}_{kind}.g"`. */
  function HintName(c: ClassDecl, kind: string): string {
    NamespaceName(c) + "_" + c.identifier + "_" + kind + ".g"
  }

  lemma SplitAtFirstUnderscore(a: string, b: string, x: string, y: string)
    requires '_' !in a && '_' !in x
    requires a + "_" + b == x + "_" + y
    ensures a == x && b == y
  {
    var s := a + "_" + b;
    assert s[|a|] == '_' && s[|x|] == '_';
    assert forall k :: 0 <= k < |a| ==> s[k] == a[k];
    assert forall k :: 0 <= k < |x| ==> s[k] == x[k];
    assert |a| == |x|;
    assert a == s[..|a|] == x;
    assert b == s[|a| + 1..] == y;
  }

  /** Two classes get the same hint name only if they agree on namespace and name, as long
      as neither name contains an underscore (with underscores, "A_B"/"C" and "A"/"B_C"
      collide). */
  lemma HintNameInjective(c1: ClassDecl, c2: ClassDecl, kind: string)
    requires '_' !in NamespaceName(c1) && '_' !in NamespaceName(c2)
    requires '_' !in c1.identifier && '_' !in c2.identifier
    requires HintName(c1, kind) == HintName(c2, kind)
    ensures NamespaceName(c1) == NamespaceName(c2) && c1.identifier == c2.identifier
  {
    var suffix := kind + ".g";
    var tail1, tail2 := c1.identifier + "_" + suffix, c2.identifier + "_" + suffix;
    assert HintName(c1, kind) == NamespaceName(c1) + "_" + tail1;
    assert HintName(c2, kind) == NamespaceName(c2) + "_" + tail2;
    SplitAtFirstUnderscore(NamespaceName(c1), tail1, NamespaceName(c2), tail2);
    SplitAtFirstUnderscore(c1.identifier, suffix, c2.identifier, suffix);
  }
  /** With underscores in the names, different classes can share a hint name: class `C` in
      namespace `A_B` and class `B_C` in namespace `A` are both named `A_B_C_<kind>.g`. */
  lemma HintNameCollision(c1: ClassDecl, c2: ClassDecl, kind: string)
    requires c1.parent == NamespaceDeclaration("A_B") && c1.identifier == "C"
    requires c2.parent == NamespaceDeclaration("A") && c2.identifier == "B_C"
    ensures NamespaceName(c1) != NamespaceName(c2) && c1.identifier != c2.identifier
    ensures HintName(c1, kind) == HintName(c2, kind)
  {
    assert NamespaceName(c1) + "_" + c1.identifier == "A_B_C" == NamespaceName(c2) + "_" + c2.identifier;
  }

  /** A generated source as handed to `AddSource`: its hint name and its text. */
  datatype GeneratedFile = GeneratedFile(hintName: string, sourceText: string)

  /** What a generator run adds when `sources[i]` is the outcome of generating for
      `cands[i]`: one file per candidate, in order, named by the candidate's hint name, or
      the first exception raised (which ends the run). */
  function Assemble(cands: seq<ClassDecl>, sources: seq<Result<string, GenError>>, kind: string)
    : Result<seq<GeneratedFile>, GenError>
    requires |cands| == |sources|
  {
    if cands == [] then Success([])
    else
      var n := |cands| - 1;
      var before :- Assemble(cands[..n], sources[..n], kind);
      var text :- sources[n];
      Success(before + [GeneratedFile(HintName(cands[n], kind), text)])
  }

  /** A run succeeds exactly when every candidate's generation does; it then holds, for each
      candidate in order, the file named by its hint name with its text; otherwise it
      reports the exception of the first candidate that fails. */
  lemma AssembleContents(cands: seq<ClassDecl>, sources: seq<Result<string, GenError>>, kind: string)
    requires |cands| == |sources|
    ensures Assemble(cands, sources, kind).Success? <==> forall i :: 0 <= i < |sources| ==> sources[i].Success?
    ensures Assemble(cands, sources, kind).Success? ==>
      && |Assemble(cands, sources, kind).value| == |cands|
      && forall i :: 0 <= i < |cands| ==>
        Assemble(cands, sources, kind).value[i] == GeneratedFile(HintName(cands[i], kind), sources[i].value)
    ensures Assemble(cands, sources, kind).Failure? ==> exists i ::
      && 0 <= i < |sources|
      && sources[i] == Failure(Assemble(cands, sources, kind).error)
      && forall j :: 0 <= j < i ==> sources[j].Success?
  {
    if Assemble(cands, sources, kind).Success? {
      AssembleFiles(cands, sources, kind);
    } else {
      AssembleFailure(cands, sources, kind);
    }
  }

  /** A successful run: every outcome succeeded, and the files are the candidates' in order. */
  lemma {:induction false} AssembleFiles(cands: seq<ClassDecl>, sources: seq<Result<string, GenError>>, kind: string)
    requires |cands| == |sources| && Assemble(cands, sources, kind).Success?
    ensures forall i :: 0 <= i < |sources| ==> sources[i].Success?
    ensures |Assemble(cands, sources, kind).value| == |cands|
    ensures forall i :: 0 <= i < |cands| ==>
      Assemble(cands, sources, kind).value[i] == GeneratedFile(HintName(cands[i], kind), sources[i].value)
  {
    if cands != [] {
      var n := |cands| - 1;
      var init, initSources := cands[..n], sources[..n];
      AssembleFiles(init, initSources, kind);
      var before := Assemble(init, initSources, kind).value;
      var files := before + [GeneratedFile(HintName(cands[n], kind), sources[n].value)];
      assert Assemble(cands, sources, kind).value == files;
      forall i | 0 <= i < |cands|
        ensures sources[i].Success? && files[i] == GeneratedFile(HintName(cands[i], kind), sources[i].value)
      {
        if i < n {
          assert init[i] == cands[i] && initSources[i] == sources[i];
          assert files[i] == before[i];
        }
      }
    }
  }

  /** A failing run: some outcome failed, and the first failing one is reported. */
  lemma {:induction false} AssembleFailure(cands: seq<ClassDecl>, sources: seq<Result<string, GenError>>, kind: string)
    requires |cands| == |sources| && Assemble(cands, sources, kind).Failure?
    ensures exists i ::
      && 0 <= i < |sources|
      && sources[i] == Failure(Assemble(cands, sources, kind).error)
      && forall j :: 0 <= j < i ==> sources[j].Success?
  {
    var n := |cands| - 1;
    var init, initSources := cands[..n], sources[..n];
    if Assemble(init, initSources, kind).Failure? {
      AssembleFailure(init, initSources, kind);
      var i :| 0 <= i < n && initSources[i] == Failure(Assemble(init, initSources, kind).error)
        && forall j :: 0 <= j < i ==> initSources[j].Success?;
      assert sources[i] == initSources[i];
      assert forall j :: 0 <= j < i ==> sources[j] == initSources[j];
    } else {
      AssembleFiles(init, initSources, kind);
      assert forall j :: 0 <= j < n ==> sources[j] == initSources[j];
    }
  }

  /** The run ends when every candidate it reaches (each one up to and including the first
      whose generation throws) has an outcome; `None` marks a candidate whose generation does
      not end within the fuel it is given (more fuel never changes an outcome that is
      present, see `RunEndsRefined`). */
  predicate RunEnds(outcomes: seq<Option<Result<string, GenError>>>)
    decreases |outcomes|
  {
    || outcomes == []
    || (outcomes[0].Some? && (outcomes[0].value.Success? ==> RunEnds(outcomes[1..])))
  }

  /** The outcomes of the candidates the run reaches, in order: it stops after the first
      exception. */
  function Reached(outcomes: seq<Option<Result<string, GenError>>>): (r: seq<Result<string, GenError>>)
    requires RunEnds(outcomes)
    ensures |r| <= |outcomes|
    decreases |outcomes|
  {
    if outcomes == [] then []
    else if outcomes[0].value.Failure? then [outcomes[0].value]
    else [outcomes[0].value] + Reached(outcomes[1..])
  }

  /** Each reached candidate has its own outcome; every reached outcome but the last
      succeeds, and the run stops early only after an exception. */
  lemma {:induction false} ReachedContents(outcomes: seq<Option<Result<string, GenError>>>)
    requires RunEnds(outcomes)
    ensures var r := Reached(outcomes);
      && (forall i :: 0 <= i < |r| ==> outcomes[i] == Some(r[i]))
      && (forall i :: 0 <= i < |r| - 1 ==> r[i].Success?)
      && (|r| < |outcomes| ==> |r| > 0 && r[|r| - 1].Failure?)
    decreases |outcomes|
  {
    if outcomes != [] && outcomes[0].value.Success? {
      var r := Reached(outcomes);
      var rest := Reached(outcomes[1..]);
      ReachedContents(outcomes[1..]);
      assert r == [r[0]] + rest;
      assert forall i :: 1 <= i < |r| ==> r[i] == rest[i - 1] && outcomes[i] == outcomes[1..][i - 1];
    }
  }

  /** A run where every candidate has an outcome ends. */
  lemma {:induction false} RunEndsWhenAllEnd(outcomes: seq<Option<Result<string, GenError>>>)
    requires forall i :: 0 <= i < |outcomes| ==> outcomes[i].Some?
    ensures RunEnds(outcomes)
    decreases |outcomes|
  {
    if outcomes != [] {
      assert forall i :: 0 <= i < |outcomes| - 1 ==> outcomes[1..][i] == outcomes[i + 1];
      RunEndsWhenAllEnd(outcomes[1..]);
    }
  }

  /** Outcomes that agree with a run that ends on every outcome it has (only `None` may be
      replaced) give a run that ends too, and it reaches the same outcomes. */
  lemma {:induction false} RunEndsRefined(outcomes: seq<Option<Result<string, GenError>>>, more: seq<Option<Result<string, GenError>>>)
    requires RunEnds(outcomes) && |more| == |outcomes|
    requires forall i :: 0 <= i < |outcomes| && outcomes[i].Some? ==> more[i] == outcomes[i]
    ensures RunEnds(more) && Reached(more) == Reached(outcomes)
    decreases |outcomes|
  {
    if outcomes != [] {
      assert more[0] == outcomes[0];
      if outcomes[0].value.Success? {
        assert forall i :: 0 <= i < |outcomes| - 1 ==> outcomes[1..][i] == outcomes[i + 1] && more[1..][i] == more[i + 1];
        RunEndsRefined(outcomes[1..], more[1..]);
      }
    }
  }

  /** A run whose first `n` candidates succeed and whose next candidate, if there is one,
      throws, ends after reaching exactly those candidates. */
  lemma {:induction false} RunEndsOfTerminatingRun(outcomes: seq<Option<Result<string, GenError>>>, n: nat)
    requires n <= |outcomes|
    requires forall i :: 0 <= i < n ==> outcomes[i].Some? && outcomes[i].value.Success?
    requires n < |outcomes| ==> outcomes[n].Some? && outcomes[n].value.Failure?
    ensures RunEnds(outcomes)
    ensures |Reached(outcomes)| == if n < |outcomes| then n + 1 else n
    ensures forall i :: 0 <= i < |Reached(outcomes)| ==> outcomes[i] == Some(Reached(outcomes)[i])
    decreases n
  {
    if n > 0 {
      assert forall i :: 0 <= i < |outcomes| - 1 ==> outcomes[1..][i] == outcomes[i + 1];
      RunEndsOfTerminatingRun(outcomes[1..], n - 1);
    }
    ReachedContents(outcomes);
  }

  /** One more candidate: its file is appended, or its exception ends the run. */
  lemma AssembleStep(cands: seq<ClassDecl>, sources: seq<Result<string, GenError>>, kind: string, i: nat)
    requires |cands| == |sources| && i < |cands|
    requires Assemble(cands[..i], sources[..i], kind).Success?
    ensures sources[i].Failure? ==> Assemble(cands[..i + 1], sources[..i + 1], kind) == Failure(sources[i].error)
    ensures sources[i].Success? ==>
      Assemble(cands[..i + 1], sources[..i + 1], kind)
        == Success(Assemble(cands[..i], sources[..i], kind).value + [GeneratedFile(HintName(cands[i], kind), sources[i].value)])
  {
    TakeTake(cands, i, i + 1);
    TakeTake(sources, i, i + 1);
  }

  /** Once a prefix of the run fails, the whole run fails the same way. */
  lemma {:induction false} AssemblePrefixFailure(cands: seq<ClassDecl>, sources: seq<Result<string, GenError>>, kind: string, k: nat)
    requires |cands| == |sources| && k <= |cands|
    requires Assemble(cands[..k], sources[..k], kind).Failure?
    ensures Assemble(cands, sources, kind) == Assemble(cands[..k], sources[..k], kind)
    decreases |cands|
  {
    if k < |cands| {
      var n := |cands| - 1;
      assert cands[..n][..k] == cands[..k] && sources[..n][..k] == sources[..k];
      AssemblePrefixFailure(cands[..n], sources[..n], kind, k);
    } else {
      assert cands[..k] == cands && sources[..k] == sources;
    }
  }
}
