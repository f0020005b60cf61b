/** Reading generated lines back: the parts both generators use to recover what an emitted
    line was built from. */
module Emission {
  import opened Wrappers
  import opened Sequences

  /** The indentation and receiver every generated assignment starts with. */
  const AssignPrefix: string := "        this."

  predicate StartsWith(s: string, p: string) {
    |p| <= |s| && s[..|p|] == p
  }

  predicate EndsWith(s: string, p: string) {
    |p| <= |s| && s[|s| - |p|..] == p
  }

  /** `s` cut at the first occurrence of `c`: everything before it, and the rest from `c` on
      (empty when `c` does not occur). */
  function SplitAtFirst(s: string, c: char): (r: (string, string))
    ensures r.0 + r.1 == s
    ensures c !in r.0
    ensures r.1 == [] || r.1[0] == c
  {
    var n := IndexOf(s, c);
    assert s[..n] + s[n..] == s;
    (s[..n], s[n..])
  }

  lemma SplitAtFirstOf(a: string, b: string, c: char)
    requires c !in a && |b| > 0 && b[0] == c
    ensures SplitAtFirst(a + b, c) == (a, b)
  {
    assert (a + b)[..|a|] == a;
    IndexOfUnique(a + b, c, |a|);
    assert (a + b)[|a|..] == b;
  }

  /** The text strictly between `head` and `tail`, when `s` starts with `head` and ends with
      `tail` without the two overlapping. */
  function Between(s: string, head: string, tail: string): (r: Option<string>)
    ensures r.Some? <==> |head| + |tail| <= |s| && StartsWith(s, head) && EndsWith(s, tail)
    ensures r.Some? ==> head + r.value + tail == s
  {
    if |head| + |tail| <= |s| && StartsWith(s, head) && EndsWith(s, tail) then
      var mid := s[|head|..|s| - |tail|];
      assert s == s[..|head|] + mid + s[|s| - |tail|..];
      Some(mid)
    else None
  }

  lemma BetweenOf(head: string, mid: string, tail: string)
    ensures Between(head + mid + tail, head, tail) == Some(mid)
  {
    var s := head + mid + tail;
    assert s[..|head|] == head;
    assert s[|s| - |tail|..] == tail;
    assert s[|head|..|s| - |tail|] == mid;
  }

  /** The member an emitted assignment line assigns, and the rest of the line from the blank
      after it, or `None` when the line does not start like an assignment. */
  function SplitTarget(line: string): (r: Option<(string, string)>)
    ensures r.Some? ==> AssignPrefix + r.value.0 + r.value.1 == line && ' ' !in r.value.0
  {
    if StartsWith(line, AssignPrefix) then
      var rest := line[|AssignPrefix|..];
      assert line == AssignPrefix + rest;
      Some(SplitAtFirst(rest, ' '))
    else None
  }

  lemma SplitTargetOf(name: string, rest: string)
    requires ' ' !in name && |rest| > 0 && rest[0] == ' '
    ensures SplitTarget(AssignPrefix + name + rest) == Some((name, rest))
  {
    var line := AssignPrefix + name + rest;
    assert line[..|AssignPrefix|] == AssignPrefix;
    assert line[|AssignPrefix|..] == name + rest;
    SplitAtFirstOf(name, rest, ' ');
  }
  /** The first line of every generated unit. */
  function NamespaceLine(namespaceName: string): string {
    "namespace " + namespaceName + ";"
  }

  /** The closing lines of every generated unit. */
  const FooterLines: seq<string> := ["    }", "#pragma warning restore CS0109", "}"]

  /** Reads the namespace back from a generated unit's first line. */
  function ParseNamespaceLine(line: string): Option<string> {
    Between(line, "namespace ", ";")
  }

  lemma ParseNamespaceLineOf(namespaceName: string)
    ensures ParseNamespaceLine(NamespaceLine(namespaceName)) == Some(namespaceName)
  {
    BetweenOf("namespace ", namespaceName, ";");
  }

  /** Reads every line with `parse`, or `None` as soon as a line does not parse. */
  function ParseLines<T>(lines: seq<string>, parse: string -> Option<T>): Option<seq<T>> {
    if lines == [] then Some([])
    else
      var n := |lines| - 1;
      var init :- ParseLines(lines[..n], parse);
      var last :- parse(lines[n]);
      Some(init + [last])
  }

  /** Lines rendered from `xs` read back as the views of `xs`, when reading inverts rendering
      element by element. */
  lemma {:induction false} ParseLinesOf<X, T>(xs: seq<X>, render: X -> string, parse: string -> Option<T>, view: X -> T)
    requires forall i :: 0 <= i < |xs| ==> parse(render(xs[i])) == Some(view(xs[i]))
    ensures ParseLines(Map(xs, render), parse) == Some(Map(xs, view))
  {
    if xs != [] {
      var n := |xs| - 1;
      var lines := Map(xs, render);
      assert lines[..n] == Map(xs[..n], render);
      assert forall i :: 0 <= i < n ==> xs[..n][i] == xs[i];
      ParseLinesOf(xs[..n], render, parse, view);
      assert Map(xs, view) == Map(xs[..n], view) + [view(xs[n])];
    }
  }
}
