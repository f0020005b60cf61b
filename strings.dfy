/** The .NET string operations the generators rely on: ordinal `Contains`, `Trim(char)`,
    `string.Join("\n", ...)` and a `StringBuilder` whose `AppendLine` ends every line with
    a fixed "\n". */
module Strings {
  import opened Sequences

  /** `sub` occurs in `s` starting at position `i`. */
  predicate OccursAt(s: string, sub: string, i: nat) {
    i + |sub| <= |s| && s[i..i + |sub|] == sub
  }

  /** Ordinal `string.Contains(string)`. */
  predicate ContainsSubstring(s: string, sub: string)
    decreases |s|
  {
    |sub| <= |s| && (s[..|sub|] == sub || (|s| > 0 && ContainsSubstring(s[1..], sub)))
  }

  lemma {:induction false} ContainsSubstringIff(s: string, sub: string)
    ensures ContainsSubstring(s, sub) <==> exists i: nat :: OccursAt(s, sub, i)
    decreases |s|
  {
    if |sub| <= |s| && s[..|sub|] != sub && |s| > 0 {
      ContainsSubstringIff(s[1..], sub);
      if ContainsSubstring(s[1..], sub) {
        var i: nat :| OccursAt(s[1..], sub, i);
        assert s[i + 1..i + 1 + |sub|] == s[1..][i..i + |sub|];
        assert OccursAt(s, sub, i + 1);
      } else if exists i: nat :: OccursAt(s, sub, i) {
        var i: nat :| OccursAt(s, sub, i);
        assert i != 0;
        assert s[i..i + |sub|] == s[1..][i - 1..i - 1 + |sub|];
        assert OccursAt(s[1..], sub, i - 1);
        assert false;
      }
    } else if |sub| <= |s| && s[..|sub|] == sub {
      assert OccursAt(s, sub, 0);
    }
  }

  /** `s` consists of `c` only. */
  predicate AllChar(s: string, c: char) {
    forall k :: 0 <= k < |s| ==> s[k] == c
  }

  /** How many `c` the text starts with. */
  function LeadingCount(s: string, c: char): (n: nat)
    ensures n <= |s| && AllChar(s[..n], c)
    ensures n < |s| ==> s[n] != c
    decreases |s|
  {
    if |s| > 0 && s[0] == c then
      var n := LeadingCount(s[1..], c);
      assert s[..n + 1] == [c] + s[1..][..n];
      n + 1
    else 0
  }

  /** How many `c` the text ends with. */
  function TrailingCount(s: string, c: char): (n: nat)
    ensures n <= |s|
    decreases |s|
  {
    if |s| > 0 && s[|s| - 1] == c then TrailingCount(s[..|s| - 1], c) + 1
    else 0
  }

  /** The counted run is all `c`, and the character before it is not. */
  lemma {:induction false} TrailingCountContents(s: string, c: char)
    ensures var n := TrailingCount(s, c);
      && AllChar(s[|s| - n..], c)
      && (n < |s| ==> s[|s| - n - 1] != c)
    decreases |s|
  {
    if |s| > 0 && s[|s| - 1] == c {
      var init := s[..|s| - 1];
      var n := TrailingCount(init, c);
      TrailingCountContents(init, c);
      forall k | |s| - (n + 1) <= k < |s| ensures s[k] == c {
        if k < |s| - 1 {
          assert s[k] == init[k] == init[|init| - n..][k - (|init| - n)];
        }
      }
      if n + 1 < |s| {
        assert s[|s| - (n + 1) - 1] == init[|init| - n - 1];
      }
    }
  }

  /** .NET `s.Trim(c)`: every leading and every trailing `c` removed. */
  function Trim(s: string, c: char): string {
    var i := LeadingCount(s, c);
    var k := TrailingCount(s[i..], c);
    s[i..|s| - k]
  }

  /** The trimmed text neither starts nor ends with `c`, and it is what remains of `s` once
      a run of `c` is cut from each end. */
  lemma TrimContents(s: string, c: char)
    ensures var r := Trim(s, c);
      && (r == [] || (r[0] != c && r[|r| - 1] != c))
      && exists i, j :: 0 <= i <= j <= |s| && r == s[i..j] && AllChar(s[..i], c) && AllChar(s[j..], c)
  {
    var i := LeadingCount(s, c);
    var t := s[i..];
    var k := TrailingCount(t, c);
    TrailingCountContents(t, c);
    var j := |s| - k;
    var r := s[i..j];
    assert r == Trim(s, c);
    assert t[|t| - k..] == s[j..];
    assert AllChar(s[..i], c) && AllChar(s[j..], c);
    if r != [] {
      assert r[0] == s[i] != c;
      assert r[|r| - 1] == t[|t| - k - 1] != c;
    }
  }

  /** Nothing to trim: the text comes back unchanged. */
  lemma {:induction false} TrimUntouched(s: string, c: char)
    requires s == [] || (s[0] != c && s[|s| - 1] != c)
    ensures Trim(s, c) == s
  {
    if s != [] {
      assert LeadingCount(s, c) == 0;
      assert s[0..] == s;
      assert TrailingCount(s, c) == 0;
    }
  }

  lemma TrimIdempotent(s: string, c: char)
    ensures Trim(Trim(s, c), c) == Trim(s, c)
  {
    TrimContents(s, c);
    TrimUntouched(Trim(s, c), c);
  }

  /** `string.Join("\n", xs)`. */
  function Join(xs: seq<string>): string {
    if |xs| == 0 then ""
    else if |xs| == 1 then xs[0]
    else Join(xs[..|xs| - 1]) + "\n" + xs[|xs| - 1]
  }

  /** The text a `StringBuilder` holds after one `AppendLine` per element. */
  function JoinLines(lines: seq<string>): string {
    if lines == [] then ""
    else JoinLines(lines[..|lines| - 1]) + lines[|lines| - 1] + "\n"
  }

  lemma JoinLinesSnoc(lines: seq<string>, line: string)
    ensures JoinLines(lines + [line]) == JoinLines(lines) + line + "\n"
  {
    assert (lines + [line])[..|lines|] == lines;
  }

  lemma {:induction false} JoinLinesAppend(a: seq<string>, b: seq<string>)
    ensures JoinLines(a + b) == JoinLines(a) + JoinLines(b)
    decreases |b|
  {
    if b == [] {
      assert a + b == a;
    } else {
      var init := b[..|b| - 1];
      assert (a + b)[..|a + b| - 1] == a + init;
      JoinLinesAppend(a, init);
    }
  }

  /** Appending `string.Join("\n", xs)` as ONE line gives the same text as appending every
      element of `xs` as a line of its own, except that an empty `xs` leaves an empty line. */
  lemma {:induction false} JoinedLineIsLines(xs: seq<string>)
    ensures JoinLines([Join(xs)]) == if xs == [] then "\n" else JoinLines(xs)
  {
    assert JoinLines([Join(xs)]) == JoinLines([]) + Join(xs) + "\n";
    if |xs| > 1 {
      var init := xs[..|xs| - 1];
      JoinedLineIsLines(init);
      assert JoinLines([Join(init)]) == Join(init) + "\n";
    } else if |xs| == 1 {
      assert xs[..0] == [];
    }
  }

  /** System.Text.StringBuilder restricted to `AppendLine`, with "\n" as the line terminator. */
  class StringBuilder {
    var text: string

    constructor ()
      ensures text == ""
    {
      text := "";
    }

    method AppendLine(line: string)
      modifies this
      ensures text == old(text) + line + "\n"
    {
      text := text + line + "\n";
    }

    /** A run of `AppendLine` calls, one per element of `lines`, in order. */
    method AppendLines(lines: seq<string>)
      modifies this
      ensures text == old(text) + JoinLines(lines)
    {
      for i := 0 to |lines|
        invariant text == old(text) + JoinLines(lines[..i])
      {
        TakeSnoc(lines, i);
        JoinLinesSnoc(lines[..i], lines[i]);
        AppendLine(lines[i]);
      }
      assert lines[..|lines|] == lines;
    }
  }
}
