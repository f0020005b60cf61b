/** Generic sequence operations used by both generators: LINQ's First/IndexOf,
    SelectMany and Distinct. */
module Sequences {
  import opened Wrappers

  /** `xs.Select(f).ToList()` where `f` may throw: all results, or the exception of the
      first element `f` fails on. */
  function TryMap<X, Y, E>(xs: seq<X>, f: X -> Result<Y, E>): Result<seq<Y>, E> {
    if xs == [] then Success([])
    else
      match f(xs[0])
      case Failure(e) => Failure(e)
      case Success(y) =>
        match TryMap(xs[1..], f)
        case Failure(e) => Failure(e)
        case Success(ys) => Success([y] + ys)
  }

  /** `TryMap` succeeds exactly when `f` succeeds on every element, giving the results in
      order; otherwise it reports the failure of the first element `f` fails on. */
  lemma {:induction false} TryMapContents<X, Y, E>(xs: seq<X>, f: X -> Result<Y, E>)
    ensures TryMap(xs, f).Success? <==> forall i :: 0 <= i < |xs| ==> f(xs[i]).Success?
    ensures TryMap(xs, f).Success? ==>
      && |TryMap(xs, f).value| == |xs|
      && forall i :: 0 <= i < |xs| ==> f(xs[i]) == Success(TryMap(xs, f).value[i])
    ensures TryMap(xs, f).Failure? ==>
      exists i :: 0 <= i < |xs| && f(xs[i]) == Failure(TryMap(xs, f).error)
        && forall j :: 0 <= j < i ==> f(xs[j]).Success?
  {
    if xs != [] && f(xs[0]).Success? {
      TryMapContents(xs[1..], f);
      assert forall i :: 1 <= i < |xs| ==> xs[i] == xs[1..][i - 1];
      if TryMap(xs[1..], f).Failure? {
        var e := TryMap(xs[1..], f).error;
        var i :| 0 <= i < |xs| - 1 && f(xs[1..][i]) == Failure(e)
          && forall j :: 0 <= j < i ==> f(xs[1..][j]).Success?;
        assert f(xs[i + 1]) == Failure(e);
      }
    }
  }

  /** Growing a prefix by one element. */
  lemma TakeSnoc<T>(s: seq<T>, k: nat)
    requires k < |s|
    ensures s[..k + 1] == s[..k] + [s[k]]
  {
  }

  lemma TakeAll<T>(s: seq<T>)
    ensures s[..|s|] == s
  {
  }

  lemma AppendEmpty<T>(s: seq<T>)
    ensures s + [] == s
  {
  }

  lemma TakeTake<T>(s: seq<T>, i: nat, j: nat)
    requires i <= j <= |s|
    ensures s[..j][..i] == s[..i]
  {
  }

  /** The three parts of a concatenation, sliced back out. */
  lemma SliceParts<T>(a: seq<T>, b: seq<T>, c: seq<T>)
    ensures (a + b + c)[..|a|] == a
    ensures (a + b + c)[|a|..|a| + |b|] == b
    ensures (a + b + c)[|a| + |b|..] == c
  {
  }

  lemma Decompose<T>(s: seq<T>, j: nat)
    requires j < |s|
    ensures s == s[..j] + [s[j]] + s[j + 1..]
  {
  }

  lemma AppendAssoc<T>(a: seq<T>, b: seq<T>, c: seq<T>)
    ensures (a + b) + c == a + (b + c)
  {
  }

  /** `xs.Select(f)`. */
  function Map<X, Y>(xs: seq<X>, f: X -> Y): (r: seq<Y>)
    ensures |r| == |xs|
  {
    seq(|xs|, i requires 0 <= i < |xs| => f(xs[i]))
  }

  /** `xs.SelectMany(f)`: the results for each element one after the other. */
  function FlatMap<X, Y>(xs: seq<X>, f: X -> seq<Y>): seq<Y> {
    if xs == [] then []
    else FlatMap(xs[..|xs| - 1], f) + f(xs[|xs| - 1])
  }

  lemma FlatMapSnoc<X, Y>(xs: seq<X>, x: X, f: X -> seq<Y>)
    ensures FlatMap(xs + [x], f) == FlatMap(xs, f) + f(x)
  {
    assert (xs + [x])[..|xs|] == xs;
  }

  lemma {:induction false} FlatMapCons<X, Y>(x: X, xs: seq<X>, f: X -> seq<Y>)
    ensures FlatMap([x] + xs, f) == f(x) + FlatMap(xs, f)
    decreases |xs|
  {
    if xs == [] {
      assert ([x] + xs)[..0] == [];
    } else {
      var init := xs[..|xs| - 1];
      assert ([x] + xs)[..|xs|] == [x] + init;
      FlatMapCons(x, init, f);
    }
  }

  /** `xs.SelectMany(f)` run eagerly from left to right where `f` may throw: the results
      one after the other, or the exception of the first element `f` fails on. */
  function TryFlatMap<X, Y, E>(xs: seq<X>, f: X -> Result<seq<Y>, E>): Result<seq<Y>, E> {
    if xs == [] then Success([])
    else
      var before :- TryFlatMap(xs[..|xs| - 1], f);
      var last :- f(xs[|xs| - 1]);
      Success(before + last)
  }

  /** Running over two stretches one after the other: it succeeds when both do,
      concatenating their results, and a failure in the first stretch is the one reported. */
  lemma {:induction false} TryFlatMapAppend<X, Y, E>(xs: seq<X>, ys: seq<X>, f: X -> Result<seq<Y>, E>)
    ensures TryFlatMap(xs + ys, f).Success? <==> TryFlatMap(xs, f).Success? && TryFlatMap(ys, f).Success?
    ensures TryFlatMap(xs + ys, f).Success? ==>
      TryFlatMap(xs + ys, f).value == TryFlatMap(xs, f).value + TryFlatMap(ys, f).value
    ensures TryFlatMap(xs, f).Failure? ==> TryFlatMap(xs + ys, f) == TryFlatMap(xs, f)
    decreases |ys|
  {
    if ys == [] {
      assert xs + ys == xs;
    } else {
      var init := ys[..|ys| - 1];
      assert (xs + ys)[..|xs + ys| - 1] == xs + init;
      assert (xs + ys)[|xs + ys| - 1] == ys[|ys| - 1];
      TryFlatMapAppend(xs, init, f);
    }
  }

  /** A failure within a prefix is the failure of the whole run. */
  lemma TryFlatMapPrefixFailure<X, Y, E>(xs: seq<X>, j: nat, f: X -> Result<seq<Y>, E>)
    requires j <= |xs| && TryFlatMap(xs[..j], f).Failure?
    ensures TryFlatMap(xs, f) == TryFlatMap(xs[..j], f)
  {
    assert xs == xs[..j] + xs[j..];
    TryFlatMapAppend(xs[..j], xs[j..], f);
  }

  lemma TryFlatMapSingle<X, Y, E>(x: X, f: X -> Result<seq<Y>, E>)
    ensures TryFlatMap([x], f) == f(x)
  {
    assert [x][..0] == [];
    if f(x).Success? {
      assert [] + f(x).value == f(x).value;
    }
  }

  /** A successful run is, element by element in order, each element's results. */
  lemma TryFlatMapSplit<X, Y, E>(xs: seq<X>, f: X -> Result<seq<Y>, E>, j: nat)
    requires TryFlatMap(xs, f).Success? && j < |xs|
    ensures TryFlatMap(xs[..j], f).Success? && f(xs[j]).Success? && TryFlatMap(xs[j + 1..], f).Success?
    ensures TryFlatMap(xs, f).value ==
      TryFlatMap(xs[..j], f).value + f(xs[j]).value + TryFlatMap(xs[j + 1..], f).value
  {
    Decompose(xs, j);
    TryFlatMapAppend(xs[..j] + [xs[j]], xs[j + 1..], f);
    TryFlatMapAppend(xs[..j], [xs[j]], f);
    TryFlatMapSingle(xs[j], f);
  }

  /** A failing run reports the exception of the first element `f` fails on. */
  lemma {:induction false} TryFlatMapFailFirst<X, Y, E>(xs: seq<X>, f: X -> Result<seq<Y>, E>)
    requires TryFlatMap(xs, f).Failure?
    ensures exists j ::
      && 0 <= j < |xs|
      && f(xs[j]) == Failure(TryFlatMap(xs, f).error)
      && forall i :: 0 <= i < j ==> f(xs[i]).Success?
  {
    var init := xs[..|xs| - 1];
    if TryFlatMap(init, f).Failure? {
      TryFlatMapFailFirst(init, f);
      var j :| 0 <= j < |init| && f(init[j]) == Failure(TryFlatMap(init, f).error)
        && forall i :: 0 <= i < j ==> f(init[i]).Success?;
      assert xs[j] == init[j];
      assert forall i :: 0 <= i < j ==> xs[i] == init[i];
    } else {
      forall i | 0 <= i < |init|
        ensures f(xs[i]).Success?
      {
        TryFlatMapSplit(init, f, i);
      }
    }
  }

  /** Position of the first occurrence of `x` in `s`, or `|s|` when it does not occur. */
  function IndexOf<T(==,!new)>(s: seq<T>, x: T): (i: nat)
    ensures i <= |s|
    ensures x !in s[..i]
    ensures i < |s| ==> s[i] == x
    ensures i == |s| <==> x !in s
  {
    if |s| == 0 then 0
    else if s[0] == x then 0
    else
      var j := IndexOf(s[1..], x);
      assert s[..1 + j] == [s[0]] + s[1..][..j];
      1 + j
  }

  /** LINQ `SelectMany(a => a)`: the inner sequences one after the other. */
  function Flatten<T(!new)>(ss: seq<seq<T>>): (r: seq<T>)
    ensures forall x :: x in r <==> exists i :: 0 <= i < |ss| && x in ss[i]
  {
    if ss == [] then []
    else
      var rest := Flatten(ss[1..]);
      assert forall i :: 1 <= i < |ss| ==> ss[i] == ss[1..][i - 1];
      ss[0] + rest
  }
  /** `SelectMany` keeps the lists' order: flattening two runs of lists concatenates their
      flattenings. */
  lemma {:induction false} FlattenAppend<T(!new)>(ss: seq<seq<T>>, ts: seq<seq<T>>)
    ensures Flatten(ss + ts) == Flatten(ss) + Flatten(ts)
  {
    if ss == [] {
      assert ss + ts == ts;
    } else {
      assert (ss + ts)[0] == ss[0] && (ss + ts)[1..] == ss[1..] + ts;
      FlattenAppend(ss[1..], ts);
      AppendAssoc(ss[0], Flatten(ss[1..]), Flatten(ts));
    }
  }

  /** Flattening one more list appends that list's elements at the end, in order. */
  lemma FlattenSnoc<T(!new)>(ss: seq<seq<T>>, s: seq<T>)
    ensures Flatten(ss + [s]) == Flatten(ss) + s
  {
    FlattenAppend(ss, [s]);
    assert Flatten([s]) == s + Flatten([]);
  }


  predicate NoDuplicates<T(==,!new)>(s: seq<T>) {
    forall i, j :: 0 <= i < j < |s| ==> s[i] != s[j]
  }

  /** LINQ `Distinct` continued from the already yielded elements `seen`: `s` is walked
      from left to right and an element is yielded the first time it is met. */
  function AddNew<T(==,!new)>(seen: seq<T>, s: seq<T>): (r: seq<T>)
    ensures NoDuplicates(seen) ==> NoDuplicates(r)
    ensures forall x :: x in r <==> x in seen || x in s
    ensures |seen| <= |r| && r[..|seen|] == seen
    decreases |s|
  {
    if s == [] then seen
    else
      var next := if s[0] in seen then seen else seen + [s[0]];
      assert forall x :: x in s <==> x == s[0] || x in s[1..];
      var r := AddNew(next, s[1..]);
      assert r[..|seen|] == r[..|next|][..|seen|];
      r
  }

  /** LINQ `Distinct`: the first occurrence of every element, in order. */
  function Distinct<T(==,!new)>(s: seq<T>): (r: seq<T>)
    ensures NoDuplicates(r)
    ensures forall x :: x in r <==> x in s
  {
    AddNew([], s)
  }

  lemma {:induction false} AddNewAppend<T(!new)>(seen: seq<T>, s: seq<T>, t: seq<T>)
    ensures AddNew(seen, s + t) == AddNew(AddNew(seen, s), t)
    decreases |s|
  {
    if s != [] {
      assert (s + t)[0] == s[0] && (s + t)[1..] == s[1..] + t;
      var next := if s[0] in seen then seen else seen + [s[0]];
      AddNewAppend(next, s[1..], t);
    } else {
      assert s + t == t;
    }
  }

  /** Adding one element at the end either changes nothing or appends it. */
  lemma AddNewSnoc<T(!new)>(seen: seq<T>, s: seq<T>, x: T)
    ensures AddNew(seen, s + [x]) ==
      var r := AddNew(seen, s); if x in r then r else r + [x]
  {
    AddNewAppend(seen, s, [x]);
    var r := AddNew(seen, s);
    assert [x][1..] == [];
  }

  lemma DistinctSnoc<T(!new)>(s: seq<T>, x: T)
    ensures Distinct(s + [x]) == if x in s then Distinct(s) else Distinct(s) + [x]
  {
    AddNewSnoc([], s, x);
  }

  /** Elements already yielded are skipped. */
  lemma {:induction false} AddNewSubsumed<T(!new)>(seen: seq<T>, s: seq<T>)
    requires forall x :: x in s ==> x in seen
    ensures AddNew(seen, s) == seen
    decreases |s|
  {
    if s != [] {
      assert s[0] in seen;
      AddNewSubsumed(seen, s[1..]);
    }
  }

  /** Deduplicating a sequence before feeding it to `Distinct` changes nothing. */
  lemma {:induction false} AddNewDistinct<T(!new)>(seen: seq<T>, s: seq<T>)
    ensures AddNew(seen, Distinct(s)) == AddNew(seen, s)
    decreases |s|
  {
    if s == [] {
    } else {
      var init, x := s[..|s| - 1], s[|s| - 1];
      assert s == init + [x];
      AddNewDistinct(seen, init);
      DistinctSnoc(init, x);
      AddNewSnoc(seen, init, x);
      if x !in init {
        AddNewSnoc(seen, Distinct(init), x);
      }
    }
  }

  /** `Distinct(s) == s` exactly when `s` has no duplicates. */
  lemma {:induction false} DistinctOfNoDuplicates<T(!new)>(s: seq<T>)
    ensures Distinct(s) == s <==> NoDuplicates(s)
  {
    if NoDuplicates(s) && s != [] {
      var init, x := s[..|s| - 1], s[|s| - 1];
      assert s == init + [x];
      assert NoDuplicates(init);
      DistinctOfNoDuplicates(init);
      DistinctSnoc(init, x);
    }
  }

  lemma DistinctIdempotent<T(!new)>(s: seq<T>)
    ensures Distinct(Distinct(s)) == Distinct(s)
  {
    DistinctOfNoDuplicates(Distinct(s));
  }

  /** The yielded elements keep the order of their first occurrences in the input. */
  lemma {:induction false} DistinctKeepsFirstOccurrenceOrder<T(!new)>(s: seq<T>, i: nat, j: nat)
    requires i < j < |Distinct(s)|
    ensures IndexOf(s, Distinct(s)[i]) < IndexOf(s, Distinct(s)[j])
  {
    var init, x := s[..|s| - 1], s[|s| - 1];
    assert s == init + [x];
    DistinctSnoc(init, x);
    var d := Distinct(init);
    assert Distinct(s)[i] == d[i] && d[i] in init;
    IndexOfPrefix(init, x, d[i]);
    if j < |d| {
      assert Distinct(s)[j] == d[j];
      IndexOfPrefix(init, x, d[j]);
      DistinctKeepsFirstOccurrenceOrder(init, i, j);
    } else {
      assert Distinct(s)[j] == x && x !in init;
      assert s[..|init|] == init;
      IndexOfUnique(s, x, |init|);
    }
  }

  /** `IndexOf` is the only position holding `x` with no `x` before it. */
  lemma IndexOfUnique<T(!new)>(s: seq<T>, x: T, i: nat)
    requires i < |s| && s[i] == x && x !in s[..i]
    ensures IndexOf(s, x) == i
  {
    assert s[..i + 1][i] == x;
  }

  lemma IndexOfPrefix<T(!new)>(s: seq<T>, x: T, y: T)
    requires y in s
    ensures IndexOf(s + [x], y) == IndexOf(s, y) < |s|
  {
    var i := IndexOf(s, y);
    assert (s + [x])[..i] == s[..i];
    IndexOfUnique(s + [x], y, i);
  }

  /** Taking the first occurrences in two stages, or at once, gives the same sequence. */
  lemma DistinctOfDistinctPrefix<T(!new)>(a: seq<T>, b: seq<T>)
    ensures Distinct(Distinct(a) + b) == Distinct(a + b)
  {
    AddNewAppend([], Distinct(a), b);
    AddNewAppend([], a, b);
    AddNewDistinct([], a);
  }

  /** Gathering the same sequence twice in a row yields nothing new. */
  lemma DistinctRepeated<T(!new)>(a: seq<T>, b: seq<T>)
    ensures Distinct(a + a + b) == Distinct(a + b)
  {
    AddNewAppend([], a + a, b);
    AddNewAppend([], a, a);
    AddNewSubsumed(Distinct(a), a);
    AddNewAppend([], a, b);
  }
}
