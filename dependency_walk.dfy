/** The base-class walk of the dependency generator, as a specification: which classes the
    `while (currentClass != null)` loop visits, and when that loop terminates at all. */
module DependencyWalk {
  import opened Wrappers
  import opened Syntax

  /** The loop state: the class being looked at and the semantic model used to resolve
      names in it. */
  datatype Cursor = Cursor(cls: ClassDecl, model: SemanticModel)

  /** What one iteration does to the loop state: leave the loop, keep the SAME state (the
      base type does not resolve to a named type), or move to the base class. */
  datatype Step = Stop | Stay | Advance(next: Cursor)

  /** The loop starts at the candidate, with the semantic model of its own file. */
  function Start(c: ClassDecl): Cursor {
    Cursor(c, c.tree)
  }

  /** `BaseList?.Types.FirstOrDefault()?.Type`: only the first base-list entry is followed. */
  function FirstBaseType(c: ClassDecl): (r: Option<TypeRef>)
    ensures r.None? <==> c.baseTypes == []
    ensures r.Some? ==> r.value == c.baseTypes[0]
  {
    if c.baseTypes == [] then None else Some(c.baseTypes[0])
  }

  function NextStep(comp: Compilation, cur: Cursor): Step {
    match FirstBaseType(cur.cls)
    case None => Stop
    case Some(baseType) =>
      match comp.symbolOf(cur.model, baseType)
      case NotNamedType => Stay
      case NamedType(refs) =>
        if refs == [] then Stop
        else match refs[0].node
          case ClassDeclaration(parent) => Advance(Cursor(parent, refs[0].tree))
          case OtherNode => Stop
  }

  /** The loop state after an iteration that does not leave the loop. */
  function Successor(comp: Compilation, cur: Cursor): Cursor
    requires !NextStep(comp, cur).Stop?
  {
    match NextStep(comp, cur)
    case Stay => cur
    case Advance(next) => next
  }

  /** The states the loop visits, in order, if it leaves the loop within `fuel` iterations;
      `None` otherwise. */
  function Walk(comp: Compilation, cur: Cursor, fuel: nat): (w: Option<seq<Cursor>>)
    ensures w.Some? ==> 1 <= |w.value| <= fuel && w.value[0] == cur
    decreases fuel
  {
    if fuel == 0 then None
    else if NextStep(comp, cur).Stop? then Some([cur])
    else
      match Walk(comp, Successor(comp, cur), fuel - 1)
      case None => None
      case Some(rest) => Some([cur] + rest)
  }

  /** The loop started in `cur` ends within `fuel` iterations. */
  predicate Halts(comp: Compilation, cur: Cursor, fuel: nat) {
    Walk(comp, cur, fuel).Some?
  }

  /** Consecutive visited states are related by one iteration, and the last one leaves the
      loop. */
  lemma {:induction false} WalkShape(comp: Compilation, cur: Cursor, fuel: nat)
    requires Halts(comp, cur, fuel)
    ensures var w := Walk(comp, cur, fuel).value;
      && NextStep(comp, w[|w| - 1]).Stop?
      && forall k :: 0 <= k < |w| - 1 ==> !NextStep(comp, w[k]).Stop? && w[k + 1] == Successor(comp, w[k])
    decreases fuel
  {
    var w := Walk(comp, cur, fuel).value;
    if !NextStep(comp, cur).Stop? {
      var next := Successor(comp, cur);
      WalkShape(comp, next, fuel - 1);
      var rest := Walk(comp, next, fuel - 1).value;
      assert w == [cur] + rest;
      assert forall k :: 1 <= k < |w| ==> w[k] == rest[k - 1];
    }
  }

  /** One iteration of the loop along a walk that ends: the `k`-th state leaves the loop
      exactly when it is the last one, and otherwise the next visited state is its
      successor. */
  lemma WalkStep(comp: Compilation, cur: Cursor, fuel: nat, k: nat)
    requires Halts(comp, cur, fuel) && k < |Walk(comp, cur, fuel).value|
    ensures var w := Walk(comp, cur, fuel).value;
      && (NextStep(comp, w[k]).Stop? <==> k == |w| - 1)
      && (k < |w| - 1 ==> w[k + 1] == Successor(comp, w[k]))
  {
    WalkShape(comp, cur, fuel);
  }

  /** More fuel does not change a walk that already ended. */
  lemma {:induction false} WalkFuelIrrelevant(comp: Compilation, cur: Cursor, fuel: nat, more: nat)
    requires Halts(comp, cur, fuel) && fuel <= more
    ensures Walk(comp, cur, more) == Walk(comp, cur, fuel)
    decreases fuel
  {
    if !NextStep(comp, cur).Stop? {
      WalkFuelIrrelevant(comp, Successor(comp, cur), fuel - 1, more - 1);
    }
  }

  /** The state reached after `k` iterations, or `None` if the loop was left before. */
  function Reach(comp: Compilation, cur: Cursor, k: nat): Option<Cursor>
    decreases k
  {
    if k == 0 then Some(cur)
    else if NextStep(comp, cur).Stop? then None
    else Reach(comp, Successor(comp, cur), k - 1)
  }

  /** Once `k` iterations have reached `d`, the loop ends within `fuel` iterations exactly
      when it ends within `fuel - k` iterations from `d`. */
  lemma {:induction false} HaltsAfterReach(comp: Compilation, cur: Cursor, k: nat, fuel: nat)
    requires Reach(comp, cur, k).Some?
    ensures Halts(comp, cur, fuel) <==> fuel > k && Halts(comp, Reach(comp, cur, k).value, fuel - k)
    decreases k
  {
    if k > 0 && fuel > 0 {
      HaltsAfterReach(comp, Successor(comp, cur), k - 1, fuel - 1);
    }
  }

  /** A walk that comes back to a state it has been in never ends: a cyclic base-class
      graph makes the generator loop forever. */
  lemma {:induction false} CycleNeverHalts(comp: Compilation, cur: Cursor, k: nat, fuel: nat)
    requires k >= 1 && Reach(comp, cur, k) == Some(cur)
    ensures !Halts(comp, cur, fuel)
    decreases fuel
  {
    HaltsAfterReach(comp, cur, k, fuel);
    if fuel > k {
      CycleNeverHalts(comp, cur, k, fuel - k);
    }
  }

  /** A walk that reaches a state from which it comes back to that state never ends, even
      when the cycle does not pass through the starting state (A, B, C, B, ...). */
  lemma ReachedCycleNeverHalts(comp: Compilation, cur: Cursor, j: nat, x: Cursor, k: nat, fuel: nat)
    requires Reach(comp, cur, j) == Some(x)
    requires k >= 1 && Reach(comp, x, k) == Some(x)
    ensures !Halts(comp, cur, fuel)
  {
    HaltsAfterReach(comp, cur, j, fuel);
    if fuel > j {
      CycleNeverHalts(comp, x, k, fuel - j);
    }
  }

  /** A base type that does not resolve to a named type leaves `currentClass` unchanged,
      so the loop repeats the same iteration forever. */
  lemma StayNeverHalts(comp: Compilation, cur: Cursor, fuel: nat)
    requires NextStep(comp, cur).Stay?
    ensures !Halts(comp, cur, fuel)
  {
    assert Reach(comp, cur, 1) == Reach(comp, cur, 0) == Some(cur);
    CycleNeverHalts(comp, cur, 1, fuel);
  }

  /** The termination condition: the loop ends exactly when, after some number of
      iterations, it reaches a class whose base does not lead to another class declaration
      (no base list, a type without declaring syntax, or a declaration that is not a class). */
  lemma HaltsIffReachesStop(comp: Compilation, cur: Cursor, fuel: nat)
    ensures Halts(comp, cur, fuel) <==>
      exists k: nat :: k < fuel && Reach(comp, cur, k).Some? && NextStep(comp, Reach(comp, cur, k).value).Stop?
  {
    if Halts(comp, cur, fuel) {
      var w := Walk(comp, cur, fuel).value;
      WalkShape(comp, cur, fuel);
      ReachAlongWalk(comp, cur, fuel, |w| - 1);
    } else if exists k: nat :: k < fuel && Reach(comp, cur, k).Some? && NextStep(comp, Reach(comp, cur, k).value).Stop? {
      var k: nat :| k < fuel && Reach(comp, cur, k).Some? && NextStep(comp, Reach(comp, cur, k).value).Stop?;
      HaltsAfterReach(comp, cur, k, fuel);
      assert Walk(comp, Reach(comp, cur, k).value, fuel - k) == Some([Reach(comp, cur, k).value]);
    }
  }

  /** The `k`-th visited state is the state reached after `k` iterations. */
  lemma {:induction false} ReachAlongWalk(comp: Compilation, cur: Cursor, fuel: nat, k: nat)
    requires Halts(comp, cur, fuel) && k < |Walk(comp, cur, fuel).value|
    ensures Reach(comp, cur, k) == Some(Walk(comp, cur, fuel).value[k])
    decreases k
  {
    if k > 0 {
      var w := Walk(comp, cur, fuel).value;
      var next := Successor(comp, cur);
      var rest := Walk(comp, next, fuel - 1).value;
      assert w == [cur] + rest;
      ReachAlongWalk(comp, next, fuel - 1, k - 1);
    }
  }
}
