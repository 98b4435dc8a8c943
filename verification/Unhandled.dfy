/**
 * What becomes of operators the Elasticsearch compiler does not know: when they
 * can be crossed out of the expression, and when they are not harmless.
 */
module Unhandled {
  import opened Wrappers
  import opened Sql
  import E = Elastic
  import M = Mongo

  predicate QueryMatches(e: Tree, row: Row) {
    var q := E.HandleSelectWhere(e, true, Nil);
    q.Success? && |q.value| == 1 && E.Matches(q.value[0], row)
  }

  predicate OnlyUnhandled(e: Tree) {
    match e
    case And(l, r) => OnlyUnhandled(l) && OnlyUnhandled(r)
    case Or(l, r) => OnlyUnhandled(l) && OnlyUnhandled(r)
    case Paren(x) => OnlyUnhandled(x)
    case _ => E.Unhandled(e)
  }

  /** The expression with its unknown comparisons crossed out. */
  function CrossedOut(e: Tree): Tree {
    match e
    case And(l, r) =>
      if OnlyUnhandled(l) then CrossedOut(r) else if OnlyUnhandled(r) then CrossedOut(l)
      else And(CrossedOut(l), CrossedOut(r))
    case Or(l, r) =>
      if OnlyUnhandled(l) then CrossedOut(r) else if OnlyUnhandled(r) then CrossedOut(l)
      else Or(CrossedOut(l), CrossedOut(r))
    case Paren(x) => Paren(CrossedOut(x))
    case _ => e
  }

  /** Under no OR is there an operand of unknown operators only that contains an AND. */
  predicate Harmless(e: Tree) {
    match e
    case And(l, r) => (OnlyUnhandled(l) || Harmless(l)) && (OnlyUnhandled(r) || Harmless(r))
    case Or(l, r) =>
      && (if OnlyUnhandled(l) then !HasAnd(l) else Harmless(l))
      && (if OnlyUnhandled(r) then !HasAnd(r) else Harmless(r))
    case Paren(x) => Harmless(x)
    case _ => true
  }

  predicate HasAnd(e: Tree) {
    match e
    case And(_, _) => true
    case Or(l, r) => HasAnd(l) || HasAnd(r)
    case Paren(x) => HasAnd(x)
    case _ => false
  }

  /** The same connectives and unknown comparisons, with any supported comparisons in the other places. */
  predicate SameShape(e: Tree, f: Tree) {
    match e
    case And(l, r) => f.And? && SameShape(l, f.left) && SameShape(r, f.right)
    case Or(l, r) => f.Or? && SameShape(l, f.left) && SameShape(r, f.right)
    case Paren(x) => f.Paren? && SameShape(x, f.expr)
    case _ => if E.Unhandled(e) then f == e else (f.Comparison? || f.RangeCond?) && Supported(f)
  }

  // ---------- groups of unknown operators ----------

  /** Under an OR such a group vanishes exactly when there is no AND in it. */
  lemma {:induction false} VanishesUnderOr(e: Tree, parent: Tree)
    requires parent.Or?
    ensures E.Vanishes(e, false, parent) <==> OnlyUnhandled(e) && !HasAnd(e)
  {
    match e
    case Or(l, r) =>
      VanishesUnderOr(l, e);
      VanishesUnderOr(r, e);
    case Paren(x) => VanishesUnderOr(x, parent);
    case _ =>
  }

  /** Left to itself such a group selects everything. */
  lemma {:induction false} OnlyUnhandledSelected(e: Tree, row: Row)
    requires OnlyUnhandled(e)
    ensures E.Selected(e, row) && E.Compilable(e)
  {
    match e
    case And(l, r) =>
      OnlyUnhandledSelected(l, row);
      OnlyUnhandledSelected(r, row);
    case Or(l, r) =>
      OnlyUnhandledSelected(l, row);
      OnlyUnhandledSelected(r, row);
    case Paren(x) => OnlyUnhandledSelected(x, row);
    case _ =>
  }

  /** A query of nothing but unknown operators matches every document. */
  lemma MatchesEverything(e: Tree, row: Row)
    requires OnlyUnhandled(e)
    ensures QueryMatches(e, row)
  {
    OnlyUnhandledSelected(e, row);
    E.QueryMeans(e, row);
  }

  /** An OR with an AND of unknown operators beside it matches every document as well. */
  lemma OrOfAndMatchesEverything(other: Tree, u: Tree, v: Tree, row: Row)
    requires E.Compilable(other) && E.Unhandled(u) && E.Unhandled(v)
    ensures QueryMatches(Or(other, And(u, v)), row)
  {
    var e := Or(other, And(u, v));
    OrOfAndSelected(other, u, v, row);
    E.QueryMeans(e, row);
  }

  /** a = 1 OR b REGEXP 'x' AND c REGEXP 'y' finds a row in which all three fail. */
  lemma FilterLost() returns (e: Tree, row: Row)
    ensures e == Or(Comparison(Eq, ColName("a"), SQLVal(IntVal(1)), Nil),
                    And(Comparison(OtherOp("regexp"), ColName("b"), SQLVal(StrVal("x")), Nil),
                        Comparison(OtherOp("regexp"), ColName("c"), SQLVal(StrVal("y")), Nil)))
    ensures QueryMatches(e, row) && !Holds(e.left, row) && !Holds(e.right.left, row) && !Holds(e.right.right, row)
  {
    e := Or(Comparison(Eq, ColName("a"), SQLVal(IntVal(1)), Nil),
            And(Comparison(OtherOp("regexp"), ColName("b"), SQLVal(StrVal("x")), Nil),
                Comparison(OtherOp("regexp"), ColName("c"), SQLVal(StrVal("y")), Nil)));
    row := Row(_ => None, (_, _) => false, (_, _, _) => false);
    OrOfAndMatchesEverything(e.left, e.right.left, e.right.right, row);
  }

  // ---------- crossing out is faithful exactly for harmless expressions ----------

  lemma {:induction false} HarmlessSelected(e: Tree, row: Row)
    requires E.Compilable(e) && !OnlyUnhandled(e) && Harmless(e)
    ensures E.Selected(e, row) == Holds(CrossedOut(e), row)
  {
    match e
    case And(l, r) =>
      if OnlyUnhandled(l) { OnlyUnhandledSelected(l, row); } else { HarmlessSelected(l, row); }
      if OnlyUnhandled(r) { OnlyUnhandledSelected(r, row); } else { HarmlessSelected(r, row); }
    case Or(l, r) =>
      VanishesUnderOr(l, e);
      VanishesUnderOr(r, e);
      if !OnlyUnhandled(l) { HarmlessSelected(l, row); }
      if !OnlyUnhandled(r) { HarmlessSelected(r, row); }
    case Paren(x) => HarmlessSelected(x, row);
    case _ =>
  }

  /** With their unknown comparisons crossed out, harmless expressions keep their meaning. */
  lemma HarmlessPreserved(e: Tree, row: Row)
    requires E.Compilable(e) && !OnlyUnhandled(e) && Harmless(e)
    ensures QueryMatches(e, row) == Holds(CrossedOut(e), row)
  {
    HarmlessSelected(e, row);
    E.QueryMeans(e, row);
  }

  lemma {:induction false} ShapeKeeps(e: Tree, f: Tree)
    requires E.Compilable(e) && SameShape(e, f)
    ensures E.Compilable(f) && OnlyUnhandled(f) == OnlyUnhandled(e) && HasAnd(f) == HasAnd(e)
    ensures Harmless(f) == Harmless(e) && Supported(f) == Supported(e)
  {
    match e
    case And(l, r) => ShapeKeeps(l, f.left); ShapeKeeps(r, f.right);
    case Or(l, r) => ShapeKeeps(l, f.left); ShapeKeeps(r, f.right);
    case Paren(x) => ShapeKeeps(x, f.expr);
    case _ =>
  }

  const PROBE := "probe"

  /** A comparison that holds in the rows below, or fails there. */
  function Leaf(b: bool): Tree {
    Comparison(Eq, ColName(PROBE), SQLVal(BoolVal(b)), Nil)
  }

  const PRESENT: string -> Option<Value> := _ => Some(BoolVal(true))
  const NO_PATTERN: (string, string) -> bool := (_, _) => false

  /** A row in which the true leaf holds and the false one does not, with all other operators alike. */
  function ProbeRow(other: bool): Row {
    Row(PRESENT, NO_PATTERN, (_, _, _) => other)
  }

  lemma LeafHolds(b: bool, other: bool)
    ensures Supported(Leaf(b)) && !E.Unhandled(Leaf(b)) && Holds(Leaf(b), ProbeRow(other)) == b
  {
  }

  function Filled(e: Tree, b: bool): Tree {
    match e
    case And(l, r) => And(Filled(l, b), Filled(r, b))
    case Or(l, r) => Or(Filled(l, b), Filled(r, b))
    case Paren(x) => Paren(Filled(x, b))
    case _ => if E.Unhandled(e) then e else Leaf(b)
  }

  lemma {:induction false} FilledShape(e: Tree, b: bool)
    requires E.Compilable(e)
    ensures SameShape(e, Filled(e, b))
  {
    match e
    case And(l, r) => FilledShape(l, b); FilledShape(r, b);
    case Or(l, r) => FilledShape(l, b); FilledShape(r, b);
    case Paren(x) => FilledShape(x, b);
    case _ =>
  }

  lemma {:induction false} FilledSelected(e: Tree, other: bool)
    requires E.Compilable(e)
    ensures E.Selected(Filled(e, true), ProbeRow(other))
  {
    match e
    case And(l, r) => FilledSelected(l, other); FilledSelected(r, other);
    case Or(l, r) => FilledSelected(l, other); FilledSelected(r, other);
    case Paren(x) => FilledSelected(x, other);
    case _ => LeafHolds(true, other);
  }

  lemma {:induction false} FilledCrossedOut(e: Tree, b: bool, other: bool)
    requires E.Compilable(e) && !OnlyUnhandled(e)
    ensures Holds(CrossedOut(Filled(e, b)), ProbeRow(other)) == b
  {
    FilledShape(e, b);
    ShapeKeeps(e, Filled(e, b));
    match e
    case And(l, r) =>
      FilledSides(l, r, b);
      if !OnlyUnhandled(l) { FilledCrossedOut(l, b, other); }
      if !OnlyUnhandled(r) { FilledCrossedOut(r, b, other); }
    case Or(l, r) =>
      FilledSides(l, r, b);
      if !OnlyUnhandled(l) { FilledCrossedOut(l, b, other); }
      if !OnlyUnhandled(r) { FilledCrossedOut(r, b, other); }
    case Paren(x) => FilledCrossedOut(x, b, other);
    case _ => LeafHolds(b, other);
  }

  lemma FilledSides(l: Tree, r: Tree, b: bool)
    requires E.Compilable(l) && E.Compilable(r)
    ensures OnlyUnhandled(Filled(l, b)) == OnlyUnhandled(l) && OnlyUnhandled(Filled(r, b)) == OnlyUnhandled(r)
  {
    FilledShape(l, b);
    FilledShape(r, b);
    ShapeKeeps(l, Filled(l, b));
    ShapeKeeps(r, Filled(r, b));
  }

  /** A filling in which the query selects a row that the crossed-out expression does not. */
  function Spoiled(e: Tree): Tree {
    match e
    case And(l, r) =>
      if !OnlyUnhandled(l) && !Harmless(l) then And(Spoiled(l), Filled(r, true)) else And(Filled(l, true), Spoiled(r))
    case Or(l, r) =>
      if !OnlyUnhandled(l) && !Harmless(l) then Or(Spoiled(l), Filled(r, false))
      else if !OnlyUnhandled(r) && !Harmless(r) then Or(Filled(l, false), Spoiled(r))
      else Or(Filled(l, false), Filled(r, false))
    case Paren(x) => Paren(Spoiled(x))
    case _ => e
  }

  lemma {:induction false} SpoiledDiffers(e: Tree)
    requires E.Compilable(e) && !OnlyUnhandled(e) && !Harmless(e)
    ensures SameShape(e, Spoiled(e))
    ensures E.Selected(Spoiled(e), ProbeRow(false)) && !Holds(CrossedOut(Spoiled(e)), ProbeRow(false))
  {
    match e
    case And(l, r) => SpoiledAnd(l, r);
    case Or(l, r) => SpoiledOr(l, r);
    case Paren(x) => SpoiledDiffers(x);
  }

  lemma {:induction false} SpoiledAnd(l: Tree, r: Tree)
    requires E.Compilable(l) && E.Compilable(r)
    requires !OnlyUnhandled(And(l, r)) && !Harmless(And(l, r))
    ensures SameShape(And(l, r), Spoiled(And(l, r)))
    ensures E.Selected(Spoiled(And(l, r)), ProbeRow(false))
    ensures !Holds(CrossedOut(Spoiled(And(l, r))), ProbeRow(false))
    decreases And(l, r), 0
  {
    FilledShape(l, true);
    FilledShape(r, true);
    FilledSelected(l, false);
    FilledSelected(r, false);
    if !OnlyUnhandled(l) && !Harmless(l) {
      SpoiledDiffers(l);
      ShapeKeeps(l, Spoiled(l));
    } else {
      SpoiledDiffers(r);
      ShapeKeeps(r, Spoiled(r));
    }
  }

  lemma {:induction false} SpoiledOr(l: Tree, r: Tree)
    requires E.Compilable(l) && E.Compilable(r)
    requires !OnlyUnhandled(Or(l, r)) && !Harmless(Or(l, r))
    ensures SameShape(Or(l, r), Spoiled(Or(l, r)))
    ensures E.Selected(Spoiled(Or(l, r)), ProbeRow(false))
    ensures !Holds(CrossedOut(Spoiled(Or(l, r))), ProbeRow(false))
    decreases Or(l, r), 0
  {
    var f := Spoiled(Or(l, r));
    FilledShape(l, false);
    FilledShape(r, false);
    if !OnlyUnhandled(l) { FilledCrossedOut(l, false, false); }
    if !OnlyUnhandled(r) { FilledCrossedOut(r, false, false); }
    if !OnlyUnhandled(l) && !Harmless(l) {
      SpoiledDiffers(l);
    } else if !OnlyUnhandled(r) && !Harmless(r) {
      SpoiledDiffers(r);
    }
    ShapeKeeps(l, f.left);
    ShapeKeeps(r, f.right);
    VanishesUnderOr(f.left, f);
    VanishesUnderOr(f.right, f);
    if OnlyUnhandled(l) { OnlyUnhandledSelected(f.left, ProbeRow(false)); }
    if OnlyUnhandled(r) { OnlyUnhandledSelected(f.right, ProbeRow(false)); }
  }

  /**
   * Whatever comparisons stand in the other places, the query selects the rows of
   * the expression with its unknown comparisons crossed out, iff it is harmless.
   */
  lemma CrossedOutExactly(e: Tree)
    requires E.Compilable(e) && !OnlyUnhandled(e)
    ensures (forall f: Tree, row: Row | SameShape(e, f) :: QueryMatches(f, row) == Holds(CrossedOut(f), row))
        <==> Harmless(e)
  {
    if Harmless(e) {
      forall f: Tree, row: Row | SameShape(e, f) ensures QueryMatches(f, row) == Holds(CrossedOut(f), row) {
        ShapeKeeps(e, f);
        HarmlessSelected(f, row);
        E.QueryMeans(f, row);
      }
    } else {
      SpoiledDiffers(e);
      ShapeKeeps(e, Spoiled(e));
      E.QueryMeans(Spoiled(e), ProbeRow(false));
    }
  }

  /** For single expressions there is no such rule: in x AND (x OR u AND v) the first x hides the harm. */
  lemma RedundancyHides(x: Tree, u: Tree, v: Tree, row: Row)
    requires Supported(x) && E.Unhandled(u) && E.Unhandled(v)
    ensures var e := And(x, Paren(Or(x, And(u, v))));
            !Harmless(e) && QueryMatches(e, row) == Holds(CrossedOut(e), row)
  {
    var e := And(x, Paren(Or(x, And(u, v))));
    SupportedNotOnly(x);
    E.SupportedSelected(x, false, e, row);
    HarmlessSupported(x);
    HarmlessSelected(x, row);
    OrOfAndSelected(x, u, v, row);
    var o := Or(x, And(u, v));
    assert OnlyUnhandled(o.right);
    assert HasAnd(And(u, v));
    hide Supported, E.Unhandled;
    assert !OnlyUnhandled(o) && !Harmless(o) && CrossedOut(o) == CrossedOut(x);
    assert !OnlyUnhandled(e.right) && !Harmless(e.right) && CrossedOut(e.right) == Paren(CrossedOut(x));
    assert CrossedOut(e) == And(CrossedOut(x), Paren(CrossedOut(x)));
    assert E.Selected(e, row) == E.Selected(x, row);
    E.QueryMeans(e, row);
  }

  lemma OrOfAndSelected(x: Tree, u: Tree, v: Tree, row: Row)
    requires E.Compilable(x) && E.Unhandled(u) && E.Unhandled(v)
    ensures E.Selected(Or(x, And(u, v)), row) && E.Compilable(Or(x, And(u, v)))
  {
    var e := Or(x, And(u, v));
    VanishesUnderOr(x, e);
    VanishesUnderOr(e.right, e);
    OnlyUnhandledSelected(e.right, row);
  }

  lemma {:induction false} SupportedNotOnly(e: Tree)
    requires Supported(e)
    ensures !OnlyUnhandled(e)
  {
    match e
    case And(l, r) => SupportedNotOnly(l);
    case Or(l, r) => SupportedNotOnly(l);
    case Paren(x) => SupportedNotOnly(x);
    case _ =>
  }

  lemma {:induction false} HarmlessSupported(e: Tree)
    requires Supported(e)
    ensures Harmless(e)
  {
    match e
    case And(l, r) => HarmlessSupported(l); HarmlessSupported(r);
    case Or(l, r) =>
      SupportedNotOnly(l);
      SupportedNotOnly(r);
      HarmlessSupported(l);
      HarmlessSupported(r);
    case Paren(x) => HarmlessSupported(x);
    case _ =>
  }

  // ---------- the meaning is kept exactly without unknown operators ----------

  /** A filling that holds or fails with the unknown operators. */
  function Swayed(e: Tree): Tree {
    match e
    case And(l, r) =>
      And(if Supported(l) then Filled(l, true) else Swayed(l), if Supported(r) then Filled(r, true) else Swayed(r))
    case Or(l, r) =>
      Or(if Supported(l) then Filled(l, false) else Swayed(l), if Supported(r) then Filled(r, false) else Swayed(r))
    case Paren(x) => Paren(Swayed(x))
    case _ => e
  }

  lemma {:induction false} FilledHolds(e: Tree, b: bool, other: bool)
    requires Supported(e)
    ensures Holds(Filled(e, b), ProbeRow(other)) == b && E.Compilable(e)
  {
    match e
    case And(l, r) => FilledHolds(l, b, other); FilledHolds(r, b, other);
    case Or(l, r) => FilledHolds(l, b, other); FilledHolds(r, b, other);
    case Paren(x) => FilledHolds(x, b, other);
    case _ => LeafHolds(b, other);
  }

  lemma {:induction false} SwayedHolds(e: Tree, other: bool)
    requires E.Compilable(e) && !Supported(e)
    ensures SameShape(e, Swayed(e)) && Holds(Swayed(e), ProbeRow(other)) == other
  {
    match e
    case And(l, r) =>
      FilledShape(l, true);
      FilledShape(r, true);
      if Supported(l) { FilledHolds(l, true, other); } else { SwayedHolds(l, other); }
      if Supported(r) { FilledHolds(r, true, other); } else { SwayedHolds(r, other); }
    case Or(l, r) =>
      FilledShape(l, false);
      FilledShape(r, false);
      if Supported(l) { FilledHolds(l, false, other); } else { SwayedHolds(l, other); }
      if Supported(r) { FilledHolds(r, false, other); } else { SwayedHolds(r, other); }
    case Paren(x) => SwayedHolds(x, other);
    case _ =>
  }

  /** The query does not look at unknown operators at all. */
  lemma {:induction false} SelectedUnswayed(e: Tree, a: Row, b: Row)
    requires E.Compilable(e) && a.value == b.value && a.like == b.like
    ensures E.Selected(e, a) == E.Selected(e, b)
  {
    match e
    case And(l, r) => SelectedUnswayed(l, a, b); SelectedUnswayed(r, a, b);
    case Or(l, r) => SelectedUnswayed(l, a, b); SelectedUnswayed(r, a, b);
    case Paren(x) => SelectedUnswayed(x, a, b);
    case _ =>
  }

  /** Whatever comparisons stand in the other places, the query keeps the meaning iff no operator is unknown. */
  lemma MeaningKeptExactly(e: Tree)
    requires E.Compilable(e)
    ensures (forall f: Tree, row: Row | SameShape(e, f) :: QueryMatches(f, row) == Holds(f, row)) <==> Supported(e)
  {
    if Supported(e) {
      forall f: Tree, row: Row | SameShape(e, f) ensures QueryMatches(f, row) == Holds(f, row) {
        ShapeKeeps(e, f);
        E.QueryPreserved(f, row);
      }
    } else {
      var f := Swayed(e);
      SwayedHolds(e, true);
      SwayedHolds(e, false);
      ShapeKeeps(e, f);
      var yes, no := ProbeRow(true), ProbeRow(false);
      SelectedUnswayed(f, yes, no);
      E.QueryMeans(f, yes);
      E.QueryMeans(f, no);
    }
  }

  // ---------- the same in MongoDB ----------

  /** Alone, an unknown operator becomes the empty document, which matches every row. */
  lemma EmptyDocument(u: Tree, row: Row)
    requires E.Unhandled(u)
    ensures M.Compiled(u) == Success(M.Filter([])) && M.Matches(M.Filter([]), row)
  {
  }

  /** Beside another condition it is left out of the list, under AND and under OR. */
  lemma LeftOutOfDocument(e: Tree, u: Tree, row: Row)
    requires M.Expressible(e) && !M.HasNotBetween(e) && E.Unhandled(u)
    ensures forall f | f in {And(e, u), And(u, e), Or(e, u), Or(u, e)} ::
              M.Compiled(f).Success? && M.Matches(M.Compiled(f).value, row) == Holds(e, row)
  {
    M.DocumentPreserved(e, row);
    EmptyDocument(u, row);
    hide Holds, E.Unhandled, M.Expressible, M.Singles, M.Only;
    OneOfTwo(M.AND, M.Compiled(e).value, row);
    OneOfTwo(M.OR, M.Compiled(e).value, row);
  }

  lemma OneOfTwo(key: string, d: M.Filter, row: Row)
    requires (key == M.AND || key == M.OR) && |d.entries| == 1
    ensures M.Matches(M.Only(key, M.Docs(M.Singles(d) + M.Singles(M.Filter([])))), row) == M.Matches(d, row)
    ensures M.Matches(M.Only(key, M.Docs(M.Singles(M.Filter([])) + M.Singles(d))), row) == M.Matches(d, row)
  {
    assert M.Singles(d) + M.Singles(M.Filter([])) == [d] == M.Singles(M.Filter([])) + M.Singles(d) by {
      assert d.entries == [d.entries[0]];
    }
    hide M.Singles;
    M.OnlyMatches(key, M.Docs([d]), row);
    assert [d][0] == d;
  }
}
