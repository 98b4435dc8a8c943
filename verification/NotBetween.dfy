/** NOT BETWEEN in the MongoDB compiler: which expressions keep their meaning with it. */
module NotBetween {
  import opened Wrappers
  import opened Sql
  import M = Mongo

  predicate DocumentMatches(e: Tree, row: Row) {
    var d := M.Compiled(e);
    d.Success? && M.Matches(d.value, row)
  }

  /** The same connectives and negated ranges, with any other expressible conditions in the other places. */
  predicate SameShape(e: Tree, f: Tree) {
    match e
    case And(l, r) => f.And? && SameShape(l, f.left) && SameShape(r, f.right)
    case Or(l, r) => f.Or? && SameShape(l, f.left) && SameShape(r, f.right)
    case Paren(x) => f.Paren? && SameShape(x, f.expr)
    case _ =>
      if e.RangeCond? && e.negated then f == e
      else M.Expressible(f) && (f.Comparison? || (f.RangeCond? && !f.negated))
  }

  lemma {:induction false} ShapeKeeps(e: Tree, f: Tree)
    requires M.Expressible(e) && SameShape(e, f)
    ensures M.Expressible(f) && M.HasNotBetween(f) == M.HasNotBetween(e)
  {
    match e
    case And(l, r) => ShapeKeeps(l, f.left); ShapeKeeps(r, f.right);
    case Or(l, r) => ShapeKeeps(l, f.left); ShapeKeeps(r, f.right);
    case Paren(x) => ShapeKeeps(x, f.expr);
    case _ =>
  }

  const ABSENT: string -> Option<Value> := _ => None

  /** A row without any field. */
  const EMPTY := Row(ABSENT, (_, _) => false, (_, _, _) => false)

  /** A comparison that holds in the empty row, or fails there. */
  function Leaf(b: bool): Tree {
    Comparison(if b then Ne else Eq, ColName("probe"), SQLVal(BoolVal(true)), Nil)
  }

  lemma LeafHolds(b: bool)
    ensures M.Expressible(Leaf(b)) && Holds(Leaf(b), EMPTY) == b && M.AsCompiled(Leaf(b)) == Leaf(b)
  {
    assert EMPTY.value("probe").None?;
  }

  function Filled(e: Tree, b: bool): Tree {
    match e
    case And(l, r) => And(Filled(l, b), Filled(r, b))
    case Or(l, r) => Or(Filled(l, b), Filled(r, b))
    case Paren(x) => Paren(Filled(x, b))
    case _ => Leaf(b)
  }

  lemma {:induction false} FilledHolds(e: Tree, b: bool)
    requires M.Expressible(e) && !M.HasNotBetween(e)
    ensures SameShape(e, Filled(e, b))
    ensures Holds(Filled(e, b), EMPTY) == b && M.AsCompiled(Filled(e, b)) == Filled(e, b)
  {
    match e
    case And(l, r) => FilledHolds(l, b); FilledHolds(r, b);
    case Or(l, r) => FilledHolds(l, b); FilledHolds(r, b);
    case Paren(x) => FilledHolds(x, b);
    case _ => LeafHolds(b);
  }

  /** A filling that leaves the decision to the negated ranges. */
  function Exposed(e: Tree): Tree {
    match e
    case And(l, r) =>
      And(if M.HasNotBetween(l) then Exposed(l) else Filled(l, true),
          if M.HasNotBetween(r) then Exposed(r) else Filled(r, true))
    case Or(l, r) =>
      Or(if M.HasNotBetween(l) then Exposed(l) else Filled(l, false),
         if M.HasNotBetween(r) then Exposed(r) else Filled(r, false))
    case Paren(x) => Paren(Exposed(x))
    case _ => e
  }

  /** In the empty row a negated range holds, and neither of the sides asked for does. */
  lemma {:induction false} ExposedDiffers(e: Tree)
    requires M.Expressible(e) && M.HasNotBetween(e)
    ensures SameShape(e, Exposed(e))
    ensures Holds(Exposed(e), EMPTY) && !Holds(M.AsCompiled(Exposed(e)), EMPTY)
  {
    match e
    case And(l, r) =>
      if M.HasNotBetween(l) { ExposedDiffers(l); } else { FilledHolds(l, true); }
      if M.HasNotBetween(r) { ExposedDiffers(r); } else { FilledHolds(r, true); }
    case Or(l, r) =>
      if M.HasNotBetween(l) { ExposedDiffers(l); } else { FilledHolds(l, false); }
      if M.HasNotBetween(r) { ExposedDiffers(r); } else { FilledHolds(r, false); }
    case Paren(x) => ExposedDiffers(x);
    case RangeCond(_, left, _, _) =>
      assert EMPTY.value(left.name).None?;
  }

  /** Whatever conditions stand in the other places, the document keeps the meaning iff nothing is NOT BETWEEN. */
  lemma MeaningKeptExactly(e: Tree)
    requires M.Expressible(e)
    ensures (forall f: Tree, row: Row | SameShape(e, f) :: DocumentMatches(f, row) == Holds(f, row))
        <==> !M.HasNotBetween(e)
  {
    if M.HasNotBetween(e) {
      ExposedDiffers(e);
      ShapeKeeps(e, Exposed(e));
      M.DocumentMeans(Exposed(e), EMPTY);
      assert DocumentMatches(Exposed(e), EMPTY) != Holds(Exposed(e), EMPTY);
    } else {
      forall f: Tree, row: Row | SameShape(e, f) ensures DocumentMatches(f, row) == Holds(f, row) {
        ShapeKeeps(e, f);
        M.DocumentPreserved(f, row);
      }
    }
  }
}
