/**
 * Splitting clean OR and IN queries into single-condition queries for the data
 * sources that cannot take them: what is produced, as functions on trees.
 */
module Split {
  import opened Sql

  const DATETIME := ColName("datetime")

  predicate Equality(e: Tree) {
    e.Comparison? && e.op.Eq?
  }

  /** The value list of IN must be a tuple; the code asserts it. */
  predicate InOverTuple(e: Tree) {
    e.Comparison? && e.op.In? ==> e.right.ValTuple?
  }

  function EqualityOf(c: Tree, v: Tree): Tree {
    Comparison(Eq, c, v, Nil)
  }

  /** The single conditions splitOrIn collects, in the order it appends them. */
  function Conditions(e: Tree): seq<Tree> {
    match e
    case Or(l, r) =>
      if (l.Or? || Equality(l)) && r.Comparison? && r.op.Eq? then
        [r] + if l.Comparison? then [l] else Conditions(l)
      else []
    case Comparison(op, c, right, _) =>
      if op.In? && right.ValTuple? then
        seq(|right.vals|, i requires 0 <= i < |right.vals| => EqualityOf(c, SQLVal(right.vals[i])))
      else if op.Eq? then [EqualityOf(c, right)]
      else []
    case _ => []
  }

  predicate DatetimeRange(e: Tree) {
    e.RangeCond? && !e.negated && e.left == DATETIME
  }

  /** The part of a WHERE expression that is split. */
  function Splittable(where: Tree): Tree {
    match where
    case And(l, r) =>
      if !DatetimeRange(r) then Nil
      else if l.Comparison? then l
      else if l.Paren? then l.expr
      else Nil
    case Paren(x) => if x.And? then Nil else x
    case Or(_, _) => where
    case Comparison(_, _, _, _) => where
    case _ => Nil
  }

  /** The WHERE expression of one split query: the root with its condition put in, or a plain copy. */
  function Rebuilt(where: Tree, condition: Tree): Tree {
    match where
    case And(_, r) => And(condition, r)
    case Paren(_) => Paren(condition)
    case _ => where
  }

  /** The WHERE expressions of all split queries. */
  function SplitWhere(where: Tree): (r: seq<Tree>)
    ensures |r| == |Conditions(Splittable(where))|
    ensures forall i | 0 <= i < |r| :: r[i] == Rebuilt(where, Conditions(Splittable(where))[i])
  {
    var cs := Conditions(Splittable(where));
    seq(|cs|, i requires 0 <= i < |cs| => Rebuilt(where, cs[i]))
  }

  // ---------- meaning ----------

  predicate SomeHolds(es: seq<Tree>, row: Row) {
    exists i | 0 <= i < |es| :: Holds(es[i], row)
  }

  lemma SomeHoldsConcat(a: seq<Tree>, b: seq<Tree>, row: Row)
    ensures SomeHolds(a + b, row) <==> SomeHolds(a, row) || SomeHolds(b, row)
  {
    assert forall i | 0 <= i < |a| :: (a + b)[i] == a[i];
    assert forall i | 0 <= i < |b| :: (a + b)[|a| + i] == b[i];
  }

  lemma ComparisonSplit(e: Tree, row: Row)
    requires e.Comparison?
    ensures SomeHolds(Conditions(e), row) ==> Holds(e, row)
    ensures e.op.Eq? || (e.op.In? && e.right.ValTuple?) ==> (SomeHolds(Conditions(e), row) <==> Holds(e, row))
  {
    var cs := Conditions(e);
    if e.op.In? && e.right.ValTuple? && e.left.ColName? {
      var vs := e.right.vals;
      assert forall i | 0 <= i < |vs| :: Holds(cs[i], row) == FieldIs(Eq, e.left.name, vs[i], row);
    } else if e.op.Eq? {
      assert Holds(cs[0], row) == Holds(e, row);
    }
  }

  /** Every condition of every tree implies the tree: no query returns a row the user did not ask for. */
  lemma {:induction false} ConditionsSound(e: Tree, row: Row)
    ensures SomeHolds(Conditions(e), row) ==> Holds(e, row)
  {
    match e
    case Or(l, r) =>
      ConditionsSound(l, row);
      SomeHoldsConcat([r], if l.Comparison? then [l] else Conditions(l), row);
    case Comparison(_, _, _, _) =>
      ComparisonSplit(e, row);
    case _ =>
  }

  /** A list of alternatives splitOrIn takes apart completely. */
  predicate Clean(e: Tree) {
    match e
    case Or(l, r) => Equality(r) && (Equality(l) || (l.Or? && Clean(l)))
    case Comparison(op, _, right, _) => op.Eq? || (op.In? && right.ValTuple? && right.vals != [])
    case _ => false
  }

  lemma {:induction false} ConditionsComplete(e: Tree, row: Row)
    requires Clean(e)
    ensures SomeHolds(Conditions(e), row) <==> Holds(e, row)
  {
    match e
    case Or(l, r) =>
      SomeHoldsConcat([r], if l.Comparison? then [l] else Conditions(l), row);
      assert SomeHolds([r], row) <==> Holds(r, row) by { assert [r][0] == r; }
      if l.Comparison? {
        assert SomeHolds([l], row) <==> Holds(l, row) by { assert [l][0] == l; }
      } else {
        ConditionsComplete(l, row);
      }
    case Comparison(_, _, _, _) =>
      ComparisonSplit(e, row);
  }

  // ---------- exactly when nothing is lost ----------

  /** How many alternatives a list of filters offers. */
  function Alternatives(e: Tree): nat {
    match e
    case Or(l, r) => Alternatives(l) + Alternatives(r)
    case Comparison(op, _, right, _) =>
      if op.In? && right.ValTuple? && right.vals != [] then |right.vals| else 1
    case _ => 1
  }

  lemma {:induction false} AlternativesPositive(e: Tree)
    ensures Alternatives(e) >= 1
  {
    match e
    case Or(l, r) => AlternativesPositive(l);
    case _ =>
  }

  /** The split finds every alternative iff the list is clean. */
  lemma {:induction false} NothingLostExactly(e: Tree)
    ensures |Conditions(e)| <= Alternatives(e)
    ensures |Conditions(e)| == Alternatives(e) <==> Clean(e)
  {
    match e
    case Or(l, r) =>
      AlternativesPositive(l);
      AlternativesPositive(r);
      NothingLostExactly(l);
      if l.Comparison? && Equality(r) && Equality(l) {
        assert Conditions(e) == [r] + [l];
      }
    case _ =>
  }

  // ---------- a chain of equalities comes out backwards ----------

  /** e1 OR e2 OR ... as the parser associates it. */
  function Chain(es: seq<Tree>): Tree
    requires |es| >= 1
  {
    if |es| == 1 then es[0] else Or(Chain(es[..|es| - 1]), es[|es| - 1])
  }

  lemma {:induction false} ChainReversed(es: seq<Tree>)
    requires |es| >= 2 && forall i | 0 <= i < |es| :: Equality(es[i])
    ensures |Conditions(Chain(es))| == |es|
    ensures forall i | 0 <= i < |es| :: Conditions(Chain(es))[i] == es[|es| - 1 - i]
  {
    var front := es[..|es| - 1];
    if |es| > 2 {
      ChainReversed(front);
      forall i | 1 <= i < |es| ensures Conditions(Chain(es))[i] == es[|es| - 1 - i] {
        assert Conditions(Chain(es))[i] == Conditions(Chain(front))[i - 1] == front[|front| - 1 - (i - 1)];
      }
    }
  }

  // ---------- whole WHERE expressions ----------

  /** The documented shapes: a clean list, bare or in parentheses, possibly limited to a period. */
  predicate SupportedShape(where: Tree) {
    match where
    case And(l, r) => DatetimeRange(r) && ((l.Comparison? && Clean(l)) || (l.Paren? && Clean(l.expr)))
    case Paren(x) => Clean(x)
    case Or(_, _) => Clean(where)
    case Comparison(_, _, _, _) => Clean(where)
    case _ => false
  }

  /** The split queries together never match a row the whole expression does not. */
  lemma SplitSound(where: Tree, row: Row)
    ensures SomeHolds(SplitWhere(where), row) ==> Holds(where, row)
  {
    var cs := Conditions(Splittable(where));
    if i :| 0 <= i < |SplitWhere(where)| && Holds(SplitWhere(where)[i], row) {
      ConditionsSound(Splittable(where), row);
      assert SplitWhere(where)[i] == Rebuilt(where, cs[i]);
      if where.And? || where.Paren? {
        assert Holds(cs[i], row);
        assert SomeHolds(cs, row);
      }
    }
  }

  /**
   * A bare list of which anything is split off is covered as well: there is no
   * place for a single condition, so every query is a copy of the whole.
   */
  predicate Covered(where: Tree) {
    SupportedShape(where) || ((where.Or? || where.Comparison?) && Conditions(where) != [])
  }

  /** On the documented shapes and on bare lists they match exactly its rows. */
  lemma SplitPreserved(where: Tree, row: Row)
    requires Covered(where)
    ensures SomeHolds(SplitWhere(where), row) <==> Holds(where, row)
  {
    SplitSound(where, row);
    if where.Or? || where.Comparison? {
      BareNotEmpty(where);
      assert SplitWhere(where)[0] == where;
    } else if Holds(where, row) {
      SupportedParts(where, row);
      hide SupportedShape, Splittable, SplitWhere, Conditions, Clean, Holds, Rebuilt;
      ConditionsComplete(Splittable(where), row);
      var cs := Conditions(Splittable(where));
      var i :| 0 <= i < |cs| && Holds(cs[i], row);
      RebuiltHolds(where, cs[i], row);
      assert SplitWhere(where)[i] == Rebuilt(where, cs[i]);
    }
  }

  lemma BareNotEmpty(where: Tree)
    requires Covered(where) && (where.Or? || where.Comparison?)
    ensures Conditions(where) != []
  {
  }

  /** A bare list of which nothing is split off gets no query at all, however many rows it selects. */
  lemma BareUncoveredLost(where: Tree, row: Row)
    requires where.Or? || where.Comparison?
    ensures Covered(where) <==> SplitWhere(where) != []
    ensures !Covered(where) ==> !SomeHolds(SplitWhere(where), row)
  {
    if Covered(where) { BareNotEmpty(where); }
  }

  lemma SupportedParts(where: Tree, row: Row)
    requires SupportedShape(where) && Holds(where, row)
    ensures Clean(Splittable(where)) && Holds(Splittable(where), row)
  {
    assert where.And? ==> Holds(where.left, row);
  }

  lemma RebuiltHolds(where: Tree, condition: Tree, row: Row)
    requires Holds(where, row) && Holds(condition, row)
    ensures Holds(Rebuilt(where, condition), row)
  {
  }

  /** Outside them some alternative has no query of its own. */
  lemma ShapeExactly(where: Tree)
    ensures SupportedShape(where) <==>
              |SplitWhere(where)| == Alternatives(Splittable(where))
  {
    NothingLostExactly(Splittable(where));
  }

  // ---------- what the queries look like ----------

  /** IN gives one equality per value, in order, and an equality itself. */
  lemma ComparisonConditions(c: Tree, vs: seq<Value>, v: Tree, escape: Tree)
    ensures var cs := Conditions(Comparison(In, c, ValTuple(vs), escape));
            |cs| == |vs| && forall i | 0 <= i < |vs| :: cs[i] == Comparison(Eq, c, SQLVal(vs[i]), Nil)
    ensures Conditions(Comparison(Eq, c, v, escape)) == [Comparison(Eq, c, v, Nil)]
  {
  }

  /** Under AND each condition stands beside the period; anything but a period on "datetime" is not split at all. */
  lemma PeriodQueries(x: Tree, negated: bool, column: Tree, from: Tree, to: Tree)
    ensures var period := RangeCond(negated, column, from, to);
            var qs := SplitWhere(And(Paren(x), period));
            if !negated && column == ColName("datetime")
            then |qs| == |Conditions(x)| && forall i | 0 <= i < |qs| :: qs[i] == And(Conditions(x)[i], period)
            else qs == []
    ensures var period := RangeCond(negated, column, from, to);
            x.Comparison? ==> SplitWhere(And(x, period)) == SplitWhere(And(Paren(x), period))
  {
    assert Conditions(Nil) == [];
  }

  /** In parentheses each condition stands in parentheses of its own; an AND there is not split. */
  lemma ParenQueries(x: Tree)
    ensures var qs := SplitWhere(Paren(x));
            if x.And? then qs == []
            else |qs| == |Conditions(x)| && forall i | 0 <= i < |qs| :: qs[i] == Paren(Conditions(x)[i])
  {
    assert Conditions(Nil) == [];
  }

  /** A chain of equalities under AND with a period: one query per equality, last first, each with the period. */
  lemma ChainWithPeriod(es: seq<Tree>, from: Tree, to: Tree, i: nat)
    requires |es| >= 2 && i < |es|
    requires forall j | 0 <= j < |es| :: es[j].Comparison? && es[j].op == Eq
    ensures var period := RangeCond(false, ColName("datetime"), from, to);
            var qs := SplitWhere(And(Paren(Chain(es)), period));
            |qs| == |es| && qs[i] == And(es[|es| - 1 - i], period)
  {
    ChainReversed(es);
    PeriodQueries(Chain(es), false, ColName("datetime"), from, to);
  }
}
