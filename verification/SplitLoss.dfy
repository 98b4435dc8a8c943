/** Which rows are lost when a list of filters is not split completely. */
module SplitLoss {
  import opened Wrappers
  import opened Sql
  import opened Split

  /** What an OR list offers, from left to right. */
  function Choices(e: Tree): (r: seq<Tree>)
    ensures |r| >= 1
  {
    if e.Or? then Choices(e.left) + Choices(e.right) else [e]
  }

  lemma {:induction false} HoldsSomeChoice(e: Tree, row: Row)
    ensures Holds(e, row) <==> SomeHolds(Choices(e), row)
  {
    if e.Or? {
      HoldsSomeChoice(e.left, row);
      HoldsSomeChoice(e.right, row);
      SomeHoldsConcat(Choices(e.left), Choices(e.right), row);
    } else {
      assert Choices(e)[0] == e;
    }
  }

  /** Some choice other than i is met. */
  predicate OtherHolds(choices: seq<Tree>, i: nat, row: Row) {
    exists j | 0 <= j < |choices| && j != i :: Holds(choices[j], row)
  }

  /** An incomplete split passes over some choice: its conditions follow from the other choices. */
  lemma {:induction false} ChoiceLost(e: Tree) returns (i: nat)
    requires !Clean(e)
    ensures i < |Choices(e)|
    ensures forall row: Row | SomeHolds(Conditions(e), row) :: OtherHolds(Choices(e), i, row)
  {
    i := 0;
    if e.Or? && e.left.Or? && Equality(e.right) {
      i := ChoiceLost(e.left);
      forall row: Row | SomeHolds(Conditions(e), row) ensures OtherHolds(Choices(e), i, row) {
        OtherKept(e.left, e.right, i, row);
      }
    } else {
      assert Conditions(e) == [];
    }
  }

  lemma OtherKept(l: Tree, r: Tree, i: nat, row: Row)
    requires l.Or? && Equality(r) && i < |Choices(l)|
    requires SomeHolds(Conditions(l), row) ==> OtherHolds(Choices(l), i, row)
    requires SomeHolds(Conditions(Or(l, r)), row)
    ensures OtherHolds(Choices(Or(l, r)), i, row)
  {
    var all := Choices(Or(l, r));
    assert all == Choices(l) + Choices(r);
    assert Conditions(Or(l, r)) == [r] + Conditions(l);
    assert Choices(r) == [r];
    hide Choices, Holds, Conditions, Equality;
    assert all[|Choices(l)|] == r;
    SomeHoldsConcat([r], Conditions(l), row);
    if SomeHolds(Conditions(l), row) {
      var j :| 0 <= j < |Choices(l)| && j != i && Holds(Choices(l)[j], row);
      assert all[j] == Choices(l)[j];
    } else {
      assert Holds([r][0], row);
    }
  }

  // ---------- rows that are lost ----------

  /** The row meets choice i and no other, and all that is asked for besides. */
  predicate OnlyChoice(choices: seq<Tree>, i: nat, besides: seq<Tree>, row: Row)
    requires i < |choices|
  {
    && Holds(choices[i], row) && !OtherHolds(choices, i, row)
    && forall k | 0 <= k < |besides| :: Holds(besides[k], row)
  }

  ghost predicate MetAlone(choices: seq<Tree>, i: nat, besides: seq<Tree>)
    requires i < |choices|
  {
    exists row: Row :: OnlyChoice(choices, i, besides, row)
  }

  /** No choice is redundant: for each there is a row that meets it alone. */
  ghost predicate Irredundant(choices: seq<Tree>, besides: seq<Tree>) {
    forall i: nat | i < |choices| :: MetAlone(choices, i, besides)
  }

  ghost predicate ListKept(e: Tree) {
    forall row: Row :: SomeHolds(Conditions(e), row) <==> Holds(e, row)
  }

  /** The conditions of an irredundant list keep its meaning iff the list is clean. */
  lemma ListKeptExactly(e: Tree)
    requires Irredundant(Choices(e), [])
    ensures ListKept(e) <==> Clean(e)
  {
    if Clean(e) {
      forall row: Row ensures SomeHolds(Conditions(e), row) <==> Holds(e, row) {
        ConditionsComplete(e, row);
      }
    } else {
      var i := ChoiceLost(e);
      assert MetAlone(Choices(e), i, []);
      var row: Row :| OnlyChoice(Choices(e), i, [], row);
      HoldsSomeChoice(e, row);
      assert Holds(e, row) && !SomeHolds(Conditions(e), row);
    }
  }

  // ---------- whole WHERE expressions ----------

  /** The list of filters in a WHERE expression. */
  function FilterList(where: Tree): Tree {
    match where
    case And(l, _) => if l.Paren? then l.expr else l
    case Paren(x) => x
    case _ => where
  }

  function Besides(where: Tree): seq<Tree> {
    if where.And? then [where.right] else []
  }

  ghost predicate WhereKept(where: Tree) {
    forall row: Row :: SomeHolds(SplitWhere(where), row) <==> Holds(where, row)
  }

  lemma ListAndRest(where: Tree, row: Row)
    requires Holds(FilterList(where), row)
    requires forall k | 0 <= k < |Besides(where)| :: Holds(Besides(where)[k], row)
    ensures Holds(where, row)
  {
    if where.And? {
      assert Besides(where)[0] == where.right;
    }
  }

  lemma SomeConditionHolds(where: Tree, row: Row)
    requires SomeHolds(SplitWhere(where), row)
    requires where.And? || where.Paren?
    ensures SomeHolds(Conditions(Splittable(where)), row)
  {
    var cs := Conditions(Splittable(where));
    var i :| 0 <= i < |cs| && Holds(SplitWhere(where)[i], row);
    assert SplitWhere(where)[i] == Rebuilt(where, cs[i]);
    assert Holds(cs[i], row);
  }

  /** An expression that is not covered loses a choice of its list. */
  lemma WhereLost(where: Tree) returns (i: nat)
    requires !Covered(where)
    ensures i < |Choices(FilterList(where))|
    ensures forall row: Row | SomeHolds(SplitWhere(where), row) :: OtherHolds(Choices(FilterList(where)), i, row)
  {
    i := 0;
    if (where.And? || where.Paren?) && Splittable(where) != Nil {
      assert Splittable(where) == FilterList(where);
      i := ChoiceLost(FilterList(where));
      forall row: Row | SomeHolds(SplitWhere(where), row) ensures OtherHolds(Choices(FilterList(where)), i, row) {
        SomeConditionHolds(where, row);
      }
    } else {
      assert Splittable(where) == Nil || Splittable(where) == where;
      assert SplitWhere(where) == [];
    }
  }

  /** If no choice is redundant, the split keeps the rows of a WHERE expression iff it is covered. */
  lemma WhereKeptExactly(where: Tree)
    requires Irredundant(Choices(FilterList(where)), Besides(where))
    ensures WhereKept(where) <==> Covered(where)
  {
    if Covered(where) {
      forall row: Row ensures SomeHolds(SplitWhere(where), row) <==> Holds(where, row) {
        SplitPreserved(where, row);
      }
    } else {
      var i := WhereLost(where);
      assert MetAlone(Choices(FilterList(where)), i, Besides(where));
      var row: Row :| OnlyChoice(Choices(FilterList(where)), i, Besides(where), row);
      HoldsSomeChoice(FilterList(where), row);
      ListAndRest(where, row);
      assert Holds(where, row) && !SomeHolds(SplitWhere(where), row);
    }
  }

  // ---------- lists over different columns ----------

  /** An equality, or an IN list with values. */
  predicate Pick(e: Tree) {
    && e.Comparison? && e.left.ColName?
    && ((e.op.Eq? && e.right.SQLVal?) || (e.op.In? && e.right.ValTuple? && e.right.vals != []))
  }

  predicate DifferentColumns(choices: seq<Tree>) {
    && (forall i | 0 <= i < |choices| :: Pick(choices[i]))
    && (forall i, j | 0 <= i < j < |choices| :: choices[i].left != choices[j].left)
  }

  /** Nothing more is asked for, or a period that is not reversed, on a column of its own. */
  predicate ProperPeriod(choices: seq<Tree>, besides: seq<Tree>) {
    besides == [] ||
    (&& |besides| == 1 && DatetimeRange(besides[0])
     && besides[0].from.SQLVal? && besides[0].to.SQLVal? && AtMost(besides[0].from.val, besides[0].to.val)
     && forall i | 0 <= i < |choices| && Pick(choices[i]) :: choices[i].left != DATETIME)
  }

  function PickedValue(e: Tree): Value
    requires Pick(e)
  {
    if e.op.Eq? then e.right.val else e.right.vals[0]
  }

  /** A row that has one of the columns, and the period's. */
  function PickedRow(e: Tree, besides: seq<Tree>): Row
    requires Pick(e)
  {
    Row(c => if c == e.left.name then Some(PickedValue(e))
             else if c == DATETIME.name && |besides| == 1 && besides[0].RangeCond? && besides[0].from.SQLVal?
             then Some(besides[0].from.val) else None,
        (_, _) => false, (_, _, _) => false)
  }

  lemma PickHolds(e: Tree, besides: seq<Tree>)
    requires Pick(e)
    ensures Holds(e, PickedRow(e, besides))
  {
    var row := PickedRow(e, besides);
    assert FieldIs(Eq, e.left.name, PickedValue(e), row);
    if e.op.In? {
      assert FieldIs(Eq, e.left.name, e.right.vals[0], row);
    }
  }

  lemma OtherPickFails(e: Tree, besides: seq<Tree>, f: Tree)
    requires Pick(e) && Pick(f) && e.left != f.left
    requires besides != [] ==> f.left != DATETIME
    ensures !Holds(f, PickedRow(e, besides))
  {
    assert PickedRow(e, besides).value(f.left.name).None?;
  }

  lemma DifferentColumnsIrredundant(choices: seq<Tree>, besides: seq<Tree>)
    requires DifferentColumns(choices) && ProperPeriod(choices, besides)
    ensures Irredundant(choices, besides)
  {
    forall i: nat | i < |choices| ensures MetAlone(choices, i, besides) {
      var row := PickedRow(choices[i], besides);
      PickHolds(choices[i], besides);
      forall j | 0 <= j < |choices| && j != i ensures !Holds(choices[j], row) {
        OtherPickFails(choices[i], besides, choices[j]);
      }
      if besides != [] {
        assert row.value(DATETIME.name) == Some(besides[0].from.val);
      }
      assert OnlyChoice(choices, i, besides, row);
    }
  }

  /** Over different columns the split keeps the rows iff the expression is covered. */
  lemma DifferentColumnsExactly(where: Tree)
    requires DifferentColumns(Choices(FilterList(where)))
    requires ProperPeriod(Choices(FilterList(where)), Besides(where))
    ensures WhereKept(where) <==> Covered(where)
  {
    DifferentColumnsIrredundant(Choices(FilterList(where)), Besides(where));
    WhereKeptExactly(where);
  }

  /** (a = 1 OR b IN (2)) gets no query, although rows satisfy it. */
  lemma InUnderOrLost() returns (where: Tree, row: Row)
    ensures where == Paren(Or(Comparison(Eq, ColName("a"), SQLVal(IntVal(1)), Nil),
                              Comparison(In, ColName("b"), ValTuple([IntVal(2)]), Nil)))
    ensures SplitWhere(where) == [] && Holds(where, row)
  {
    where := Paren(Or(Comparison(Eq, ColName("a"), SQLVal(IntVal(1)), Nil),
                      Comparison(In, ColName("b"), ValTuple([IntVal(2)]), Nil)));
    row := PickedRow(where.expr.left, []);
    PickHolds(where.expr.left, []);
  }
}
