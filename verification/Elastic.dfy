/**
 * The Elasticsearch plugin's compiler from WHERE expressions to bool queries.
 * A fragment is the comma-separated text the handlers build, as a list of
 * clauses: joining texts is list concatenation, the empty text is the empty list.
 */
module Elastic {
  import opened Wrappers
  import opened Sql

  /** The value put on the right: a literal, the printed text of a tuple, or nothing. */
  datatype Operand = Scalar(v: Value) | TupleText(vals: seq<Value>) | NoValue

  datatype Bound = Unbounded | Inclusive(o: Operand) | Exclusive(o: Operand)

  datatype Clause =
    | Exists(field: string)
    | MatchPhrase(field: string, o: Operand)
    | Range(field: string, lower: Bound, upper: Bound)
    | Terms(field: string, o: Operand)
    | QueryString(field: string, o: Operand)
    | Must(clauses: seq<Clause>)
    | Should(clauses: seq<Clause>)
    | MustNot(clauses: seq<Clause>)

  // ---------- what a clause matches ----------

  predicate WithinLower(b: Bound, x: Value) {
    match b
    case Unbounded => true
    case Inclusive(o) => o.Scalar? && AtMost(o.v, x)
    case Exclusive(o) => o.Scalar? && Less(o.v, x)
  }

  predicate WithinUpper(b: Bound, x: Value) {
    match b
    case Unbounded => true
    case Inclusive(o) => o.Scalar? && AtMost(x, o.v)
    case Exclusive(o) => o.Scalar? && Less(x, o.v)
  }

  /** A bool query with nothing but an empty list matches every document. */
  predicate Matches(c: Clause, row: Row) {
    match c
    case Exists(f) => row.value(f).Some?
    case MatchPhrase(f, o) => o.Scalar? && FieldIs(Eq, f, o.v, row)
    case Range(f, lo, hi) =>
      row.value(f).Some? && WithinLower(lo, row.value(f).value) && WithinUpper(hi, row.value(f).value)
    case Terms(f, o) => o.TupleText? && FieldAmong(f, o.vals, row)
    case QueryString(f, o) => o.Scalar? && o.v.StrVal? && row.like(f, o.v.s)
    case Must(cs) => forall i | 0 <= i < |cs| :: Matches(cs[i], row)
    case Should(cs) => cs == [] || exists i | 0 <= i < |cs| :: Matches(cs[i], row)
    case MustNot(cs) => forall i | 0 <= i < |cs| :: !Matches(cs[i], row)
  }

  // ---------- the handlers ----------

  /** The right operand of a comparison, and whether it asks for the field's existence. */
  function RightOperand(e: Tree): Result<(Operand, bool)> {
    match e
    case SQLVal(v) => Success((Scalar(v), false))
    case ColName(c) =>
      if c == EXIST then Success((NoValue, true))
      else Failure("Column name on the right side of compare operator is not supported")
    case ValTuple(vs) => Success((TupleText(vs), false))
    case _ => Failure("Unexpected SQL expression right part's type")
  }

  /** IN and LIKE assert that the operand is text; the assertion fails on other values. */
  predicate IsText(o: Operand) {
    o.TupleText? || (o.Scalar? && o.v.StrVal?)
  }

  function HandleComparison(e: Tree, topLevel: bool): Result<seq<Clause>>
    requires e.Comparison?
  {
    if !e.left.ColName? then Failure("Invalid comparison expression, the left must be a column name") else
    var c := e.left.name;
    var (o, exist) :- RightOperand(e.right);
    if (e.op.In? || e.op.NotIn? || e.op.Like? || e.op.NotLike?) && !IsText(o) then
      Failure("interface conversion: operand is not a string")
    else
      var cs :=
        match e.op
        case Eq => if exist then [Exists(c)] else [MatchPhrase(c, o)]
        case Ne => if exist then [MustNot([Exists(c)])] else [MustNot([MatchPhrase(c, o)])]
        case Gt => [Range(c, Exclusive(o), Unbounded)]
        case Lt => [Range(c, Unbounded, Exclusive(o))]
        case Ge => [Range(c, Inclusive(o), Unbounded)]
        case Le => [Range(c, Unbounded, Inclusive(o))]
        case In => [Terms(c, o)]
        case NotIn => [MustNot([Terms(c, o)])]
        case Like => [QueryString(c, o)]
        case NotLike => [MustNot([QueryString(c, o)])]
        case OtherOp(_) => [];
      Success(if topLevel then [Must(cs)] else cs)
  }

  function HandleAnd(e: Tree, parent: Tree): Result<seq<Clause>>
    requires e.And?
    decreases e, 0
  {
    var l :- HandleSelectWhere(e.left, false, e);
    var r :- HandleSelectWhere(e.right, false, e);
    Success(if parent.And? then l + r else [Must(l + r)])
  }

  function HandleOr(e: Tree, parent: Tree): Result<seq<Clause>>
    requires e.Or?
    decreases e, 0
  {
    var l :- HandleSelectWhere(e.left, false, e);
    var r :- HandleSelectWhere(e.right, false, e);
    Success(if parent.Or? then l + r else [Should(l + r)])
  }

  function HandleBetween(e: Tree, topLevel: bool): Result<seq<Clause>>
    requires e.RangeCond?
  {
    if !e.left.ColName? then Failure("Range column name missing")
    else if !RangeBound(e.from) then Failure("Invalid BETWEEN 'from' value")
    else if !RangeBound(e.to) then Failure("Invalid BETWEEN 'to' value")
    else
      var within := Range(e.left.name, Inclusive(Scalar(e.from.val)), Inclusive(Scalar(e.to.val)));
      var c := if e.negated then MustNot([within]) else within;
      Success(if topLevel then [Must([c])] else [c])
  }

  /** `parent` is the enclosing AND or OR, looked at through parentheses; Nil at the root. */
  function HandleSelectWhere(e: Tree, topLevel: bool, parent: Tree): Result<seq<Clause>>
    decreases e, 1
  {
    match e
    case Comparison(_, _, _, _) => HandleComparison(e, topLevel)
    case And(_, _) => HandleAnd(e, parent)
    case Or(_, _) => HandleOr(e, parent)
    case RangeCond(_, _, _, _) => HandleBetween(e, topLevel)
    case Paren(x) => HandleSelectWhere(x, topLevel, parent)
    case Is(_, _) => Failure("'is' expression currently not supported")
    case Not(_) => Failure("'not' expression currently not supported")
    case _ => Failure("Unexpected SQL expression type received")
  }

  // ---------- what a fragment says ----------

  function Stripped(e: Tree): Tree {
    if e.Paren? then Stripped(e.expr) else e
  }

  /** What a fragment says where its parent will put it. */
  predicate FragmentHolds(cs: seq<Clause>, parent: Tree, row: Row) {
    if parent.And? then forall i | 0 <= i < |cs| :: Matches(cs[i], row)
    else if parent.Or? then exists i | 0 <= i < |cs| :: Matches(cs[i], row)
    else |cs| == 1 && Matches(cs[0], row)
  }

  lemma HoldsOfConcatenation(a: seq<Clause>, b: seq<Clause>, parent: Tree, row: Row)
    requires parent.And? || parent.Or?
    ensures parent.And? ==>
              (FragmentHolds(a + b, parent, row) <==> FragmentHolds(a, parent, row) && FragmentHolds(b, parent, row))
    ensures parent.Or? ==>
              (FragmentHolds(a + b, parent, row) <==> FragmentHolds(a, parent, row) || FragmentHolds(b, parent, row))
  {
    assert forall i | 0 <= i < |a| :: (a + b)[i] == a[i];
    assert forall i | 0 <= i < |b| :: (a + b)[|a| + i] == b[i];
  }

  lemma SingletonFragment(c: Clause, parent: Tree, row: Row)
    ensures FragmentHolds([c], parent, row) == Matches(c, row)
  {
    assert [c][0] == c;
  }

  lemma SingletonBool(c: Clause, row: Row)
    ensures Matches(Must([c]), row) == Matches(c, row)
    ensures Matches(MustNot([c]), row) == !Matches(c, row)
  {
    assert [c][0] == c;
  }

  lemma ComparisonPreserved(e: Tree, topLevel: bool, row: Row)
    requires e.Comparison? && Supported(e)
    ensures HandleComparison(e, topLevel).Success?
    ensures |HandleComparison(e, topLevel).value| == 1
    ensures Matches(HandleComparison(e, topLevel).value[0], row) == Holds(e, row)
  {
    if Negative(e.op) {
      NegativeClause(e, row);
    } else {
      PositiveClause(e, row);
    }
    hide Holds, Supported;
    SingletonBool(HandleComparison(e, false).value[0], row);
  }

  predicate Negative(op: Operator) {
    op.Ne? || op.NotIn? || op.NotLike?
  }

  lemma PositiveClause(e: Tree, row: Row)
    requires e.Comparison? && Supported(e) && !Negative(e.op)
    ensures var cs := HandleComparison(e, false);
            cs.Success? && |cs.value| == 1 && Matches(cs.value[0], row) == Holds(e, row)
  {
    hide Less, AtMost, Same, FieldAmong;
  }

  lemma NegativeClause(e: Tree, row: Row)
    requires e.Comparison? && Supported(e) && Negative(e.op)
    ensures var cs := HandleComparison(e, false);
            cs.Success? && |cs.value| == 1 && Matches(cs.value[0], row) == Holds(e, row)
  {
    hide Less, AtMost, Same, FieldAmong;
    var c := HandleComparison(e, false).value[0];
    SingletonBool(c.clauses[0], row);
    assert c.clauses == [c.clauses[0]];
  }

  lemma BetweenPreserved(e: Tree, topLevel: bool, row: Row)
    requires e.RangeCond? && Supported(e)
    ensures HandleBetween(e, topLevel).Success?
    ensures |HandleBetween(e, topLevel).value| == 1
    ensures Matches(HandleBetween(e, topLevel).value[0], row) == Holds(e, row)
  {
    var within := Range(e.left.name, Inclusive(Scalar(e.from.val)), Inclusive(Scalar(e.to.val)));
    SingletonBool(within, row);
    SingletonBool(HandleBetween(e, false).value[0], row);
  }

  // ---------- operators outside the switch ----------

  /** A comparison whose operator the handler does not know: it builds the empty text. */
  predicate Unhandled(e: Tree) {
    && e.Comparison? && e.op.OtherOp? && e.left.ColName?
    && (e.right.SQLVal? || e.right.ValTuple? || e.right == ColName(EXIST))
  }

  /** Expressions whose leaves are supported or have an unknown operator. */
  predicate Compilable(e: Tree) {
    match e
    case Comparison(_, _, _, _) => Supported(e) || Unhandled(e)
    case RangeCond(_, _, _, _) => Supported(e)
    case And(l, r) => Compilable(l) && Compilable(r)
    case Or(l, r) => Compilable(l) && Compilable(r)
    case Paren(x) => Compilable(x)
    case _ => false
  }

  /** Nothing but unknown operators, joined by the parent's connective only: the fragment is empty. */
  predicate Vanishes(e: Tree, topLevel: bool, parent: Tree) {
    match e
    case Comparison(_, _, _, _) => Unhandled(e) && !topLevel
    case And(l, r) => parent.And? && Vanishes(l, false, e) && Vanishes(r, false, e)
    case Or(l, r) => parent.Or? && Vanishes(l, false, e) && Vanishes(r, false, e)
    case Paren(x) => Vanishes(x, topLevel, parent)
    case _ => false
  }

  /** The rows a compiled expression selects: what has not vanished counts, an empty list matches everything. */
  predicate Selected(e: Tree, row: Row) {
    match e
    case Comparison(_, _, _, _) => Unhandled(e) || Holds(e, row)
    case And(l, r) => Selected(l, row) && Selected(r, row)
    case Or(l, r) =>
      if Vanishes(l, false, e) then Vanishes(r, false, e) || Selected(r, row)
      else Selected(l, row) || (!Vanishes(r, false, e) && Selected(r, row))
    case Paren(x) => Selected(x, row)
    case _ => Holds(e, row)
  }

  lemma {:induction false} VanishedUnderAnd(e: Tree, topLevel: bool, parent: Tree, row: Row)
    requires parent.And? && Vanishes(e, topLevel, parent)
    ensures Selected(e, row)
  {
    match e
    case And(l, r) =>
      VanishedUnderAnd(l, false, e, row);
      VanishedUnderAnd(r, false, e, row);
    case Paren(x) => VanishedUnderAnd(x, topLevel, parent, row);
    case _ =>
  }

  /**
   * Every fragment means what has not vanished of its expression, read with the
   * parent's connective. It is empty exactly where everything vanishes, and has
   * several clauses only where the node has the parent's own connective.
   */
  lemma {:induction false} FragmentMeans(e: Tree, topLevel: bool, parent: Tree, row: Row)
    requires Compilable(e)
    requires parent.Nil? || parent.And? || parent.Or?
    ensures HandleSelectWhere(e, topLevel, parent).Success?
    ensures var cs := HandleSelectWhere(e, topLevel, parent).value;
            && (cs == [] <==> Vanishes(e, topLevel, parent))
            && (|cs| > 1 ==> (Stripped(e).And? && parent.And?) || (Stripped(e).Or? && parent.Or?))
            && (cs != [] ==> FragmentHolds(cs, parent, row) == Selected(e, row))
    decreases e
  {
    match e
    case Comparison(_, _, _, _) =>
      LeafMeans(e, topLevel, parent, row);
    case RangeCond(_, _, _, _) =>
      BetweenPreserved(e, topLevel, row);
    case And(l, r) =>
      FragmentMeans(l, false, e, row);
      FragmentMeans(r, false, e, row);
      if Vanishes(l, false, e) { VanishedUnderAnd(l, false, e, row); }
      if Vanishes(r, false, e) { VanishedUnderAnd(r, false, e, row); }
      var a, b := HandleSelectWhere(l, false, e).value, HandleSelectWhere(r, false, e).value;
      HoldsOfConcatenation(a, b, e, row);
      SingletonFragment(Must(a + b), parent, row);
    case Or(l, r) =>
      FragmentMeans(l, false, e, row);
      FragmentMeans(r, false, e, row);
      var a, b := HandleSelectWhere(l, false, e).value, HandleSelectWhere(r, false, e).value;
      HoldsOfConcatenation(a, b, e, row);
      SingletonFragment(Should(a + b), parent, row);
    case Paren(x) =>
      FragmentMeans(x, topLevel, parent, row);
  }

  lemma LeafMeans(e: Tree, topLevel: bool, parent: Tree, row: Row)
    requires e.Comparison? && Compilable(e)
    ensures HandleComparison(e, topLevel).Success?
    ensures var cs := HandleComparison(e, topLevel).value;
            if Unhandled(e) && !topLevel then cs == []
            else |cs| == 1 && FragmentHolds(cs, parent, row) == (Unhandled(e) || Holds(e, row))
  {
    if !Unhandled(e) {
      ComparisonPreserved(e, topLevel, row);
    }
    hide Holds, Supported;
    var cs := HandleComparison(e, topLevel).value;
    if cs != [] {
      assert cs == [cs[0]];
      SingletonFragment(cs[0], parent, row);
    }
  }

  /** The root of any such expression is one clause, for exactly the rows selected. */
  lemma QueryMeans(e: Tree, row: Row)
    requires Compilable(e)
    ensures var q := HandleSelectWhere(e, true, Nil);
            q.Success? && |q.value| == 1 && Matches(q.value[0], row) == Selected(e, row)
  {
    FragmentMeans(e, true, Nil, row);
    NeverVanishesAtRoot(e);
  }

  lemma {:induction false} NeverVanishesAtRoot(e: Tree)
    ensures !Vanishes(e, true, Nil)
  {
    match e
    case Paren(x) => NeverVanishesAtRoot(x);
    case _ =>
  }

  // ---------- preservation of meaning ----------

  lemma {:induction false} SupportedSelected(e: Tree, topLevel: bool, parent: Tree, row: Row)
    requires Supported(e)
    ensures Compilable(e) && !Vanishes(e, topLevel, parent) && Selected(e, row) == Holds(e, row)
  {
    match e
    case And(l, r) =>
      SupportedSelected(l, false, e, row);
      SupportedSelected(r, false, e, row);
    case Or(l, r) =>
      SupportedSelected(l, false, e, row);
      SupportedSelected(r, false, e, row);
    case Paren(x) => SupportedSelected(x, topLevel, parent, row);
    case _ =>
  }

  /** Every fragment of a supported expression means the expression, read with the parent's connective. */
  lemma FragmentPreserved(e: Tree, topLevel: bool, parent: Tree, row: Row)
    requires Supported(e)
    requires parent.Nil? || parent.And? || parent.Or?
    ensures HandleSelectWhere(e, topLevel, parent).Success?
    ensures var cs := HandleSelectWhere(e, topLevel, parent).value;
            && |cs| >= 1
            && (|cs| > 1 ==> (Stripped(e).And? && parent.And?) || (Stripped(e).Or? && parent.Or?))
            && FragmentHolds(cs, parent, row) == Holds(e, row)
  {
    SupportedSelected(e, topLevel, parent, row);
    FragmentMeans(e, topLevel, parent, row);
  }

  /** The compiled root is one clause that matches exactly the rows of the expression. */
  lemma QueryPreserved(e: Tree, row: Row)
    requires Supported(e)
    ensures var q := HandleSelectWhere(e, true, Nil);
            q.Success? && |q.value| == 1 && Matches(q.value[0], row) == Holds(e, row)
  {
    FragmentPreserved(e, true, Nil, row);
  }

  // ---------- the shape of a query ----------

  /** Whatever is compiled, the root is a bool query. */
  lemma {:induction false} RootIsBool(e: Tree)
    requires HandleSelectWhere(e, true, Nil).Success?
    ensures var cs := HandleSelectWhere(e, true, Nil).value;
            |cs| == 1 && (cs[0].Must? || cs[0].Should?)
  {
    match e
    case Paren(x) => RootIsBool(x);
    case _ =>
  }

  /** The operands of a chain of one connective, through parentheses. */
  function Operands(e: Tree, conjunction: bool): nat {
    match e
    case And(l, r) => if conjunction then Operands(l, true) + Operands(r, true) else 1
    case Or(l, r) => if conjunction then 1 else Operands(l, false) + Operands(r, false)
    case Paren(x) => Operands(x, conjunction)
    case _ => 1
  }

  /** Nested connectives of one kind become one list: a clause per operand, none of them a list of the same kind. */
  lemma {:induction false} Flattened(e: Tree, parent: Tree)
    requires Supported(e) && (parent.And? || parent.Or?)
    ensures HandleSelectWhere(e, false, parent).Success?
    ensures var cs := HandleSelectWhere(e, false, parent).value;
            && |cs| == Operands(e, parent.And?)
            && forall i | 0 <= i < |cs| :: if parent.And? then !cs[i].Must? else !cs[i].Should?
    decreases e
  {
    match e
    case And(l, r) => Flattened(l, e); Flattened(r, e);
    case Or(l, r) => Flattened(l, e); Flattened(r, e);
    case Paren(x) => Flattened(x, parent);
    case _ =>
  }
}
