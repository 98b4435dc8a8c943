/**
 * The MongoDB plugin's compiler from WHERE expressions to filter documents.
 * A document is a list of key/value entries; Go iterates over its entries in
 * any order, and so do the loops here.
 */
module Mongo {
  import opened Wrappers
  import opened Sql

  datatype Operand = Scalar(v: Value) | TupleText(vals: seq<Value>) | NoValue

  /** One entry of an operator document such as {"$gte": 1, "$lte": 9}. */
  datatype Test =
    | Present(expected: bool)
    | Differs(o: Operand)
    | Above(o: Operand)
    | Below(o: Operand)
    | AtLeast(o: Operand)
    | NotAbove(o: Operand)
    | OneOf(o: Operand)
    | NoneOf(o: Operand)
    | Regex(o: Operand)
    | NotRegex(o: Operand)

  datatype Condition = Equals(o: Operand) | Tests(tests: seq<Test>) | Docs(docs: seq<Filter>)

  datatype Entry = Entry(key: string, cond: Condition)

  datatype Filter = Filter(entries: seq<Entry>)

  const AND := "$and"
  const OR := "$or"

  // ---------- what a document matches ----------

  predicate Scalars(op: Operator, field: string, o: Operand, row: Row) {
    o.Scalar? && FieldIs(op, field, o.v, row)
  }

  /** The negative tests $ne, $nin and $not also select documents without the field. */
  predicate Passes(t: Test, field: string, row: Row) {
    match t
    case Present(b) => row.value(field).Some? == b
    case Differs(o) => !Scalars(Eq, field, o, row)
    case Above(o) => Scalars(Gt, field, o, row)
    case Below(o) => Scalars(Lt, field, o, row)
    case AtLeast(o) => Scalars(Ge, field, o, row)
    case NotAbove(o) => Scalars(Le, field, o, row)
    case OneOf(o) => o.TupleText? && FieldAmong(field, o.vals, row)
    case NoneOf(o) => o.TupleText? && !FieldAmong(field, o.vals, row)
    case Regex(o) => o.Scalar? && o.v.StrVal? && row.like(field, o.v.s)
    case NotRegex(o) => o.Scalar? && o.v.StrVal? && !row.like(field, o.v.s)
  }

  /** Keys that are not taken for a logical operator. */
  predicate IsField(key: string) {
    key != AND && key != OR
  }

  predicate Matches(f: Filter, row: Row) {
    forall i | 0 <= i < |f.entries| :: MatchesEntry(f.entries[i], row)
  }

  predicate MatchesEntry(e: Entry, row: Row) {
    match e.cond
    case Equals(o) => IsField(e.key) && Scalars(Eq, e.key, o, row)
    case Tests(ts) => IsField(e.key) && forall i | 0 <= i < |ts| :: Passes(ts[i], e.key, row)
    case Docs(ds) =>
      if e.key == OR then exists i | 0 <= i < |ds| :: Matches(ds[i], row)
      else e.key == AND && forall i | 0 <= i < |ds| :: Matches(ds[i], row)
  }

  // ---------- leaf handlers ----------

  function RightOperand(e: Tree): Result<(Operand, bool)> {
    match e
    case SQLVal(v) => Success((Scalar(v), false))
    case ColName(c) =>
      if c == EXIST then Success((NoValue, true))
      else Failure("Column name on the right side of compare operator is not supported")
    case ValTuple(vs) => Success((TupleText(vs), false))
    case _ => Failure("Unexpected SQL expression right part's type")
  }

  predicate IsText(o: Operand) {
    o.TupleText? || (o.Scalar? && o.v.StrVal?)
  }

  /** A document with one entry. */
  function Only(key: string, c: Condition): Filter {
    Filter([Entry(key, c)])
  }

  function HandleComparison(e: Tree): (r: Result<Filter>)
    requires e.Comparison?
    ensures r.Success? ==> |r.value.entries| <= 1
  {
    if !e.left.ColName? then Failure("Invalid comparison expression, the left must be a column name") else
    var c := e.left.name;
    var (o, exist) :- RightOperand(e.right);
    if (e.op.In? || e.op.NotIn? || e.op.Like? || e.op.NotLike?) && !IsText(o) then
      Failure("interface conversion: operand is not a string")
    else
      Success(
        match e.op
        case Eq => if exist then Only(c, Tests([Present(true)])) else Only(c, Equals(o))
        case Ne => if exist then Only(c, Tests([Present(false)])) else Only(c, Tests([Differs(o)]))
        case Gt => Only(c, Tests([Above(o)]))
        case Lt => Only(c, Tests([Below(o)]))
        case Ge => Only(c, Tests([AtLeast(o)]))
        case Le => Only(c, Tests([NotAbove(o)]))
        case In => Only(c, Tests([OneOf(o)]))
        case NotIn => Only(c, Tests([NoneOf(o)]))
        case Like => Only(c, Tests([Regex(o)]))
        case NotLike => Only(c, Tests([NotRegex(o)]))
        case OtherOp(_) => Filter([]))
  }

  function HandleBetween(e: Tree): (r: Result<Filter>)
    requires e.RangeCond?
    ensures r.Success? ==> |r.value.entries| == 1
  {
    if !e.left.ColName? then Failure("Range column name missing")
    else if !RangeBound(e.from) then Failure("Invalid BETWEEN 'from' value")
    else if !RangeBound(e.to) then Failure("Invalid BETWEEN 'to' value")
    else
      var from, to := Scalar(e.from.val), Scalar(e.to.val);
      Success(Only(e.left.name,
                   if e.negated then Tests([Below(from), Above(to)]) else Tests([AtLeast(from), NotAbove(to)])))
  }

  // ---------- the recursive compiler, as a function ----------

  function Singles(f: Filter): seq<Filter> {
    seq(|f.entries|, i requires 0 <= i < |f.entries| => Filter([f.entries[i]]))
  }

  function Compiled(e: Tree): (r: Result<Filter>)
    ensures r.Success? ==> |r.value.entries| <= 1
  {
    match e
    case Comparison(_, _, _, _) => HandleComparison(e)
    case RangeCond(_, _, _, _) => HandleBetween(e)
    case And(left, right) =>
      var l :- Compiled(left);
      var r :- Compiled(right);
      Success(Only(AND, Docs(Singles(l) + Singles(r))))
    case Or(left, right) =>
      var l :- Compiled(left);
      var r :- Compiled(right);
      Success(Only(OR, Docs(Singles(l) + Singles(r))))
    case Paren(x) => Compiled(x)
    case Is(_, _) => Failure("'is' expression currently not supported")
    case Not(_) => Failure("'not' expression currently not supported")
    case _ => Failure("Unexpected SQL expression type received")
  }

  // ---------- the handlers with loops ----------

  function Indices(n: nat): (r: set<nat>)
    ensures |r| == n
    ensures forall i: nat :: i in r <==> i < n
  {
    if n == 0 then {} else Indices(n - 1) + {n - 1}
  }

  /** Appends every entry of a document to the array, in whatever order the map yields them. */
  method AppendEntries(docs: seq<Filter>, f: Filter) returns (r: seq<Filter>)
    ensures |r| == |docs| + |f.entries|
    ensures |f.entries| <= 1 ==> r == docs + Singles(f)
    ensures forall i | 0 <= i < |f.entries| :: Filter([f.entries[i]]) in r
    ensures docs <= r
  {
    r := docs;
    var left := Indices(|f.entries|);
    ghost var total := left;
    while left != {}
      invariant left <= total
      invariant |r| == |docs| + |f.entries| - |left|
      invariant docs <= r
      invariant forall i | i in total - left :: Filter([f.entries[i]]) in r
      invariant |f.entries| == 1 ==> r == if left == total then docs else docs + Singles(f)
      decreases left
    {
      var i :| i in left;
      r := r + [Filter([f.entries[i]])];
      left := left - {i};
      if |f.entries| == 1 {
        assert total == {0} && i == 0;
      }
    }
  }

  method HandleAnd(e: Tree, parent: Tree) returns (r: Result<Filter>)
    requires e.And?
    ensures r == Compiled(e)
    decreases e, 0
  {
    var l := HandleSelectWhere(e.left, e);
    if l.Failure? { return l; }
    var right := HandleSelectWhere(e.right, e);
    if right.Failure? { return right; }
    var docs := AppendEntries([], l.value);
    docs := AppendEntries(docs, right.value);
    assert [] + Singles(l.value) == Singles(l.value);
    if parent.And? {
      return Success(Only(AND, Docs(docs)));
    }
    return Success(Only(AND, Docs(docs)));
  }

  method HandleOr(e: Tree, parent: Tree) returns (r: Result<Filter>)
    requires e.Or?
    ensures r == Compiled(e)
    decreases e, 0
  {
    var l := HandleSelectWhere(e.left, e);
    if l.Failure? { return l; }
    var right := HandleSelectWhere(e.right, e);
    if right.Failure? { return right; }
    var docs := AppendEntries([], l.value);
    docs := AppendEntries(docs, right.value);
    assert [] + Singles(l.value) == Singles(l.value);
    if parent.Or? {
      return Success(Only(OR, Docs(docs)));
    }
    return Success(Only(OR, Docs(docs)));
  }

  /** Whatever order the loops take, the outcome is the function's. */
  method HandleSelectWhere(e: Tree, parent: Tree) returns (r: Result<Filter>)
    ensures r == Compiled(e)
    decreases e, 1
  {
    hide HandleComparison, HandleBetween, Singles, Only;
    match e {
      case Comparison(_, _, _, _) => r := HandleComparison(e);
      case RangeCond(_, _, _, _) => r := HandleBetween(e);
      case And(_, _) => r := HandleAnd(e, parent);
      case Or(_, _) => r := HandleOr(e, parent);
      case Paren(x) => r := HandleSelectWhere(x, parent);
      case Is(_, _) => r := Failure("'is' expression currently not supported");
      case Not(_) => r := Failure("'not' expression currently not supported");
      case _ => r := Failure("Unexpected SQL expression type received");
    }
  }

  // ---------- preservation of meaning ----------

  /** Supported expressions none of whose columns is named like a logical operator. */
  predicate Expressible(e: Tree) {
    match e
    case Comparison(_, left, _, _) => Supported(e) && IsField(left.name)
    case RangeCond(_, left, _, _) => Supported(e) && IsField(left.name)
    case And(l, r) => Expressible(l) && Expressible(r)
    case Or(l, r) => Expressible(l) && Expressible(r)
    case Paren(x) => Expressible(x)
    case _ => false
  }

  /** The expression the documents actually stand for: NOT BETWEEN asks for both sides at once. */
  function AsCompiled(e: Tree): (r: Tree) {
    match e
    case RangeCond(negated, c, from, to) =>
      if negated then And(Comparison(Lt, c, from, Nil), Comparison(Gt, c, to, Nil)) else e
    case And(l, r) => And(AsCompiled(l), AsCompiled(r))
    case Or(l, r) => Or(AsCompiled(l), AsCompiled(r))
    case Paren(x) => Paren(AsCompiled(x))
    case _ => e
  }

  predicate HasNotBetween(e: Tree) {
    match e
    case RangeCond(negated, _, _, _) => negated
    case And(l, r) => HasNotBetween(l) || HasNotBetween(r)
    case Or(l, r) => HasNotBetween(l) || HasNotBetween(r)
    case Paren(x) => HasNotBetween(x)
    case _ => false
  }

  lemma OnlyMatches(key: string, c: Condition, row: Row)
    ensures Matches(Only(key, c), row) == MatchesEntry(Entry(key, c), row)
  {
    assert Only(key, c).entries[0] == Entry(key, c);
  }

  lemma ComparisonMeans(e: Tree, row: Row)
    requires e.Comparison? && Expressible(e)
    ensures HandleComparison(e).Success?
    ensures |HandleComparison(e).value.entries| == 1
    ensures Matches(HandleComparison(e).value, row) == Holds(e, row)
  {
    hide Less, AtMost, Same, FieldAmong;
    var Entry(key, c) := HandleComparison(e).value.entries[0];
    OnlyMatches(key, c, row);
    if c.Tests? {
      assert c.tests == [c.tests[0]];
    }
  }

  lemma BetweenMeans(e: Tree, row: Row)
    requires e.RangeCond? && Expressible(e)
    ensures HandleBetween(e).Success?
    ensures Matches(HandleBetween(e).value, row) == Holds(AsCompiled(e), row)
  {
    var Entry(key, c) := HandleBetween(e).value.entries[0];
    OnlyMatches(key, c, row);
    assert c.tests == [c.tests[0], c.tests[1]];
  }

  lemma {:induction false} DocumentMeans(e: Tree, row: Row)
    requires Expressible(e)
    ensures Compiled(e).Success?
    ensures |Compiled(e).value.entries| == 1
    ensures Matches(Compiled(e).value, row) == Holds(AsCompiled(e), row)
    decreases e
  {
    match e
    case Comparison(_, _, _, _) =>
      ComparisonMeans(e, row);
    case RangeCond(_, _, _, _) =>
      BetweenMeans(e, row);
    case And(l, r) =>
      DocumentMeans(l, row);
      DocumentMeans(r, row);
      PairMatches(AND, Compiled(l).value, Compiled(r).value, row);
    case Or(l, r) =>
      DocumentMeans(l, row);
      DocumentMeans(r, row);
      PairMatches(OR, Compiled(l).value, Compiled(r).value, row);
    case Paren(x) =>
      DocumentMeans(x, row);
  }

  lemma PairMatches(key: string, l: Filter, r: Filter, row: Row)
    requires key == AND || key == OR
    requires |l.entries| == |r.entries| == 1
    ensures var f := Only(key, Docs(Singles(l) + Singles(r)));
            Matches(f, row) == if key == AND then Matches(l, row) && Matches(r, row)
                               else Matches(l, row) || Matches(r, row)
  {
    var ds := Singles(l) + Singles(r);
    assert ds[0] == l by { assert l.entries == [l.entries[0]]; }
    assert ds[1] == r by { assert r.entries == [r.entries[0]]; }
    assert |ds| == 2;
    OnlyMatches(key, Docs(ds), row);
  }

  lemma {:induction false} AsCompiledUnchanged(e: Tree)
    ensures AsCompiled(e) == e <==> !HasNotBetween(e)
  {
    match e
    case And(l, r) =>
      AsCompiledUnchanged(l);
      AsCompiledUnchanged(r);
    case Or(l, r) =>
      AsCompiledUnchanged(l);
      AsCompiledUnchanged(r);
    case Paren(x) =>
      AsCompiledUnchanged(x);
    case _ =>
  }

  /** Without NOT BETWEEN the document matches exactly the rows of the expression. */
  lemma DocumentPreserved(e: Tree, row: Row)
    requires Expressible(e) && !HasNotBetween(e)
    ensures Compiled(e).Success?
    ensures |Compiled(e).value.entries| == 1
    ensures Matches(Compiled(e).value, row) == Holds(e, row)
  {
    DocumentMeans(e, row);
    AsCompiledUnchanged(e);
  }

  /** A NOT BETWEEN over a proper interval never matches anything. */
  lemma NotBetweenMatchesNothing(c: string, from: Value, to: Value, row: Row)
    requires IsField(c) && !from.BoolVal? && !to.BoolVal? && AtMost(from, to)
    ensures !Matches(Compiled(RangeCond(true, ColName(c), SQLVal(from), SQLVal(to))).value, row)
  {
    DocumentMeans(RangeCond(true, ColName(c), SQLVal(from), SQLVal(to)), row);
    if row.value(c).Some? {
      var x := row.value(c).value;
      if Less(x, from) && Less(to, x) {
        LessTransitive(x, from, to);
        LessTransitive(x, to, x);
        LessIrreflexive(x);
      }
    }
  }

  ghost predicate RangeFaithful(e: Tree)
    requires e.RangeCond? && Expressible(e)
  {
    forall row: Row | row.value(e.left.name).Some? ::
      Matches(Compiled(e).value, row) == Holds(e, row)
  }

  /** A range condition keeps its meaning on all rows that have the field iff it is not negated. */
  lemma RangeFaithfulExactly(e: Tree)
    requires e.RangeCond? && Expressible(e)
    ensures RangeFaithful(e) <==> !e.negated
  {
    if e.negated {
      var from, to := e.from.val, e.to.val;
      var x := match to
        case IntVal(n) => IntVal(n + 1)
        case FloatVal(r) => FloatVal(r + 1.0)
        case StrVal(s) => StrVal(s + "x");
      if to.StrVal? { TextLessExtended(to.s, "x"); }
      assert Less(to, x);
      var v := if AtMost(from, to) then x else to;
      var row := Row(_ => Some(v), (_, _) => false, (_, _, _) => false);
      DocumentMeans(e, row);
      LessIrreflexive(to);
      if AtMost(from, to) {
        NotBetweenMatchesNothing(e.left.name, from, to, row);
        LessIrreflexive(x);
        if AtMost(x, to) { LessTransitive(to, x, to); }
      }
      assert Holds(e, row) && !Matches(Compiled(e).value, row);
    } else {
      forall row: Row | row.value(e.left.name).Some?
        ensures Matches(Compiled(e).value, row) == Holds(e, row)
      {
        DocumentPreserved(e, row);
      }
    }
  }

  /** AND and OR become a list of the two documents, nested ones included, under "$and" and "$or". */
  lemma TwoDocuments(l: Tree, r: Tree)
    requires Expressible(l) && Expressible(r)
    ensures Compiled(l).Success? && Compiled(r).Success?
    ensures Compiled(And(l, r)) == Success(Filter([Entry("$and", Docs([Compiled(l).value, Compiled(r).value]))]))
    ensures Compiled(Or(l, r)) == Success(Filter([Entry("$or", Docs([Compiled(l).value, Compiled(r).value]))]))
  {
    OneEntry(l);
    OneEntry(r);
    hide Expressible;
    assert Singles(Compiled(l).value) + Singles(Compiled(r).value) == [Compiled(l).value, Compiled(r).value];
  }

  lemma OneEntry(e: Tree)
    requires Expressible(e)
    ensures Compiled(e).Success? && Singles(Compiled(e).value) == [Compiled(e).value]
  {
    DocumentMeans(e, Row(_ => None, (_, _) => false, (_, _, _) => false));
    var d := Compiled(e).value;
    assert d.entries == [d.entries[0]];
  }
}
