/**
 * The SQL syntax trees that travel through the query pipeline, and what a WHERE
 * expression says about one row of a data source.
 */
module Sql {
  import opened Wrappers

  // ---------- values ----------

  /** Literals. Integers and floats are both numbers: 1 and 1.0 are the same value. */
  datatype Value = IntVal(n: int) | FloatVal(x: real) | StrVal(s: string) | BoolVal(b: bool) {

    predicate Numeric() {
      IntVal? || FloatVal?
    }

    function Num(): real
      requires Numeric()
    {
      if IntVal? then n as real else x
    }
  }

  predicate Same(a: Value, b: Value) {
    if a.Numeric() && b.Numeric() then a.Num() == b.Num() else a == b
  }

  /** Strings compare lexicographically; values of different kinds are not ordered. */
  predicate Less(a: Value, b: Value) {
    if a.Numeric() && b.Numeric() then a.Num() < b.Num()
    else a.StrVal? && b.StrVal? && TextLess(a.s, b.s)
  }

  predicate AtMost(a: Value, b: Value) {
    Less(a, b) || Same(a, b)
  }

  predicate TextLess(a: string, b: string) {
    if a == [] || b == [] then a == [] && b != []
    else a[0] < b[0] || (a[0] == b[0] && TextLess(a[1..], b[1..]))
  }

  // ---------- syntax ----------

  datatype Operator = Eq | Ne | Gt | Lt | Ge | Le | In | NotIn | Like | NotLike | OtherOp(text: string)

  /**
   * Every node of a parsed statement. Nil stands for Go's nil pointers and nil
   * interfaces. Opaque is any expression that neither the walker nor the
   * compilers look into: functions, arithmetic, hex literals, NULL.
   */
  datatype Tree =
    | Nil
    | ColName(name: string)
    | SQLVal(val: Value)
    | ValTuple(vals: seq<Value>)
    | Opaque(text: string)
    | Comparison(op: Operator, left: Tree, right: Tree, escape: Tree)
    | RangeCond(negated: bool, left: Tree, from: Tree, to: Tree)
    | And(left: Tree, right: Tree)
    | Or(left: Tree, right: Tree)
    | Not(expr: Tree)
    | Is(test: string, expr: Tree)
    | Paren(expr: Tree)
    | Where(expr: Tree)
    | Limit(offset: Tree, rowcount: Tree)
    | Select(fields: seq<string>, tables: seq<string>, distinct: string, where: Tree, limit: Tree)

  /** On the right of a comparison this column asks whether the field is present. */
  const EXIST := "exist"

  // ---------- meaning ----------

  /**
   * One row: the value of each field, the LIKE patterns each field meets, and the
   * other operators under which a field meets a right side. LIKE and the other
   * operators themselves are not interpreted.
   */
  datatype Row = Row(value: string -> Option<Value>, like: (string, string) -> bool,
                     other: (string, string, Tree) -> bool)

  predicate Compare(op: Operator, x: Value, v: Value) {
    match op
    case Eq => Same(x, v)
    case Gt => Less(v, x)
    case Lt => Less(x, v)
    case Ge => AtMost(v, x)
    case Le => AtMost(x, v)
    case _ => false
  }

  predicate FieldIs(op: Operator, c: string, v: Value, row: Row) {
    row.value(c).Some? && Compare(op, row.value(c).value, v)
  }

  predicate FieldAmong(c: string, vals: seq<Value>, row: Row) {
    exists i | 0 <= i < |vals| :: FieldIs(Eq, c, vals[i], row)
  }

  predicate FieldBetween(c: string, from: Value, to: Value, row: Row) {
    FieldIs(Ge, c, from, row) && FieldIs(Le, c, to, row)
  }

  predicate HoldsComparison(op: Operator, c: string, right: Tree, row: Row) {
    match (op, right)
    case (Eq, SQLVal(v)) => FieldIs(Eq, c, v, row)
    case (Ne, SQLVal(v)) => !FieldIs(Eq, c, v, row)
    case (Eq, ColName(d)) => d == EXIST && row.value(c).Some?
    case (Ne, ColName(d)) => d == EXIST && row.value(c).None?
    case (Gt, SQLVal(v)) => FieldIs(Gt, c, v, row)
    case (Lt, SQLVal(v)) => FieldIs(Lt, c, v, row)
    case (Ge, SQLVal(v)) => FieldIs(Ge, c, v, row)
    case (Le, SQLVal(v)) => FieldIs(Le, c, v, row)
    case (In, ValTuple(vs)) => FieldAmong(c, vs, row)
    case (NotIn, ValTuple(vs)) => !FieldAmong(c, vs, row)
    case (Like, SQLVal(StrVal(p))) => row.like(c, p)
    case (NotLike, SQLVal(StrVal(p))) => !row.like(c, p)
    case (OtherOp(text), SQLVal(_)) => row.other(text, c, right)
    case (OtherOp(text), ValTuple(_)) => row.other(text, c, right)
    case (OtherOp(text), ColName(d)) => d == EXIST && row.other(text, c, right)
    case _ => false
  }

  /** Whether a row satisfies an expression. A missing field makes the negative operators true. */
  predicate Holds(e: Tree, row: Row) {
    match e
    case Comparison(op, ColName(c), right, _) => HoldsComparison(op, c, right, row)
    case RangeCond(negated, ColName(c), SQLVal(f), SQLVal(t)) => negated != FieldBetween(c, f, t, row)
    case And(l, r) => Holds(l, row) && Holds(r, row)
    case Or(l, r) => Holds(l, row) || Holds(r, row)
    case Not(x) => !Holds(x, row)
    case Paren(x) => Holds(x, row)
    case _ => false
  }

  // ---------- the expressions the compilers promise to handle ----------

  predicate SupportedComparison(op: Operator, right: Tree) {
    match op
    case Eq => right.SQLVal? || right == ColName(EXIST)
    case Ne => right.SQLVal? || right == ColName(EXIST)
    case Gt => right.SQLVal?
    case Lt => right.SQLVal?
    case Ge => right.SQLVal?
    case Le => right.SQLVal?
    case In => right.ValTuple?
    case NotIn => right.ValTuple?
    case Like => right.SQLVal? && right.val.StrVal?
    case NotLike => right.SQLVal? && right.val.StrVal?
    case OtherOp(_) => false
  }

  /** BETWEEN takes integers, floats and strings; TRUE and FALSE are other nodes in the parser. */
  predicate RangeBound(e: Tree) {
    e.SQLVal? && !e.val.BoolVal?
  }

  predicate Supported(e: Tree) {
    match e
    case Comparison(op, left, right, _) => left.ColName? && SupportedComparison(op, right)
    case RangeCond(_, left, from, to) => left.ColName? && RangeBound(from) && RangeBound(to)
    case And(l, r) => Supported(l) && Supported(r)
    case Or(l, r) => Supported(l) && Supported(r)
    case Paren(x) => Supported(x)
    case _ => false
  }

  // ---------- facts about the order ----------

  lemma {:induction false} TextLessTransitive(a: string, b: string, c: string)
    requires TextLess(a, b) && TextLess(b, c)
    ensures TextLess(a, c)
  {
    if a != [] && a[0] == b[0] == c[0] {
      TextLessTransitive(a[1..], b[1..], c[1..]);
    }
  }

  lemma {:induction false} TextLessIrreflexive(a: string)
    ensures !TextLess(a, a)
  {
    if a != [] {
      TextLessIrreflexive(a[1..]);
    }
  }

  lemma {:induction false} TextLessExtended(a: string, suffix: string)
    requires suffix != []
    ensures TextLess(a, a + suffix)
  {
    if a == [] {
      assert a + suffix == suffix;
    } else {
      assert (a + suffix)[1..] == a[1..] + suffix;
      TextLessExtended(a[1..], suffix);
    }
  }

  lemma LessTransitive(a: Value, b: Value, c: Value)
    requires Less(a, b) && AtMost(b, c)
    ensures Less(a, c)
  {
    if a.StrVal? && b.StrVal? && c.StrVal? && b != c {
      TextLessTransitive(a.s, b.s, c.s);
    }
  }

  lemma LessIrreflexive(a: Value)
    ensures !Less(a, a)
  {
    if a.StrVal? {
      TextLessIrreflexive(a.s);
    }
  }

  // ---------- what the definitions come to ----------

  /** A comparison with the column "exist" asks whether the field is there. */
  lemma ExistMeans(c: string, escape: Tree, row: Row)
    ensures Holds(Comparison(Eq, ColName(c), ColName("exist"), escape), row) <==> row.value(c).Some?
    ensures Holds(Comparison(Ne, ColName(c), ColName("exist"), escape), row) <==> row.value(c).None?
  {
  }

  /** Of two numbers, and of two strings, exactly one is smaller unless they are the same. */
  lemma ExactlyOne(a: Value, b: Value)
    requires (a.Numeric() && b.Numeric()) || (a.StrVal? && b.StrVal?)
    ensures Less(a, b) || Same(a, b) || Less(b, a)
    ensures !(Less(a, b) && Less(b, a)) && !(Less(a, b) && Same(a, b))
    ensures AtMost(a, b) <==> !Less(b, a)
    ensures a.StrVal? ==> (Same(a, b) <==> a.s == b.s)
    ensures a.IntVal? && b.IntVal? ==> (Less(a, b) <==> a.n < b.n)
    ensures a.IntVal? && b.FloatVal? ==> (Same(a, b) <==> a.n as real == b.x) && (Less(a, b) <==> a.n as real < b.x)
  {
    if a.StrVal? { TextsCompared(a.s, b.s); }
  }

  lemma {:induction false} TextsCompared(a: string, b: string)
    ensures a == b || TextLess(a, b) || TextLess(b, a)
    ensures !(TextLess(a, b) && TextLess(b, a)) && !TextLess(a, a)
  {
    if a != [] && b != [] {
      TextsCompared(a[1..], b[1..]);
      assert a == [a[0]] + a[1..] && b == [b[0]] + b[1..];
    }
    TextLessIrreflexive(a);
  }

  /** What a comparison with a value asks of the field; without the field only the negative one holds. */
  lemma ComparisonsMean(c: string, v: Value, escape: Tree, row: Row)
    ensures var holds := (op: Operator) => Holds(Comparison(op, ColName(c), SQLVal(v), escape), row);
            match row.value(c)
            case None => holds(Ne) && !holds(Eq) && !holds(Gt) && !holds(Lt) && !holds(Ge) && !holds(Le)
            case Some(x) =>
              && (holds(Eq) <==> Same(x, v)) && (holds(Ne) <==> !Same(x, v))
              && (holds(Gt) <==> Less(v, x)) && (holds(Lt) <==> Less(x, v))
              && (holds(Ge) <==> Less(v, x) || Same(v, x)) && (holds(Le) <==> Less(x, v) || Same(x, v))
  {
  }

  /** IN asks for one of the values, NOT IN for none of them. */
  lemma ListsMean(c: string, vs: seq<Value>, escape: Tree, row: Row)
    ensures var found := row.value(c).Some? && exists i | 0 <= i < |vs| :: Same(row.value(c).value, vs[i]);
            && Holds(Comparison(In, ColName(c), ValTuple(vs), escape), row) == found
            && Holds(Comparison(NotIn, ColName(c), ValTuple(vs), escape), row) == !found
  {
    if row.value(c).Some? {
      assert forall i | 0 <= i < |vs| :: FieldIs(Eq, c, vs[i], row) == Same(row.value(c).value, vs[i]);
    }
  }

  /** BETWEEN includes both ends, and NOT BETWEEN is its negation. */
  lemma RangesMean(c: string, from: Value, to: Value, row: Row)
    ensures var within := row.value(c).Some? && AtMost(from, row.value(c).value) && AtMost(row.value(c).value, to);
            && Holds(RangeCond(false, ColName(c), SQLVal(from), SQLVal(to)), row) == within
            && Holds(RangeCond(true, ColName(c), SQLVal(from), SQLVal(to)), row) == !within
  {
  }
}
