/** The stages put together: from the user's statement to what the data sources match. */
module Pipeline {
  import opened Wrappers
  import opened Sql
  import opened Replace
  import opened Renaming
  import opened Split
  import opened Parse
  import Elastic
  import Mongo

  /** The WHERE expression of a returned query. */
  function Filter(q: Tree): Tree {
    if q.Select? && q.where.Where? then q.where.expr else Nil
  }

  /** Some of the queries, as they stand after renaming, match the row. */
  predicate Found(queries: seq<Tree>, row: Row) {
    exists i | 0 <= i < |queries| :: Holds(Filter(queries[i]), row)
  }

  lemma QueryShape(view: Tree, max: int, source: Source, i: nat)
    requires Statement(view) && Parsed(view, max, source).Success?
    requires i < |Parsed(view, max, source).value|
    ensures view.where.Where?
    ensures var q := Parsed(view, max, source).value[i];
            var ws := Wheres(view.where.expr, source.supportsSQL);
            && q.Select? && q.where.Where?
            && Filter(q) == RenamedSlot(ws[i], source.replaceFields)
            && Clamped(view.limit, max).Success?
            && q.limit == Renamed(Clamped(view.limit, max).value, source.replaceFields)
  {
    ValidatedKeepsWhere(view, max, source.includeFields);
    var s := Validated(view, max, source.includeFields).value;
    var w := Where(Wheres(view.where.expr, source.supportsSQL)[i]);
    assert s.limit == Clamped(view.limit, max).value;
    var q := s.(where := w);
    assert Parsed(view, max, source).value[i] == Renamed(q, source.replaceFields);
    ChildrenRenamed(q, w, q.limit, Nil, source.replaceFields);
    ChildrenRenamed(w, w.expr, Nil, Nil, source.replaceFields);
  }

  // ---------- limits ----------

  function LimitOf(q: Tree): Tree {
    if q.Select? then q.limit else Nil
  }

  /** The rowcount is an integer between nothing and the server's maximum. */
  predicate WithinMaximum(limit: Tree, max: int) {
    limit.Limit? && AsInteger(limit.rowcount).Some? && 0 <= AsInteger(limit.rowcount).value <= max
  }

  /**
   * Every query returned has an integer offset, and asks for at most the server's
   * maximum unless the statement had a LIMIT node without a rowcount.
   */
  lemma LimitsBounded(view: Tree, max: nat, source: Source, i: nat)
    requires Int64(max)
    requires Statement(view) && Parsed(view, max, source).Success?
    requires i < |Parsed(view, max, source).value|
    ensures var limit := LimitOf(Parsed(view, max, source).value[i]);
            && limit.Limit? && IntegerText(limit.offset)
            && (WithinMaximum(limit, max) <==> (view.limit.Limit? ==> !view.limit.rowcount.Nil?))
  {
    QueryShape(view, max, source, i);
    var l := Clamped(view.limit, max).value;
    ChildrenRenamed(l, l.offset, l.rowcount, Nil, source.replaceFields);
  }

  /**
   * The offset is the user's, or 0; the rowcount is the smaller of the user's and
   * the server's maximum, or the maximum if the statement has no LIMIT.
   */
  lemma LimitExactly(view: Tree, max: nat, source: Source, i: nat)
    requires Int64(max) && Statement(view) && Parsed(view, max, source).Success?
    requires i < |Parsed(view, max, source).value|
    ensures var limit := LimitOf(Parsed(view, max, source).value[i]);
            && limit.Limit?
            && (if view.limit.Limit? && view.limit.offset != Nil then limit.offset == view.limit.offset
                else AsInteger(limit.offset) == Some(0))
            && (if view.limit == Nil then AsInteger(limit.rowcount) == Some(max)
                else if view.limit.rowcount == Nil then limit.rowcount == Nil
                else
                  && AsInteger(view.limit.rowcount).Some?
                  && var n := AsInteger(view.limit.rowcount).value;
                     if n <= max then limit.rowcount == view.limit.rowcount
                     else AsInteger(limit.rowcount) == Some(max))
  {
    QueryShape(view, max, source, i);
    var l := Clamped(view.limit, max).value;
    ChildrenRenamed(l, l.offset, l.rowcount, Nil, source.replaceFields);
    LiteralRead(0);
    LiteralRead(max);
    hide AsInteger, Renamed, RenamedSlot, Parsed;
    RenamingSparesNumbers(l.offset, source.replaceFields);
    RenamingSparesNumbers(l.rowcount, source.replaceFields);
  }

  lemma RenamingSparesNumbers(e: Tree, m: Fields)
    ensures AsInteger(e).Some? || e == Nil ==> RenamedSlot(e, m) == e
  {
    hide Atoi;
  }

  predicate IntegerOrNil(e: Tree) {
    e == Nil || AsInteger(e).Some?
  }

  /** A statement is accepted iff it filters, its LIMIT is of integers, and it has one table and no DISTINCT. */
  lemma AcceptedExactly(view: Tree, max: int, source: Source)
    requires Statement(view)
    ensures Parsed(view, max, source).Success? <==>
              && view.where.Where?
              && (view.where.expr.Paren? || view.where.expr.And? || view.where.expr.Or? || view.where.expr.Comparison?)
              && (view.limit.Limit? ==>
                    && IntegerOrNil(view.limit.offset) && IntegerOrNil(view.limit.rowcount)
                    && (view.limit.rowcount != Nil ==> AsInteger(view.limit.rowcount).value >= 0))
              && |view.tables| == 1 && view.distinct == ""
  {
    hide AsInteger;
  }

  /** Of a statement that is not accepted the first fault is reported. */
  lemma FirstFault(view: Tree, max: int, source: Source)
    requires Statement(view) && Parsed(view, max, source).Failure?
    ensures Parsed(view, max, source).error ==
            if view.where == Nil then "WHERE filters are missing"
            else if !(view.where.expr.Paren? || view.where.expr.And? || view.where.expr.Or?
                      || view.where.expr.Comparison?)
            then "WHERE statement is not a list of filters"
            else if view.limit.Limit? && !IntegerOrNil(view.limit.offset) then "LIMIT ?,x value is not an integer"
            else if view.limit.Limit? && !IntegerOrNil(view.limit.rowcount) then "LIMIT x,? value is not an integer"
            else if view.limit.Limit? && view.limit.rowcount != Nil && AsInteger(view.limit.rowcount).value < 0
            then "LIMIT rowcount can't be less than 0"
            else if |view.tables| != 1 then "Multiple FROM currently not supported"
            else "DISTINCT shouldn't be used"
  {
    hide AsInteger;
  }

  /** Besides WHERE and LIMIT a query differs from the statement in the source's own field list only. */
  lemma RestExactly(view: Tree, max: int, source: Source, i: nat)
    requires Statement(view) && Parsed(view, max, source).Success?
    requires i < |Parsed(view, max, source).value|
    ensures var q := Parsed(view, max, source).value[i];
            && q.Select? && q.tables == view.tables && q.distinct == ""
            && q.fields == if |source.includeFields| > 0 then source.includeFields else view.fields
  {
    QueryShape(view, max, source, i);
    AcceptedExactly(view, max, source);
    hide Renamed, RenamedSlot, Clamped;
    var s := Validated(view, max, source.includeFields).value;
    var q := s.(where := Where(Wheres(view.where.expr, source.supportsSQL)[i]));
    ChildrenRenamed(q, q.where, q.limit, Nil, source.replaceFields);
  }

  /** Sources that take SQL get one query, with the statement's own condition under the source's names. */
  lemma OneQuery(view: Tree, max: int, source: Source)
    requires Statement(view) && Parsed(view, max, source).Success? && source.supportsSQL
    ensures |Parsed(view, max, source).value| == 1
    ensures Filter(Parsed(view, max, source).value[0]) == Renamed(view.where.expr, source.replaceFields)
  {
    QueryShape(view, max, source, 0);
    AcceptedExactly(view, max, source);
  }

  // ---------- rows ----------

  lemma FoundIffSome(view: Tree, max: int, source: Source, row: Row)
    requires Statement(view) && Parsed(view, max, source).Success? && ExistKept(source.replaceFields)
    ensures Found(Parsed(view, max, source).value, row) <==>
              SomeHolds(Wheres(view.where.expr, source.supportsSQL), UserRow(row, source.replaceFields))
  {
    var qs := Parsed(view, max, source).value;
    var ws := Wheres(view.where.expr, source.supportsSQL);
    forall i | 0 <= i < |qs|
      ensures Holds(Filter(qs[i]), row) == Holds(ws[i], UserRow(row, source.replaceFields))
    {
      QueryShape(view, max, source, i);
      SlotKept(ws[i], source.replaceFields, row);
    }
  }

  /** Whatever the statement's shape, no query finds a row the user did not ask for. */
  lemma ParseSound(view: Tree, max: int, source: Source, row: Row)
    requires Statement(view) && Parsed(view, max, source).Success? && ExistKept(source.replaceFields)
    ensures Found(Parsed(view, max, source).value, row) ==>
              Holds(view.where.expr, UserRow(row, source.replaceFields))
  {
    FoundIffSome(view, max, source, row);
    SplitSound(view.where.expr, UserRow(row, source.replaceFields));
  }

  /**
   * On the shapes the splitter covers, and on all shapes for sources that take
   * SQL, the queries together find exactly the rows the user asked for.
   */
  lemma ParsePreserves(view: Tree, max: int, source: Source, row: Row)
    requires Statement(view) && Parsed(view, max, source).Success? && ExistKept(source.replaceFields)
    requires source.supportsSQL || Covered(view.where.expr)
    ensures Found(Parsed(view, max, source).value, row) <==>
              Holds(view.where.expr, UserRow(row, source.replaceFields))
  {
    FoundIffSome(view, max, source, row);
    var user := UserRow(row, source.replaceFields);
    if source.supportsSQL {
      assert Wheres(view.where.expr, true)[0] == view.where.expr;
    } else {
      SplitPreserved(view.where.expr, user);
    }
  }

  // ---------- down to the backends ----------

  lemma {:induction false} SupportedKept(e: Tree, m: Fields)
    requires ExistKept(m) && Supported(e)
    ensures Supported(Renamed(e, m)) && Supported(RenamedSlot(e, m))
  {
    match e
    case Comparison(_, left, right, _) =>
      NotLiteral(left, m);
      NotLiteral(right, m);
    case RangeCond(_, left, from, to) =>
      NotLiteral(left, m);
      NotLiteral(from, m);
      NotLiteral(to, m);
    case And(l, r) => SupportedKept(l, m); SupportedKept(r, m);
    case Or(l, r) => SupportedKept(l, m); SupportedKept(r, m);
    case Paren(x) => SupportedKept(x, m);
  }

  lemma {:induction false} ConditionsSupported(e: Tree)
    requires Supported(e)
    ensures forall i | 0 <= i < |Conditions(e)| :: Supported(Conditions(e)[i])
  {
    match e
    case Or(l, r) => ConditionsSupported(l);
    case _ =>
  }

  lemma WheresSupported(where: Tree, supportsSQL: bool)
    requires Supported(where)
    ensures forall i | 0 <= i < |Wheres(where, supportsSQL)| :: Supported(Wheres(where, supportsSQL)[i])
  {
    if Splittable(where) != Nil {
      if where.And? && where.left.Paren? {
        assert Supported(where.left.expr);
      }
      ConditionsSupported(Splittable(where));
    }
  }

  /** Some of the compiled Elasticsearch queries match the row. */
  predicate ElasticFinds(queries: seq<Tree>, row: Row) {
    exists i | 0 <= i < |queries| ::
      var q := Elastic.HandleSelectWhere(Filter(queries[i]), true, Nil);
      q.Success? && |q.value| == 1 && Elastic.Matches(q.value[0], row)
  }

  /**
   * From the statement to the search engine: the compiled queries match exactly
   * the stored rows that satisfy the user's expression under the user's names.
   */
  lemma ElasticEndToEnd(view: Tree, max: int, source: Source, row: Row)
    requires Statement(view) && Parsed(view, max, source).Success? && ExistKept(source.replaceFields)
    requires source.supportsSQL || Covered(view.where.expr)
    requires Supported(view.where.expr)
    ensures ElasticFinds(Parsed(view, max, source).value, row) <==>
              Holds(view.where.expr, UserRow(row, source.replaceFields))
  {
    var qs := Parsed(view, max, source).value;
    var ws := Wheres(view.where.expr, source.supportsSQL);
    WheresSupported(view.where.expr, source.supportsSQL);
    forall i | 0 <= i < |qs|
      ensures var q := Elastic.HandleSelectWhere(Filter(qs[i]), true, Nil);
              q.Success? && |q.value| == 1 && Elastic.Matches(q.value[0], row) == Holds(Filter(qs[i]), row)
    {
      QueryShape(view, max, source, i);
      SupportedKept(ws[i], source.replaceFields);
      Elastic.QueryPreserved(Filter(qs[i]), row);
    }
    ParsePreserves(view, max, source, row);
  }

  // ---------- down to MongoDB ----------

  /** No column is renamed to a logical operator. */
  predicate FieldsKept(m: Fields) {
    forall c | c in m :: Mongo.IsField(m[c])
  }

  lemma {:induction false} AsCompiledRenamed(e: Tree, m: Fields)
    ensures Mongo.AsCompiled(Renamed(e, m)) == Renamed(Mongo.AsCompiled(e), m)
    decreases e, 0
  {
    hide RenamedSlot;
    match e
    case And(l, r) => AsCompiledSlot(l, m); AsCompiledSlot(r, m);
    case Or(l, r) => AsCompiledSlot(l, m); AsCompiledSlot(r, m);
    case Paren(x) => AsCompiledRenamed(x, m);
    case RangeCond(_, c, from, to) => BothSidesRenamed(c, from, to, m);
    case _ =>
  }

  lemma {:induction false} AsCompiledSlot(e: Tree, m: Fields)
    ensures Mongo.AsCompiled(RenamedSlot(e, m)) == RenamedSlot(Mongo.AsCompiled(e), m)
    decreases e, 1
  {
    if !e.ColName? {
      AsCompiledRenamed(e, m);
      assert !Mongo.AsCompiled(e).ColName?;
      hide Renamed;
    }
  }

  lemma BothSidesRenamed(c: Tree, from: Tree, to: Tree, m: Fields)
    ensures Renamed(And(Comparison(Lt, c, from, Nil), Comparison(Gt, c, to, Nil)), m) ==
            And(Comparison(Lt, RenamedSlot(c, m), RenamedSlot(from, m), Nil),
                Comparison(Gt, RenamedSlot(c, m), RenamedSlot(to, m), Nil))
  {
    var below, above := Comparison(Lt, c, from, Nil), Comparison(Gt, c, to, Nil);
    ChildrenRenamed(below, c, from, Nil, m);
    ChildrenRenamed(above, c, to, Nil, m);
    assert Renamed(And(below, above), m) == And(Renamed(below, m), Renamed(above, m));
  }

  lemma {:induction false} ExpressibleKept(e: Tree, m: Fields)
    requires ExistKept(m) && FieldsKept(m) && Mongo.Expressible(e)
    ensures Mongo.Expressible(Renamed(e, m)) && Mongo.Expressible(RenamedSlot(e, m))
  {
    match e
    case Comparison(_, left, _, _) =>
      SupportedKept(e, m);
      assert RenamedSlot(left, m) == ColName(NewName(m, left.name));
    case RangeCond(_, left, _, _) =>
      SupportedKept(e, m);
      assert RenamedSlot(left, m) == ColName(NewName(m, left.name));
    case And(l, r) => ExpressibleKept(l, m); ExpressibleKept(r, m);
    case Or(l, r) => ExpressibleKept(l, m); ExpressibleKept(r, m);
    case Paren(x) => ExpressibleKept(x, m);
  }

  lemma {:induction false} ConditionsExpressible(e: Tree)
    requires Mongo.Expressible(e)
    ensures forall i | 0 <= i < |Conditions(e)| :: Mongo.Expressible(Conditions(e)[i])
  {
    match e
    case Or(l, r) => ConditionsExpressible(l);
    case _ =>
  }

  lemma WheresExpressible(where: Tree, supportsSQL: bool)
    requires Mongo.Expressible(where)
    ensures forall i | 0 <= i < |Wheres(where, supportsSQL)| :: Mongo.Expressible(Wheres(where, supportsSQL)[i])
  {
    if Splittable(where) != Nil {
      if where.And? && where.left.Paren? {
        assert Mongo.Expressible(where.left.expr);
      }
      ConditionsExpressible(Splittable(where));
    }
  }

  /** Conditions are comparisons, and comparisons are compiled as they are. */
  lemma {:induction false} ConditionsAsCompiled(e: Tree)
    ensures forall i | 0 <= i < |Conditions(e)| :: Mongo.AsCompiled(Conditions(e)[i]) == Conditions(e)[i]
    ensures Clean(e) ==> Mongo.AsCompiled(e) == e
  {
    match e
    case Or(l, r) => ConditionsAsCompiled(l);
    case _ =>
  }

  /** Split or not, the queries as compiled select the rows of the whole as compiled. */
  lemma WheresAsCompiled(where: Tree, supportsSQL: bool, row: Row)
    requires supportsSQL || Covered(where)
    ensures (exists i | 0 <= i < |Wheres(where, supportsSQL)| ::
               Holds(Mongo.AsCompiled(Wheres(where, supportsSQL)[i]), row))
        <==> Holds(Mongo.AsCompiled(where), row)
  {
    var ws := Wheres(where, supportsSQL);
    if supportsSQL {
      assert ws[0] == where && forall i | 0 <= i < |ws| :: ws[i] == where;
    } else if where.Or? || where.Comparison? {
      BareNotEmpty(where);
      assert ws[0] == where;
      assert forall i | 0 <= i < |ws| :: ws[i] == where;
    } else {
      ConditionsAsCompiled(Splittable(where));
      CoveredAsCompiled(where);
      SplitPreserved(where, row);
      forall i | 0 <= i < |ws| ensures Mongo.AsCompiled(ws[i]) == ws[i] {
        assert ws[i] == Rebuilt(where, Conditions(Splittable(where))[i]);
      }
    }
  }

  lemma CoveredAsCompiled(where: Tree)
    requires Covered(where) && !where.Or? && !where.Comparison?
    ensures Mongo.AsCompiled(where) == where
  {
    ConditionsAsCompiled(Splittable(where));
  }

  /** Some of the compiled documents match the row. */
  predicate MongoFinds(queries: seq<Tree>, row: Row) {
    exists i | 0 <= i < |queries| ::
      var d := Mongo.Compiled(Filter(queries[i]));
      d.Success? && Mongo.Matches(d.value, row)
  }

  /**
   * From the statement to MongoDB: the documents match exactly the stored rows
   * that satisfy the user's expression under the user's names, where NOT BETWEEN
   * asks for both sides at once.
   */
  lemma MongoEndToEnd(view: Tree, max: int, source: Source, row: Row)
    requires Statement(view) && Parsed(view, max, source).Success?
    requires ExistKept(source.replaceFields) && FieldsKept(source.replaceFields)
    requires source.supportsSQL || Covered(view.where.expr)
    requires Mongo.Expressible(view.where.expr)
    ensures MongoFinds(Parsed(view, max, source).value, row) <==>
              Holds(Mongo.AsCompiled(view.where.expr), UserRow(row, source.replaceFields))
  {
    var qs := Parsed(view, max, source).value;
    var ws := Wheres(view.where.expr, source.supportsSQL);
    var user := UserRow(row, source.replaceFields);
    WheresExpressible(view.where.expr, source.supportsSQL);
    forall i | 0 <= i < |qs|
      ensures var d := Mongo.Compiled(Filter(qs[i]));
              d.Success? && Mongo.Matches(d.value, row) == Holds(Mongo.AsCompiled(ws[i]), user)
    {
      QueryShape(view, max, source, i);
      ExpressibleKept(ws[i], source.replaceFields);
      Mongo.DocumentMeans(Filter(qs[i]), row);
      AsCompiledSlot(ws[i], source.replaceFields);
      SlotKept(Mongo.AsCompiled(ws[i]), source.replaceFields, row);
    }
    WheresAsCompiled(view.where.expr, source.supportsSQL, user);
  }

  // ---------- the two compilers side by side ----------

  /** Columns compared with literals, lists or "exist", texts where text is needed, ranges, AND, OR and parentheses. */
  predicate Accepted(e: Tree) {
    match e
    case Comparison(op, left, right, _) =>
      && left.ColName?
      && (right.SQLVal? || right.ValTuple? || right == ColName("exist"))
      && (op.In? || op.NotIn? || op.Like? || op.NotLike? ==> right.ValTuple? || (right.SQLVal? && right.val.StrVal?))
    case RangeCond(_, left, from, to) =>
      && left.ColName? && from.SQLVal? && to.SQLVal?
      && !from.val.BoolVal? && !to.val.BoolVal?
    case And(l, r) => Accepted(l) && Accepted(r)
    case Or(l, r) => Accepted(l) && Accepted(r)
    case Paren(x) => Accepted(x)
    case _ => false
  }

  /** Which expressions the compilers accept, wherever they stand. */
  lemma AcceptsExactly(e: Tree, topLevel: bool, parent: Tree)
    ensures Elastic.HandleSelectWhere(e, topLevel, parent).Success? <==> Accepted(e)
    ensures Mongo.Compiled(e).Success? <==> Accepted(e)
  {
    ElasticAccepts(e, topLevel, parent);
    MongoAccepts(e);
  }

  lemma {:induction false} ElasticAccepts(e: Tree, topLevel: bool, parent: Tree)
    ensures Elastic.HandleSelectWhere(e, topLevel, parent).Success? <==> Accepted(e)
  {
    hide Elastic.HandleComparison;
    match e
    case Comparison(_, _, _, _) => AcceptsComparison(e, topLevel);
    case And(l, r) => ElasticAccepts(l, false, e); ElasticAccepts(r, false, e);
    case Or(l, r) => ElasticAccepts(l, false, e); ElasticAccepts(r, false, e);
    case Paren(x) => ElasticAccepts(x, topLevel, parent);
    case _ =>
  }

  lemma {:induction false} MongoAccepts(e: Tree)
    ensures Mongo.Compiled(e).Success? <==> Accepted(e)
  {
    hide Mongo.Singles, Mongo.Only, Mongo.HandleComparison;
    match e
    case Comparison(_, _, _, _) => AcceptsComparison(e, false);
    case And(l, r) => MongoAccepts(l); MongoAccepts(r);
    case Or(l, r) => MongoAccepts(l); MongoAccepts(r);
    case Paren(x) => MongoAccepts(x);
    case _ =>
  }

  lemma AcceptsComparison(e: Tree, topLevel: bool)
    requires e.Comparison?
    ensures Elastic.HandleComparison(e, topLevel).Success? <==> Accepted(e)
    ensures Mongo.HandleComparison(e).Success? <==> Accepted(e)
  {
  }

  /** Both compilers accept the same expressions. */
  lemma SameRefusals(e: Tree, topLevel: bool, parent: Tree)
    ensures Elastic.HandleSelectWhere(e, topLevel, parent).Failure? <==> Mongo.Compiled(e).Failure?
  {
    AcceptsExactly(e, topLevel, parent);
  }

  /** Without NOT BETWEEN the query and the document select the same rows. */
  lemma BackendsAgree(e: Tree, row: Row)
    requires Mongo.Expressible(e) && !Mongo.HasNotBetween(e)
    ensures var q := Elastic.HandleSelectWhere(e, true, Nil);
            var d := Mongo.Compiled(e);
            && q.Success? && |q.value| == 1 && d.Success?
            && Elastic.Matches(q.value[0], row) == Mongo.Matches(d.value, row)
  {
    ExpressibleSupported(e);
    Elastic.QueryPreserved(e, row);
    Mongo.DocumentPreserved(e, row);
  }

  lemma {:induction false} ExpressibleSupported(e: Tree)
    requires Mongo.Expressible(e)
    ensures Supported(e)
  {
    match e
    case And(l, r) => ExpressibleSupported(l); ExpressibleSupported(r);
    case Or(l, r) => ExpressibleSupported(l); ExpressibleSupported(r);
    case Paren(x) => ExpressibleSupported(x);
    case _ =>
  }
}
