/**
 * Preparing a parsed statement for one data source: limits are clamped, OR and
 * IN are split where the source cannot take them, columns are renamed.
 */
module Parse {
  import opened Wrappers
  import opened Sql
  import opened Nodes
  import opened Replace
  import opened Split

  // ---------- splitting on the heap ----------

  /** The nodes listed from `start` on are trees for `views`, made of nodes of `pool` or new ones. */
  twostate predicate Listed(new list: seq<Node>, start: nat, views: seq<Tree>, pool: set<Node>)
    reads list, set n, m | n in list && m in n.Repr :: m
  {
    && |list| == start + |views|
    && forall j | start <= j < |list| ::
         list[j].Valid() && list[j].View == views[j - start] && fresh(list[j].Repr - pool)
  }

  /** "field=value" printed and parsed: a new comparison over copies of both sides. */
  method NewEquality(left: Node?, right: Node?) returns (eq: Node)
    requires ValidOrNull(left) && ValidOrNull(right)
    ensures eq.Valid() && fresh(eq.Repr) && eq.View == EqualityOf(ViewOf(left), ViewOf(right))
  {
    hide Node.Valid;
    var c := CopyOf(left);
    var v := CopyOf(right);
    eq := new Node(Comparison(Eq, Nil, Nil, Nil), c, v, null);
  }

  method SplitIn(left: Node?, vals: seq<Value>, list: seq<Node>) returns (r: seq<Node>)
    requires ValidOrNull(left)
    ensures list <= r && |r| == |list| + |vals|
    ensures forall j | |list| <= j < |r| ::
              r[j].Valid() && fresh(r[j].Repr) && r[j].View == EqualityOf(ViewOf(left), SQLVal(vals[j - |list|]))
  {
    hide Node.Valid;
    r := list;
    for i := 0 to |vals|
      invariant list <= r && |r| == |list| + i
      invariant forall j | |list| <= j < |r| ::
                  r[j].Valid() && fresh(r[j].Repr) && r[j].View == EqualityOf(ViewOf(left), SQLVal(vals[j - |list|]))
    {
      var v := new Node(SQLVal(vals[i]), null, null, null);
      var eq := NewEquality(left, v);
      r := r + [eq];
    }
  }

  /** IN gives one new equality per value, "=" a copy of itself, other operators nothing. */
  method SplitComparison(expr: Node, list: seq<Node>) returns (r: seq<Node>)
    requires expr.Valid() && expr.kind.Comparison? && InOverTuple(expr.View)
    ensures list <= r
    ensures Listed(r, |list|, Conditions(expr.View), expr.Repr)
  {
    hide Node.Valid;
    r := list;
    expr.Parts();
    if expr.kind.op.In? {
      expr.right.KindOfView();
      r := SplitIn(expr.left, expr.right.kind.vals, list);
    } else if expr.kind.op.Eq? {
      var eq := NewEquality(expr.left, expr.right);
      r := r + [eq];
    }
  }

  /** An OR of equalities gives its right side and what its left side gives. */
  method SplitOr(expr: Node, list: seq<Node>) returns (r: seq<Node>)
    requires expr.Valid() && expr.kind.Or?
    ensures list <= r
    ensures Listed(r, |list|, Conditions(expr.View), expr.Repr)
    decreases expr.Repr, 0
  {
    hide Node.Valid;
    r := list;
    expr.Parts();
    var left, right := expr.left, expr.right;
    if left == null || right == null {
      return;
    }
    left.KindOfView();
    right.KindOfView();
    if (left.kind.Or? || (left.kind.Comparison? && left.kind.op.Eq?)) && right.kind.Comparison? {
      if !right.kind.op.Eq? {
        return;
      }
      r := r + [right];
      if left.kind.Comparison? {
        r := r + [left];
      } else {
        r := SplitOrIn(left, r);
      }
    }
  }

  /** Appends the conditions of `expr` to the list. */
  method SplitOrIn(expr: Node, list: seq<Node>) returns (r: seq<Node>)
    requires expr.Valid() && InOverTuple(expr.View)
    ensures list <= r
    ensures Listed(r, |list|, Conditions(expr.View), expr.Repr)
    decreases expr.Repr, 1
  {
    hide Node.Valid;
    expr.KindOfView();
    if expr.kind.Or? {
      r := SplitOr(expr, list);
    } else if expr.kind.Comparison? {
      r := SplitComparison(expr, list);
    } else {
      r := list;
    }
  }

  /** What splitQuery takes for granted: AND has a range on its right, IN a tuple. */
  predicate SplitDefined(where: Tree) {
    && (where.And? ==> where.right.RangeCond?)
    && InOverTuple(Splittable(where))
  }

  /** The nodes of the old condition, which the split may put back. */
  ghost function Pool(where: Node): set<Node>
    reads where, where.left
  {
    if where.kind.And? || where.kind.Paren? then ReprOf(where.left) else where.Repr
  }

  method Lefts(where: Node) returns (lefts: seq<Node>)
    requires where.Valid() && SplitDefined(where.View)
    ensures Listed(lefts, 0, Conditions(Splittable(where.View)), Pool(where))
  {
    hide Node.Valid, Conditions;
    NoConditions();
    where.Parts();
    where.KindOfView();
    lefts := [];
    var left, right := where.left, where.right;
    if left != null { left.KindOfView(); }
    if where.kind.And? {
      right.KindOfView();
      right.Parts();
      if right.left != null { right.left.KindOfView(); }
      if !right.kind.negated && right.left != null && right.left.kind == DATETIME && left != null {
        if left.kind.Comparison? {
          lefts := SplitOrIn(left, []);
        } else if left.kind.Paren? {
          left.Parts();
          if left.left != null {
            lefts := SplitOrIn(left.left, []);
          }
        }
      }
    } else if where.kind.Paren? {
      if left != null && !left.kind.And? {
        lefts := SplitOrIn(left, []);
      }
    } else if where.kind.Or? || where.kind.Comparison? {
      lefts := SplitOrIn(where, []);
    }
  }

  lemma NoConditions()
    ensures Conditions(Nil) == []
  {
  }

  /** The statement, its WHERE node and the root of the WHERE expression, as one path. */
  ghost predicate Path(expr: Node, w: Node, root: Node)
    reads expr, w, root, expr.Repr
  {
    && expr.Valid() && expr.kind.Select? && expr.left == w
    && w.kind.Where? && w.left == root
  }

  /** Everything the path holds on to besides the condition itself. */
  ghost function Kept(expr: Node, w: Node, root: Node): set<Node>
    reads expr, w, root, expr.right, root.right
  {
    {expr, w, root} + ReprOf(expr.right) + ReprOf(root.right)
  }

  /** Only under AND and in parentheses is the condition put into the statement. */
  predicate Reattaches(root: Tree) {
    root.And? || root.Paren?
  }

  /** Lets the statement notice that the root of its WHERE expression has changed. */
  ghost method RefreshPath(expr: Node, w: Node, root: Node)
    requires expr.kind.Select? && expr.left == w && w.kind.Where? && w.left == root && root.Valid()
    requires w in w.Repr && w.right == null == w.third && w !in root.Repr
    requires expr in expr.Repr && expr.third == null && ValidOrNull(expr.right) && expr !in ReprOf(expr.right)
    requires expr !in w.Repr + root.Repr && (w.Repr + root.Repr) !! ReprOf(expr.right)
    modifies expr`View, expr`Repr, w`View, w`Repr
    ensures Path(expr, w, root)
    ensures expr.View == Select(expr.kind.fields, expr.kind.tables, expr.kind.distinct,
                                Where(root.View), ViewOf(expr.right))
  {
    hide Node.Valid;
    w.Refresh();
    expr.Refresh();
  }

  /** Puts a condition under the AND or into the parentheses. */
  method PutCondition(expr: Node, w: Node, root: Node, left: Node)
    requires Path(expr, w, root) && left.Valid() && left.Repr !! Kept(expr, w, root)
    requires Reattaches(root.kind)
    modifies {expr, w, root}
    ensures Path(expr, w, root) && root.kind == old(root.kind)
    ensures root.View == Rebuilt(old(root.View), left.View)
    ensures expr.View == old(expr.View).(where := Where(root.View))
    ensures Kept(expr, w, root) == old(Kept(expr, w, root))
  {
    hide Node.Valid;
    expr.Parts(); w.Parts(); root.Parts();
    root.SetLeft(left);
    RefreshPath(expr, w, root);
  }

  /** The statement while its conditions are being swapped: all but the condition is as it was. */
  ghost predicate Ready(expr: Node, w: Node, root: Node, view: Tree, where: Tree)
    requires view.Select?
    reads expr, w, root, expr.Repr
  {
    && Path(expr, w, root)
    && expr.View == view.(where := Where(root.View))
    && (Reattaches(root.kind) <==> Reattaches(where))
    && (if Reattaches(where) then forall c :: Rebuilt(root.View, c) == Rebuilt(where, c) else root.View == where)
  }

  /** What a condition must stay clear of to be put into the statement; nothing if it is not put in. */
  ghost function Guard(expr: Node, w: Node, root: Node, where: Tree): set<Node>
    reads expr, w, root, expr.right, root.right
  {
    if Reattaches(where) then Kept(expr, w, root) else {}
  }

  /** The statement with one condition: put in if there is a place for it, then copied. */
  method SplitOne(expr: Node, w: Node, root: Node, left: Node, ghost view: Tree, ghost where: Tree,
                  ghost guard: set<Node>)
    returns (query: Node)
    requires view.Select? && Ready(expr, w, root, view, where) && left.Valid()
    requires guard == Guard(expr, w, root, where) && left.Repr !! guard
    modifies guard * {expr, w, root}
    ensures Ready(expr, w, root, view, where) && Guard(expr, w, root, where) == guard
    ensures query.Valid() && fresh(query.Repr)
    ensures query.View == view.(where := Where(Rebuilt(where, left.View)))
  {
    hide Node.Valid;
    if Reattaches(root.kind) {
      PutCondition(expr, w, root, left);
    }
    query := expr.Copy();
  }

  /** The conditions that wait to be put in, made of nodes of `pool`. */
  ghost predicate Waiting(lefts: seq<Node>, where: Tree, pool: set<Node>)
    reads pool
  {
    && |lefts| == |SplitWhere(where)|
    && forall j | 0 <= j < |lefts| ::
         lefts[j] in pool && lefts[j].Repr <= pool && lefts[j].Valid()
         && Rebuilt(where, lefts[j].View) == SplitWhere(where)[j]
  }

  /** The statements made so far, of the nodes of `made`. */
  ghost predicate Made(selects: seq<Node>, view: Tree, wheres: seq<Tree>, made: set<Node>)
    requires view.Select?
    reads made
  {
    && |selects| <= |wheres|
    && (forall i | 0 <= i < |selects| ::
          selects[i] in made && selects[i].Repr <= made && selects[i].Valid()
          && selects[i].View == view.(where := Where(wheres[i])))
    && (forall i, j | 0 <= i < j < |selects| :: selects[i].Repr !! selects[j].Repr)
  }

  lemma OneMore(selects: seq<Node>, view: Tree, wheres: seq<Tree>, made: set<Node>, query: Node)
    requires view.Select? && Made(selects, view, wheres, made) && |selects| < |wheres|
    requires query.Valid() && query.Repr !! made && query.View == view.(where := Where(wheres[|selects|]))
    ensures Made(selects + [query], view, wheres, made + query.Repr)
  {
  }

  /** The loop over the conditions. */
  method SplitLoop(expr: Node, w: Node, root: Node, lefts: seq<Node>, ghost view: Tree, ghost where: Tree,
                   ghost pool: set<Node>)
    returns (selects: seq<Node>)
    requires view.Select? && Ready(expr, w, root, view, where)
    requires Waiting(lefts, where, pool) && pool !! Guard(expr, w, root, where)
    modifies {expr, w, root}
    ensures Statements(selects, view, SplitWhere(where))
  {
    ghost var guard, wheres := Guard(expr, w, root, where), SplitWhere(where);
    ghost var made: set<Node> := {};
    hide Node.Valid, Ready, Guard, Rebuilt, SplitWhere, Made;
    selects := [];
    MadeNothing(view, wheres);
    for i := 0 to |lefts|
      invariant Ready(expr, w, root, view, where) && Guard(expr, w, root, where) == guard
      invariant Waiting(lefts, where, pool)
      invariant |selects| == i && fresh(made) && Made(selects, view, wheres, made)
    {
      var query := SplitOne(expr, w, root, lefts[i], view, where, guard);
      assert query.Repr !! made;
      OneMore(selects, view, wheres, made, query);
      selects := selects + [query];
      made := made + query.Repr;
    }
    MadeParts(selects, view, wheres, made);
  }

  lemma MadeNothing(view: Tree, wheres: seq<Tree>)
    requires view.Select?
    ensures Made([], view, wheres, {})
  {
  }

  lemma MadeParts(selects: seq<Node>, view: Tree, wheres: seq<Tree>, made: set<Node>)
    requires view.Select? && Made(selects, view, wheres, made)
    ensures forall i | 0 <= i < |selects| ::
              selects[i].Repr <= made && selects[i].Valid() && selects[i].View == view.(where := Where(wheres[i]))
    ensures forall i, j | 0 <= i < j < |selects| :: selects[i].Repr !! selects[j].Repr
  {
  }

  /** All nodes of some trees that stay clear of a set. */
  lemma AllNodes(lefts: seq<Node>, guard: set<Node>) returns (pool: set<Node>)
    requires forall j | 0 <= j < |lefts| :: lefts[j].Valid() && lefts[j].Repr !! guard
    ensures pool !! guard && forall j | 0 <= j < |lefts| :: lefts[j] in pool && lefts[j].Repr <= pool
  {
    pool := {};
    for i := 0 to |lefts|
      invariant pool !! guard && forall j | 0 <= j < i :: lefts[j] in pool && lefts[j].Repr <= pool
    {
      pool := pool + lefts[i].Repr;
    }
  }

  /** Generates the independent single-condition statements. */
  method SplitQuery(expr: Node) returns (selects: seq<Node>)
    requires expr.Valid() && expr.View.Select? && expr.View.where.Where? && !expr.View.where.expr.Nil?
    requires SplitDefined(expr.View.where.expr)
    modifies expr.Repr
    ensures Statements(selects, old(expr.View), SplitWhere(old(expr.View.where.expr)))
  {
    hide Node.Valid, Conditions, Splittable, Rebuilt, InOverTuple;
    expr.KindOfView();
    expr.Parts();
    var w := expr.left;
    w.KindOfView();
    w.Parts();
    var root := w.left;
    root.KindOfView();
    root.Parts();
    ghost var view, where := expr.View, root.View;
    var lefts := Lefts(root);
    ghost var pool := AllNodes(lefts, Guard(expr, w, root, where));
    selects := SplitLoop(expr, w, root, lefts, view, where, pool);
  }

  /** New, separate statements that differ from `view` in their WHERE expressions only. */
  twostate predicate Statements(new selects: seq<Node>, view: Tree, wheres: seq<Tree>)
    requires view.Select?
    reads selects, set n, m | n in selects && m in n.Repr :: m
  {
    && |selects| == |wheres|
    && (forall i | 0 <= i < |selects| ::
          selects[i].Valid() && fresh(selects[i].Repr) && selects[i].View == view.(where := Where(wheres[i])))
    && (forall i, j | 0 <= i < j < |selects| :: selects[i].Repr !! selects[j].Repr)
  }

  // ---------- what parseSQL makes of a statement ----------

  /** The settings of a data source that matter here. */
  datatype Source = Source(includeFields: seq<string>, replaceFields: Fields, supportsSQL: bool)

  predicate Int64(n: int) {
    -0x8000_0000_0000_0000 <= n < 0x8000_0000_0000_0000
  }

  predicate AllDigits(s: string) {
    forall i | 0 <= i < |s| :: '0' <= s[i] <= '9'
  }

  function Decimal(s: string): nat
    requires AllDigits(s)
  {
    if s == [] then 0 else 10 * Decimal(s[..|s| - 1]) + (s[|s| - 1] as int - '0' as int)
  }

  /** An optional sign, then digits, within 64 bits. */
  function Atoi(s: string): Option<int> {
    var signed := s != [] && (s[0] == '+' || s[0] == '-');
    var digits := if signed then s[1..] else s;
    if digits == [] || !AllDigits(digits) then None
    else
      var d: int := Decimal(digits);
      var n := if signed && s[0] == '-' then -d else d;
      if Int64(n) then Some(n) else None
  }

  /** The number an expression prints as; an opaque expression is known by its text. */
  function AsInteger(e: Tree): Option<int> {
    match e
    case SQLVal(IntVal(n)) => if Int64(n) then Some(n) else None
    case Opaque(text) => Atoi(text)
    case _ => None
  }

  predicate IntegerText(e: Tree) {
    AsInteger(e).Some?
  }

  function IntLiteral(n: int): Tree {
    SQLVal(IntVal(n))
  }

  /** LIMIT with the offset filled in and the rowcount cut to the server's maximum. */
  function Clamped(limit: Tree, max: int): Result<Tree> {
    match limit
    case Limit(offset, rowcount) =>
      if !offset.Nil? && !IntegerText(offset) then Failure("LIMIT ?,x value is not an integer")
      else if !rowcount.Nil? && !IntegerText(rowcount) then Failure("LIMIT x,? value is not an integer")
      else if !rowcount.Nil? && AsInteger(rowcount).value < 0 then Failure("LIMIT rowcount can't be less than 0")
      else Success(Limit(if offset.Nil? then IntLiteral(0) else offset,
                         if !rowcount.Nil? && AsInteger(rowcount).value > max then IntLiteral(max) else rowcount))
    case _ => Success(Limit(IntLiteral(0), IntLiteral(max)))
  }

  predicate ListOfFilters(e: Tree) {
    e.Paren? || e.And? || e.Or? || e.Comparison?
  }

  /** The statement after validation, before any splitting; Go assigns the fields first. */
  function Validated(view: Tree, max: int, includeFields: seq<string>): Result<Tree>
    requires view.Select?
  {
    if !view.where.Where? then Failure("WHERE filters are missing")
    else if !ListOfFilters(view.where.expr) then Failure("WHERE statement is not a list of filters")
    else
      var limit :- Clamped(view.limit, max);
      if |view.tables| != 1 then Failure("Multiple FROM currently not supported")
      else if view.distinct != "" then Failure("DISTINCT shouldn't be used")
      else Success(view.(fields := if includeFields == [] then view.fields else includeFields, limit := limit))
  }

  function Wheres(where: Tree, supportsSQL: bool): seq<Tree> {
    if supportsSQL then [where] else SplitWhere(where)
  }

  /** Everything parseSQL returns for a statement, as trees. */
  function Parsed(view: Tree, max: int, source: Source): (r: Result<seq<Tree>>)
    requires view.Select?
    ensures r.Success? ==> view.where.Where? && |r.value| == |Wheres(view.where.expr, source.supportsSQL)|
  {
    var s :- Validated(view, max, source.includeFields);
    var ws := Wheres(s.where.expr, source.supportsSQL);
    Success(seq(|ws|, i requires 0 <= i < |ws| => Renamed(s.(where := Where(ws[i])), source.replaceFields)))
  }

  /** The text of a number without a sign. */
  function Digits(n: nat): string {
    (if n < 10 then [] else Digits(n / 10)) + [(n % 10 + '0' as int) as char]
  }

  lemma {:induction false} DecimalOfDigits(n: nat)
    ensures AllDigits(Digits(n)) && Digits(n) != [] && Decimal(Digits(n)) == n
  {
    var s := Digits(n);
    if n >= 10 {
      DecimalOfDigits(n / 10);
      assert s[..|s| - 1] == Digits(n / 10);
    } else {
      assert s[..|s| - 1] == [];
    }
  }

  /** Literals of 64 bits are read as what they are. */
  lemma LiteralRead(n: int)
    requires -0x8000_0000_0000_0000 <= n <= 0x7fff_ffff_ffff_ffff
    ensures AsInteger(SQLVal(IntVal(n))) == Some(n)
  {
    hide Atoi;
  }

  /** A number with its sign, which may be left out or written as plus. */
  function Written(n: int, plus: bool): string {
    if n < 0 then ['-'] + Digits(-n) else if plus then ['+'] + Digits(n) else Digits(n)
  }

  /** What is written as a number is read back as that number. */
  lemma TextRead(n: int, plus: bool)
    requires -0x8000_0000_0000_0000 <= n <= 0x7fff_ffff_ffff_ffff
    ensures AsInteger(Opaque(Written(n, plus))) == Some(n)
  {
    hide Digits, Decimal, AllDigits, Atoi;
    var m: nat := if n < 0 then -n else n;
    DecimalOfDigits(m);
    NoSign(Digits(m));
    assert n < 0 || plus ==> Written(n, plus)[1..] == Digits(m);
    AtoiOf(Written(n, plus), Digits(m), m);
  }

  lemma NoSign(s: string)
    requires s != [] && AllDigits(s)
    ensures s[0] != '+' && s[0] != '-'
  {
  }

  lemma AtoiOf(t: string, s: string, m: nat)
    requires s != [] && AllDigits(s) && Decimal(s) == m && t != []
    requires if t[0] == '+' || t[0] == '-' then t[1..] == s else t == s
    ensures var n: int := if t[0] == '-' then 0 - m else m;
            Atoi(t) == if Int64(n) then Some(n) else None
  {
    hide Decimal, AllDigits;
  }

  /** Nothing else is read as a number: other literals and columns, texts with another character, larger numbers. */
  lemma OthersNotRead(e: Tree, s: string)
    ensures e.SQLVal? && !e.val.IntVal? ==> AsInteger(e).None?
    ensures e.ColName? || e.ValTuple? ==> AsInteger(e).None?
    ensures s == [] || (exists i | 1 <= i < |s| :: s[i] < '0' || '9' < s[i]) ==> AsInteger(Opaque(s)).None?
    ensures AsInteger(Opaque(s)).Some? ==> -0x8000_0000_0000_0000 <= AsInteger(Opaque(s)).value <= 0x7fff_ffff_ffff_ffff
  {
    if i :| 1 <= i < |s| && (s[i] < '0' || '9' < s[i]) {
      assert s[1..][i - 1] == s[i];
    }
  }

  // ---------- parseSQL on the heap ----------

  /** The types of a SELECT node's children. */
  predicate Statement(view: Tree) {
    && view.Select?
    && (view.where.Nil? || (view.where.Where? && !view.where.expr.Nil?))
    && (view.limit.Nil? || view.limit.Limit?)
  }

  /** The node alone tells which number it prints as. */
  lemma IntegerOfView(n: Node)
    requires n.Valid()
    ensures !n.View.Nil? && AsInteger(n.kind) == AsInteger(n.View)
  {
    n.KindOfView();
    hide Node.Valid, Atoi;
  }

  /** Overwrites the two children of a LIMIT node that need it. */
  method ClampNode(limit: Node, max: int) returns (r: Result<()>)
    requires limit.Valid() && limit.View.Limit?
    modifies limit
    ensures limit.Valid() && fresh(limit.Repr - old(limit.Repr))
    ensures match Clamped(old(limit.View), max)
            case Success(t) => r.Success? && limit.View == t
            case Failure(e) => r == Failure(e)
  {
    hide Node.Valid, AsInteger;
    limit.KindOfView();
    limit.Parts();
    if limit.left != null {
      IntegerOfView(limit.left);
      if !IntegerText(limit.left.kind) {
        return Failure("LIMIT ?,x value is not an integer");
      }
    } else {
      limit.left := new Node(IntLiteral(0), null, null, null);
    }
    if limit.right != null {
      IntegerOfView(limit.right);
      if !IntegerText(limit.right.kind) {
        limit.Refresh();
        return Failure("LIMIT x,? value is not an integer");
      }
      if AsInteger(limit.right.kind).value < 0 {
        limit.Refresh();
        return Failure("LIMIT rowcount can't be less than 0");
      }
      if AsInteger(limit.right.kind).value > max {
        limit.right := new Node(IntLiteral(max), null, null, null);
      }
    }
    limit.Refresh();
    return Success(());
  }

  /** The LIMIT of a statement: clamped, or made up if there is none. */
  method SetLimit(query: Node, max: int) returns (r: Result<()>)
    requires query.Valid() && Statement(query.View)
    modifies query.Repr
    ensures query.Valid() && fresh(query.Repr - old(query.Repr)) && query.kind == old(query.kind)
    ensures match Clamped(old(query.View.limit), max)
            case Success(t) => r.Success? && query.View == old(query.View).(limit := t)
            case Failure(e) => r == Failure(e)
  {
    hide Node.Valid;
    query.KindOfView();
    query.Parts();
    if query.right != null {
      query.right.KindOfView();
      hide Clamped;
      r := ClampNode(query.right, max);
      query.Refresh();
    } else {
      var limit := NewLimit(max);
      query.SetRight(limit);
      r := Success(());
    }
  }

  method NewLimit(max: int) returns (limit: Node)
    ensures limit.Valid() && fresh(limit.Repr) && limit.View == Limit(IntLiteral(0), IntLiteral(max))
  {
    hide Node.Valid;
    var offset := new Node(IntLiteral(0), null, null, null);
    var rowcount := new Node(IntLiteral(max), null, null, null);
    limit := new Node(Limit(Nil, Nil), offset, rowcount, null);
  }

  /** Replaces the selected fields, unless the source asks for none in particular. */
  method IncludeFields(query: Node, includeFields: seq<string>)
    requires query.Valid() && query.View.Select?
    modifies query
    ensures query.Valid() && query.Repr == old(query.Repr)
    ensures query.View == old(query.View).(fields := if includeFields == [] then old(query.View).fields
                                                     else includeFields)
  {
    hide Node.Valid;
    query.KindOfView();
    query.Parts();
    if |includeFields| != 0 {
      query.kind := query.kind.(fields := includeFields);
      query.Refresh();
    }
  }

  /** Whether the WHERE expression is there and of a kind that can be searched for. */
  method CheckWhere(query: Node) returns (r: Result<()>)
    requires query.Valid() && Statement(query.View)
    ensures r == if !query.View.where.Where? then Failure("WHERE filters are missing")
                 else if !ListOfFilters(query.View.where.expr) then Failure("WHERE statement is not a list of filters")
                 else Success(())
  {
    hide Node.Valid;
    query.KindOfView();
    query.Parts();
    if query.left == null {
      return Failure("WHERE filters are missing");
    }
    query.left.KindOfView();
    query.left.Parts();
    var root := query.left.left;
    root.KindOfView();
    if !ListOfFilters(root.kind) {
      return Failure("WHERE statement is not a list of filters");
    }
    return Success(());
  }

  /** Validation and the changes made before splitting. */
  method Validate(query: Node, max: int, includeFields: seq<string>) returns (r: Result<()>)
    requires query.Valid() && Statement(query.View)
    modifies query.Repr
    ensures query.Valid() && fresh(query.Repr - old(query.Repr))
    ensures match Validated(old(query.View), max, includeFields)
            case Success(t) => r.Success? && query.View == t
            case Failure(e) => r == Failure(e)
  {
    hide Node.Valid, Clamped;
    IncludeFields(query, includeFields);
    r := CheckWhere(query);
    if r.Failure? { return; }
    r := SetLimit(query, max);
    if r.Failure? { return; }
    query.KindOfView();
    if |query.kind.tables| != 1 {
      return Failure("Multiple FROM currently not supported");
    }
    if query.kind.distinct != "" {
      return Failure("DISTINCT shouldn't be used");
    }
  }

  lemma ValidatedKeepsWhere(view: Tree, max: int, includeFields: seq<string>)
    requires Statement(view) && Validated(view, max, includeFields).Success?
    ensures var s := Validated(view, max, includeFields).value;
            s.Select? && s.where == view.where && s.where.Where? && !s.where.expr.Nil?
  {
  }

  /** Renames the columns of every query; the queries share no nodes. */
  method RenameAll(queries: seq<Node>, m: Fields, ghost all: set<Node>)
    requires forall i | 0 <= i < |queries| :: queries[i].Valid() && queries[i].Repr <= all
    requires forall i, j | 0 <= i < j < |queries| :: queries[i].Repr !! queries[j].Repr
    modifies all
    ensures forall i | 0 <= i < |queries| ::
              queries[i].Valid() && queries[i].View == Renamed(old(queries[i].View), m)
              && fresh(queries[i].Repr - all)
    ensures forall i, j | 0 <= i < j < |queries| :: queries[i].Repr !! queries[j].Repr
  {
    hide Node.Valid, Renamed;
    for i := 0 to |queries|
      invariant forall k | 0 <= k < |queries| :: queries[k].Valid() && fresh(queries[k].Repr - all)
      invariant forall k, l | 0 <= k < l < |queries| :: queries[k].Repr !! queries[l].Repr
      invariant forall k | 0 <= k < i :: queries[k].View == Renamed(old(queries[k].View), m)
      invariant forall k | i <= k < |queries| :: queries[k].View == old(queries[k].View)
    {
      ReplaceSql(queries[i], m);
    }
  }

  method ParseSql(query: Node, max: int, source: Source) returns (r: Result<seq<Node>>)
    requires query.Valid() && Statement(query.View)
    requires !source.supportsSQL && Validated(query.View, max, source.includeFields).Success?
             ==> SplitDefined(query.View.where.expr)
    modifies query.Repr
    ensures match Parsed(old(query.View), max, source)
            case Failure(e) => r == Failure(e)
            case Success(ts) =>
              && r.Success? && |r.value| == |ts|
              && (forall i | 0 <= i < |ts| :: r.value[i].Valid() && r.value[i].View == ts[i])
              && (forall i, j | 0 <= i < j < |ts| :: r.value[i].Repr !! r.value[j].Repr)
  {
    hide Node.Valid, Validated, Renamed;
    var ok := Validate(query, max, source.includeFields);
    if ok.Failure? {
      return Failure(ok.error);
    }
    ghost var s := query.View;
    ValidatedKeepsWhere(old(query.View), max, source.includeFields);
    var queries: seq<Node>;
    ghost var all: set<Node>;
    if !source.supportsSQL {
      queries := SplitQuery(query);
      all := set i, n | 0 <= i < |queries| && n in queries[i].Repr :: n;
    } else {
      queries := [query];
      all := query.Repr;
    }
    RenameAll(queries, source.replaceFields, all);
    return Success(queries);
  }
}
