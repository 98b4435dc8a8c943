/** What the renaming of columns does to the contents and the meaning of a statement. */
module Renaming {
  import opened Wrappers
  import opened Sql
  import opened Replace

  /** The name a reached column ends up with. */
  function NewName(m: Fields, c: string): string {
    if c == "" then c else ReplaceField(m, c)
  }

  // ---------- exactly the reached columns, exactly once ----------

  function ReachedSlot(t: Tree): seq<string>
    decreases t, 1
  {
    if t.ColName? then [t.name] else Reached(t)
  }

  /** The columns the walk reaches, from left to right. */
  function Reached(t: Tree): seq<string>
    decreases t, 0
  {
    match t
    case Comparison(_, l, r, esc) => ReachedSlot(l) + ReachedSlot(r) + ReachedSlot(esc)
    case RangeCond(_, l, f, to) => ReachedSlot(l) + ReachedSlot(f) + ReachedSlot(to)
    case And(l, r) => ReachedSlot(l) + ReachedSlot(r)
    case Or(l, r) => ReachedSlot(l) + ReachedSlot(r)
    case Limit(o, r) => ReachedSlot(o) + ReachedSlot(r)
    case Select(_, _, _, w, l) => ReachedSlot(w) + ReachedSlot(l)
    case Not(x) => ReachedSlot(x)
    case Is(_, x) => ReachedSlot(x)
    case Where(x) => ReachedSlot(x)
    case Paren(x) => Reached(x)
    case _ => []
  }

  /** The tree with every reached column blanked: its shape, its values and all it leaves alone. */
  function BlankSlot(t: Tree): Tree
    decreases t, 1
  {
    if t.ColName? then ColName("") else Blank(t)
  }

  function Blank(t: Tree): Tree
    decreases t, 0
  {
    match t
    case Comparison(op, l, r, esc) => Comparison(op, BlankSlot(l), BlankSlot(r), BlankSlot(esc))
    case RangeCond(negated, l, f, to) => RangeCond(negated, BlankSlot(l), BlankSlot(f), BlankSlot(to))
    case And(l, r) => And(BlankSlot(l), BlankSlot(r))
    case Or(l, r) => Or(BlankSlot(l), BlankSlot(r))
    case Limit(o, r) => Limit(BlankSlot(o), BlankSlot(r))
    case Select(fs, ts, d, w, l) => Select(fs, ts, d, BlankSlot(w), BlankSlot(l))
    case Not(x) => Not(BlankSlot(x))
    case Is(test, x) => Is(test, BlankSlot(x))
    case Where(x) => Where(BlankSlot(x))
    case Paren(x) => Paren(Blank(x))
    case _ => t
  }

  function NewNames(cs: seq<string>, m: Fields): seq<string> {
    seq(|cs|, i requires 0 <= i < |cs| => NewName(m, cs[i]))
  }

  lemma NewNamesConcat(a: seq<string>, b: seq<string>, m: Fields)
    ensures NewNames(a + b, m) == NewNames(a, m) + NewNames(b, m)
  {
  }

  lemma {:induction false} SlotRenamedOnce(t: Tree, m: Fields)
    ensures ReachedSlot(RenamedSlot(t, m)) == NewNames(ReachedSlot(t), m)
    ensures BlankSlot(RenamedSlot(t, m)) == BlankSlot(t)
    decreases t, 1
  {
    if !t.ColName? {
      RenamedOnce(t, m);
    }
  }

  /**
   * The renamed tree reaches the same columns in the same order, each under its
   * new name looked up once, and is otherwise the same tree.
   */
  lemma {:induction false} RenamedOnce(t: Tree, m: Fields)
    ensures Reached(Renamed(t, m)) == NewNames(Reached(t), m)
    ensures Blank(Renamed(t, m)) == Blank(t)
    ensures Renamed(t, m).ColName? <==> t.ColName?
    decreases t, 0
  {
    assert NewNames([], m) == [];
    hide NewNames, RenamedSlot, ReachedSlot, BlankSlot;
    match t
    case Comparison(_, l, r, esc) =>
      SlotRenamedOnce(l, m); SlotRenamedOnce(r, m); SlotRenamedOnce(esc, m);
      NewNamesConcat(ReachedSlot(l), ReachedSlot(r), m);
      NewNamesConcat(ReachedSlot(l) + ReachedSlot(r), ReachedSlot(esc), m);
    case RangeCond(_, l, f, to) =>
      SlotRenamedOnce(l, m); SlotRenamedOnce(f, m); SlotRenamedOnce(to, m);
      NewNamesConcat(ReachedSlot(l), ReachedSlot(f), m);
      NewNamesConcat(ReachedSlot(l) + ReachedSlot(f), ReachedSlot(to), m);
    case And(l, r) =>
      SlotRenamedOnce(l, m); SlotRenamedOnce(r, m);
      NewNamesConcat(ReachedSlot(l), ReachedSlot(r), m);
    case Or(l, r) =>
      SlotRenamedOnce(l, m); SlotRenamedOnce(r, m);
      NewNamesConcat(ReachedSlot(l), ReachedSlot(r), m);
    case Limit(o, r) =>
      SlotRenamedOnce(o, m); SlotRenamedOnce(r, m);
      NewNamesConcat(ReachedSlot(o), ReachedSlot(r), m);
    case Select(_, _, _, w, l) =>
      SlotRenamedOnce(w, m); SlotRenamedOnce(l, m);
      NewNamesConcat(ReachedSlot(w), ReachedSlot(l), m);
    case Not(x) => SlotRenamedOnce(x, m);
    case Is(_, x) => SlotRenamedOnce(x, m);
    case Where(x) => SlotRenamedOnce(x, m);
    case Paren(x) => RenamedOnce(x, m);
    case _ =>
  }

  /** Each reached column that the map has is found under the name the map gives, every other under its own. */
  lemma ReachedNames(t: Tree, m: Fields, i: nat)
    requires i < |Reached(t)|
    ensures |Reached(Renamed(t, m))| == |Reached(t)|
    ensures var c := Reached(t)[i];
            Reached(Renamed(t, m))[i] == if c != "" && c in m then m[c] else c
  {
    RenamedOnce(t, m);
    hide Reached, Renamed;
  }

  // ---------- which columns are reached ----------

  /** All columns of a tree, wherever they stand. */
  function Columns(t: Tree): seq<string> {
    match t
    case ColName(c) => [c]
    case Comparison(_, a, b, c) => Columns(a) + Columns(b) + Columns(c)
    case RangeCond(_, a, b, c) => Columns(a) + Columns(b) + Columns(c)
    case And(a, b) => Columns(a) + Columns(b)
    case Or(a, b) => Columns(a) + Columns(b)
    case Limit(a, b) => Columns(a) + Columns(b)
    case Select(_, _, _, a, b) => Columns(a) + Columns(b)
    case Not(a) => Columns(a)
    case Is(_, a) => Columns(a)
    case Where(a) => Columns(a)
    case Paren(a) => Columns(a)
    case _ => []
  }

  /** How many columns a walk from the root leaves out: those that are themselves a root or all of a parenthesis. */
  function Bare(t: Tree): nat
    decreases t, 0
  {
    match t
    case ColName(_) => 1
    case Comparison(_, a, b, c) => BareSlot(a) + BareSlot(b) + BareSlot(c)
    case RangeCond(_, a, b, c) => BareSlot(a) + BareSlot(b) + BareSlot(c)
    case And(a, b) => BareSlot(a) + BareSlot(b)
    case Or(a, b) => BareSlot(a) + BareSlot(b)
    case Limit(a, b) => BareSlot(a) + BareSlot(b)
    case Select(_, _, _, a, b) => BareSlot(a) + BareSlot(b)
    case Not(a) => BareSlot(a)
    case Is(_, a) => BareSlot(a)
    case Where(a) => BareSlot(a)
    case Paren(a) => Bare(a)
    case _ => 0
  }

  function BareSlot(t: Tree): nat
    decreases t, 1
  {
    if t.ColName? then 0 else Bare(t)
  }

  /** The walk leaves out exactly the bare columns; without them it reaches every column, once, from left to right. */
  lemma {:induction false} ReachesAllButBare(t: Tree)
    ensures |Reached(t)| + Bare(t) == |Columns(t)|
    ensures Bare(t) == 0 ==> Reached(t) == Columns(t)
    decreases t, 0
  {
    match t
    case Comparison(_, a, b, c) => SlotReachesAll(a); SlotReachesAll(b); SlotReachesAll(c);
    case RangeCond(_, a, b, c) => SlotReachesAll(a); SlotReachesAll(b); SlotReachesAll(c);
    case And(a, b) => SlotReachesAll(a); SlotReachesAll(b);
    case Or(a, b) => SlotReachesAll(a); SlotReachesAll(b);
    case Limit(a, b) => SlotReachesAll(a); SlotReachesAll(b);
    case Select(_, _, _, a, b) => SlotReachesAll(a); SlotReachesAll(b);
    case Not(a) => SlotReachesAll(a);
    case Is(_, a) => SlotReachesAll(a);
    case Where(a) => SlotReachesAll(a);
    case Paren(a) => ReachesAllButBare(a);
    case _ =>
  }

  lemma {:induction false} SlotReachesAll(t: Tree)
    ensures |ReachedSlot(t)| + BareSlot(t) == |Columns(t)|
    ensures BareSlot(t) == 0 ==> ReachedSlot(t) == Columns(t)
    decreases t, 1
  {
    if !t.ColName? {
      ReachesAllButBare(t);
    }
  }

  // ---------- undoing a renaming ----------

  /** Every name comes back: swapping two columns, for one, undoes itself. */
  ghost predicate Undoes(k: Fields, m: Fields) {
    forall c: string :: NewName(k, NewName(m, c)) == c
  }

  lemma {:induction false} SlotRoundTrip(t: Tree, m: Fields, k: Fields)
    requires Undoes(k, m)
    ensures RenamedSlot(RenamedSlot(t, m), k) == t
    decreases t, 1
  {
    if t.ColName? {
      assert NewName(k, NewName(m, t.name)) == t.name;
    } else {
      RenamedOnce(t, m);
      RoundTrip(t, m, k);
    }
  }

  lemma {:induction false} RoundTrip(t: Tree, m: Fields, k: Fields)
    requires Undoes(k, m)
    ensures Renamed(Renamed(t, m), k) == t
    decreases t, 0
  {
    hide Undoes, NewName, RenamedSlot;
    match t
    case Comparison(_, l, r, esc) => SlotRoundTrip(l, m, k); SlotRoundTrip(r, m, k); SlotRoundTrip(esc, m, k);
    case RangeCond(_, l, f, to) => SlotRoundTrip(l, m, k); SlotRoundTrip(f, m, k); SlotRoundTrip(to, m, k);
    case And(l, r) => SlotRoundTrip(l, m, k); SlotRoundTrip(r, m, k);
    case Or(l, r) => SlotRoundTrip(l, m, k); SlotRoundTrip(r, m, k);
    case Limit(o, r) => SlotRoundTrip(o, m, k); SlotRoundTrip(r, m, k);
    case Select(_, _, _, w, l) => SlotRoundTrip(w, m, k); SlotRoundTrip(l, m, k);
    case Not(x) => SlotRoundTrip(x, m, k);
    case Is(_, x) => SlotRoundTrip(x, m, k);
    case Where(x) => SlotRoundTrip(x, m, k);
    case Paren(x) => RoundTrip(x, m, k);
    case _ =>
  }

  lemma SwapUndoesItself(a: string, b: string)
    requires a != "" && b != ""
    ensures Undoes(map[a := b, b := a], map[a := b, b := a])
  {
  }

  // ---------- meaning ----------

  /** A row of the data source as the user sees it: field c is stored under c's new name. */
  function UserRow(row: Row, m: Fields): Row {
    Row(c => row.value(NewName(m, c)),
        (c, p) => row.like(NewName(m, c), p),
        (text, c, right) => row.other(text, NewName(m, c), right))
  }

  /** The word that asks for existence keeps its name, and no other column takes it. */
  predicate ExistKept(m: Fields) {
    && NewName(m, EXIST) == EXIST
    && forall c | c in m && c != "" && c != EXIST :: m[c] != EXIST
  }

  /** The user's field c is the stored field under the name the map gives to c. */
  lemma StoredUnder(row: Row, m: Fields, c: string)
    ensures var d := if c != "" && c in m then m[c] else c;
            && UserRow(row, m).value(c) == row.value(d)
            && (forall p :: UserRow(row, m).like(c, p) == row.like(d, p))
            && forall text, right :: UserRow(row, m).other(text, c, right) == row.other(text, d, right)
  {
    assert NewName(m, c) == if c != "" && c in m then m[c] else c;
  }

  /** The word "exist", in terms of the map's own entries. */
  lemma ExistKeptExactly(m: Fields)
    ensures ExistKept(m) <==>
              && ("exist" in m ==> m["exist"] == "exist")
              && forall c | c in m && m[c] == "exist" :: c == "" || c == "exist"
  {
  }

  lemma {:induction false} MeaningKept(e: Tree, m: Fields, row: Row)
    requires ExistKept(m)
    ensures Holds(Renamed(e, m), row) == Holds(e, UserRow(row, m))
    decreases e, 0
  {
    hide ExistKept;
    match e
    case Comparison(op, left, right, escape) =>
      NotLiteral(left, m);
      if left.ColName? {
        assert Renamed(e, m) ==
               Comparison(op, ColName(NewName(m, left.name)), RenamedSlot(right, m), RenamedSlot(escape, m));
        ComparisonKept(op, left.name, right, m, row);
      }
    case RangeCond(_, _, _, _) =>
      RangeKept(e, m, row);
    case And(l, r) => SlotKept(l, m, row); SlotKept(r, m, row);
    case Or(l, r) => SlotKept(l, m, row); SlotKept(r, m, row);
    case Not(x) => SlotKept(x, m, row);
    case Paren(x) => MeaningKept(x, m, row);
    case _ =>
  }

  lemma RangeKept(e: Tree, m: Fields, row: Row)
    requires e.RangeCond?
    ensures Holds(Renamed(e, m), row) == Holds(e, UserRow(row, m))
  {
    var RangeCond(negated, left, f, to) := e;
    NotLiteral(left, m);
    NotLiteral(f, m);
    NotLiteral(to, m);
    if left.ColName? && f.SQLVal? && to.SQLVal? {
      assert Renamed(e, m) == RangeCond(negated, ColName(NewName(m, left.name)), f, to);
      assert Holds(Renamed(e, m), row) == (negated != FieldBetween(NewName(m, left.name), f.val, to.val, row));
    }
  }

  lemma {:induction false} SlotKept(e: Tree, m: Fields, row: Row)
    requires ExistKept(m)
    ensures Holds(RenamedSlot(e, m), row) == Holds(e, UserRow(row, m))
    decreases e, 1
  {
    if !e.ColName? {
      MeaningKept(e, m, row);
    }
  }

  /** Only literals become literals, and only tuples become tuples. */
  lemma NotLiteral(e: Tree, m: Fields)
    ensures RenamedSlot(e, m).SQLVal? <==> e.SQLVal?
    ensures RenamedSlot(e, m).ValTuple? <==> e.ValTuple?
    ensures RenamedSlot(e, m).ColName? <==> e.ColName?
    ensures e.SQLVal? || e.ValTuple? ==> RenamedSlot(e, m) == e
  {
  }

  lemma ComparisonKept(op: Operator, c: string, right: Tree, m: Fields, row: Row)
    requires ExistKept(m)
    ensures HoldsComparison(op, NewName(m, c), RenamedSlot(right, m), row)
         == HoldsComparison(op, c, right, UserRow(row, m))
  {
    NotLiteral(right, m);
    match right
    case ValTuple(vs) =>
      assert forall i | 0 <= i < |vs| ::
          FieldIs(Eq, NewName(m, c), vs[i], row) == FieldIs(Eq, c, vs[i], UserRow(row, m));
    case _ =>
  }

  ghost predicate KeepsMeaning(m: Fields) {
    forall e: Tree, row: Row :: Holds(Renamed(e, m), row) == Holds(e, UserRow(row, m))
  }

  /** A renaming keeps the meaning of every expression iff it leaves the word for existence alone. */
  lemma KeepsMeaningExactly(m: Fields)
    ensures KeepsMeaning(m) <==> ExistKept(m)
  {
    if ExistKept(m) {
      forall e: Tree, row: Row ensures Holds(Renamed(e, m), row) == Holds(e, UserRow(row, m)) {
        MeaningKept(e, m, row);
      }
    } else {
      var c := if NewName(m, EXIST) != EXIST then EXIST
               else var c :| c in m && c != "" && c != EXIST && m[c] == EXIST; c;
      var e := Comparison(Eq, ColName("ip"), ColName(c), Nil);
      var row := Row(_ => Some(IntVal(0)), (_, _) => false, (_, _, _) => false);
      assert Holds(Renamed(e, m), row) != Holds(e, UserRow(row, m));
    }
  }
}
