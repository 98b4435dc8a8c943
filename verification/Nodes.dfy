/**
 * Syntax trees as the parser builds them: nodes on the heap that point at each
 * other and are overwritten in place.
 */
module Nodes {
  import opened Sql

  /** How many children a kind of node has. */
  function Arity(kind: Tree): nat {
    match kind
    case Comparison(_, _, _, _) => 3
    case RangeCond(_, _, _, _) => 3
    case And(_, _) => 2
    case Or(_, _) => 2
    case Limit(_, _) => 2
    case Select(_, _, _, _, _) => 2
    case Not(_) => 1
    case Is(_, _) => 1
    case Paren(_) => 1
    case Where(_) => 1
    case _ => 0
  }

  /** The kind with children put into its slots, in the order of its fields. */
  function Plug(kind: Tree, a: Tree, b: Tree, c: Tree): Tree {
    match kind
    case Comparison(op, _, _, _) => Comparison(op, a, b, c)
    case RangeCond(negated, _, _, _) => RangeCond(negated, a, b, c)
    case And(_, _) => And(a, b)
    case Or(_, _) => Or(a, b)
    case Limit(_, _) => Limit(a, b)
    case Select(fields, tables, distinct, _, _) => Select(fields, tables, distinct, a, b)
    case Not(_) => Not(a)
    case Is(test, _) => Is(test, a)
    case Paren(_) => Paren(a)
    case Where(_) => Where(a)
    case _ => kind
  }

  /** A node's own data: the same node with every child left out. */
  function Head(t: Tree): Tree {
    Plug(t, Nil, Nil, Nil)
  }

  class Node {
    /** Constructor and payload; the children are in the fields below. */
    var kind: Tree
    var left: Node?
    var right: Node?
    var third: Node?
    /** The tree below this node as a value. */
    ghost var View: Tree
    ghost var Repr: set<Node>

    ghost predicate Valid()
      reads this, Repr
      ensures Valid() ==> this in Repr
      decreases Repr
    {
      && this in Repr
      && (left != null ==> left in Repr && left.Repr < Repr && left.Valid())
      && (right != null ==> right in Repr && right.Repr < Repr && right.Valid())
      && (third != null ==> third in Repr && third.Repr < Repr && third.Valid())
      && Shaped()
    }

    /** What Valid says about the children, for proofs that need not look further. */
    lemma Parts()
      requires Valid()
      ensures this in Repr && Shaped()
      ensures ValidOrNull(left) && ValidOrNull(right) && ValidOrNull(third)
    {
    }

    /** The part of Valid that concerns this node only. */
    ghost predicate Shaped()
      reads this, left, right, third
    {
      && !kind.Nil?
      && (Arity(kind) < 1 ==> left == null)
      && (Arity(kind) < 2 ==> right == null)
      && (Arity(kind) < 3 ==> third == null)
      && ReprOf(left) < Repr && this !in ReprOf(left)
      && ReprOf(right) < Repr && this !in ReprOf(right)
      && ReprOf(third) < Repr && this !in ReprOf(third)
      && ReprOf(left) !! ReprOf(right) && ReprOf(left) !! ReprOf(third) && ReprOf(right) !! ReprOf(third)
      && View == Plug(kind, ViewOf(left), ViewOf(right), ViewOf(third))
    }

    /** A node and its view agree on the constructor. */
    lemma KindOfView()
      requires Valid()
      ensures !View.Nil?
      ensures View.ColName? <==> kind.ColName?
      ensures View.Paren? <==> kind.Paren?
      ensures View.And? <==> kind.And?
      ensures View.Or? <==> kind.Or?
      ensures View.Comparison? <==> kind.Comparison?
      ensures kind.Comparison? ==> View.op == kind.op
      ensures View.Where? <==> kind.Where?
      ensures View.Select? <==> kind.Select?
      ensures kind.Select? ==> View.tables == kind.tables && View.distinct == kind.distinct
      ensures View.Limit? <==> kind.Limit?
      ensures View.SQLVal? <==> kind.SQLVal?
      ensures View.Opaque? <==> kind.Opaque?
      ensures View.RangeCond? <==> kind.RangeCond?
      ensures kind.RangeCond? ==> View.negated == kind.negated
      ensures Arity(View) == Arity(kind)
      ensures Arity(kind) == 0 ==> View == kind
    {
    }

    /** After a child has changed: takes its footprint in and recomputes the view. */
    ghost method Refresh()
      requires !kind.Nil?
      requires Arity(kind) < 1 ==> left == null
      requires Arity(kind) < 2 ==> right == null
      requires Arity(kind) < 3 ==> third == null
      requires ValidOrNull(left) && ValidOrNull(right) && ValidOrNull(third)
      requires this in Repr && this !in ReprOf(left) + ReprOf(right) + ReprOf(third)
      requires ReprOf(left) !! ReprOf(right) && ReprOf(left) !! ReprOf(third) && ReprOf(right) !! ReprOf(third)
      modifies this`View, this`Repr
      ensures Valid()
      ensures View == Plug(kind, ViewOf(left), ViewOf(right), ViewOf(third))
      ensures Repr == old(Repr) + ReprOf(left) + ReprOf(right) + ReprOf(third)
    {
      View := Plug(kind, ViewOf(left), ViewOf(right), ViewOf(third));
      Repr := Repr + ReprOf(left) + ReprOf(right) + ReprOf(third);
    }

    method SetLeft(n: Node)
      requires Valid() && Arity(kind) >= 1
      requires n.Valid() && this !in n.Repr && n.Repr !! ReprOf(right) && n.Repr !! ReprOf(third)
      modifies this
      ensures Valid() && View == Plug(kind, n.View, ViewOf(right), ViewOf(third))
      ensures left == n && right == old(right) && third == old(third) && kind == old(kind)
      ensures Repr == old(Repr) + n.Repr
    {
      hide Valid;
      Parts();
      left := n;
      Refresh();
    }

    method SetRight(n: Node)
      requires Valid() && Arity(kind) >= 2
      requires n.Valid() && this !in n.Repr && n.Repr !! ReprOf(left) && n.Repr !! ReprOf(third)
      modifies this
      ensures Valid() && View == Plug(kind, ViewOf(left), n.View, ViewOf(third))
      ensures right == n && left == old(left) && third == old(third) && kind == old(kind)
      ensures Repr == old(Repr) + n.Repr
    {
      hide Valid;
      Parts();
      right := n;
      Refresh();
    }

    function Child(slot: nat): Node?
      reads this
    {
      if slot == 0 then left else if slot == 1 then right else third
    }

    constructor (kind: Tree, left: Node?, right: Node?, third: Node?)
      requires !kind.Nil?
      requires Arity(kind) < 1 ==> left == null
      requires Arity(kind) < 2 ==> right == null
      requires Arity(kind) < 3 ==> third == null
      requires ValidOrNull(left) && ValidOrNull(right) && ValidOrNull(third)
      requires ReprOf(left) !! ReprOf(right) && ReprOf(left) !! ReprOf(third) && ReprOf(right) !! ReprOf(third)
      ensures Valid()
      ensures View == Plug(kind, ViewOf(left), ViewOf(right), ViewOf(third))
      ensures this.kind == kind && this.left == left && this.right == right && this.third == third
      ensures Repr == {this} + ReprOf(left) + ReprOf(right) + ReprOf(third)
    {
      this.kind := kind;
      this.left, this.right, this.third := left, right, third;
      View := Plug(kind, ViewOf(left), ViewOf(right), ViewOf(third));
      Repr := {this} + ReprOf(left) + ReprOf(right) + ReprOf(third);
    }

    /** The printed statement parsed again: a tree of new nodes with the same contents. */
    method Copy() returns (copy: Node)
      requires Valid()
      ensures copy.Valid() && fresh(copy.Repr)
      ensures copy.View == View
      decreases Repr, 0
    {
      hide Valid;
      Parts();
      var l := CopyOf(left);
      var r := CopyOf(right);
      assert ReprOf(l) !! ReprOf(r);
      var t := CopyOf(third);
      assert ReprOf(l) !! ReprOf(t) && ReprOf(r) !! ReprOf(t);
      copy := new Node(kind, l, r, t);
      assert copy.View == Plug(kind, ViewOf(left), ViewOf(right), ViewOf(third));
    }
  }

  method CopyOf(n: Node?) returns (copy: Node?)
    requires ValidOrNull(n)
    ensures (copy == null <==> n == null) && ValidOrNull(copy) && fresh(ReprOf(copy))
    ensures ViewOf(copy) == ViewOf(n)
    decreases ReprOf(n), 1
  {
    copy := null;
    if n != null {
      copy := n.Copy();
    }
  }

  ghost function ReprOf(n: Node?): set<Node>
    reads n
  {
    if n == null then {} else n.Repr
  }

  ghost predicate ValidOrNull(n: Node?)
    reads n, ReprOf(n)
  {
    n == null || n.Valid()
  }

  ghost function ViewOf(n: Node?): Tree
    reads n
  {
    if n == null then Nil else n.View
  }
}
