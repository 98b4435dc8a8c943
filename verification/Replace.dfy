/**
 * Renaming the columns of a parsed statement in place, with a cursor that walks
 * the tree and calls a replacer for every column it reaches.
 */
module Replace {
  import opened Sql
  import opened Nodes

  type Fields = map<string, string>

  function ReplaceField(m: Fields, field: string): string {
    if field in m then m[field] else field
  }

  // ---------- the renaming as a function ----------

  /** A column in a child slot of a live node is replaced; the empty name is left alone. */
  function RenamedSlot(t: Tree, m: Fields): Tree
    decreases t, 1
  {
    if t.ColName? && t.name != "" then ColName(ReplaceField(m, t.name)) else Renamed(t, m)
  }

  /** A column that is the root of a walk has no replacer and stays as it is. */
  function Renamed(t: Tree, m: Fields): Tree
    decreases t, 0
  {
    match t
    case Comparison(op, l, r, esc) => Comparison(op, RenamedSlot(l, m), RenamedSlot(r, m), RenamedSlot(esc, m))
    case RangeCond(negated, l, f, to) =>
      RangeCond(negated, RenamedSlot(l, m), RenamedSlot(f, m), RenamedSlot(to, m))
    case And(l, r) => And(RenamedSlot(l, m), RenamedSlot(r, m))
    case Or(l, r) => Or(RenamedSlot(l, m), RenamedSlot(r, m))
    case Limit(o, r) => Limit(RenamedSlot(o, m), RenamedSlot(r, m))
    case Select(fs, ts, d, w, l) => Select(fs, ts, d, RenamedSlot(w, m), RenamedSlot(l, m))
    case Not(x) => Not(RenamedSlot(x, m))
    case Is(test, x) => Is(test, RenamedSlot(x, m))
    case Where(x) => Where(RenamedSlot(x, m))
    case Paren(x) => Paren(Renamed(x, m))
    case _ => t
  }

  /** What a visit leaves in place of a node, with or without a replacer. */
  function Visited(t: Tree, slotted: bool, m: Fields): Tree {
    if slotted then RenamedSlot(t, m) else Renamed(t, m)
  }

  /** What is left to postFunc once the children are done. */
  function Finished(t: Tree, slotted: bool, m: Fields): Tree {
    match t
    case ColName(c) => if slotted && c != "" then ColName(ReplaceField(m, c)) else t
    case Paren(x) => Renamed(t, m)
    case _ => t
  }

  lemma ChildrenThenSelf(t: Tree, slotted: bool, m: Fields)
    ensures Visited(t, slotted, m) == Finished(if Live(t) then Renamed(t, m) else t, slotted, m)
  {
    var r := Renamed(t, m);
    assert RenamedSlot(t, m) == if t.ColName? && t.name != "" then ColName(ReplaceField(m, t.name)) else r;
    if Live(t) {
      assert Arity(r) == Arity(t) && !r.Paren?;
      assert Finished(r, slotted, m) == r;
    } else if t.Paren? {
      assert Finished(t, slotted, m) == r;
    } else {
      assert r == t;
    }
  }

  // ---------- the walk over the heap ----------

  /** The kinds whose children `apply` visits; parentheses are entered from postFunc instead. */
  predicate Live(kind: Tree) {
    Arity(kind) > 0 && !kind.Paren?
  }

  /** Which child of the parent a replacer assigns; a root walk has none. */
  datatype Replacer = NoReplacer | Slot(index: nat)

  /** The place a node is reached through: a slot of its parent, or the caller's variable. */
  function Place(parent: Node?, n: Node?, replacer: Replacer): Node?
    requires replacer.Slot? ==> parent != null
    reads parent
  {
    if replacer.Slot? then parent.Child(replacer.index) else n
  }

  ghost predicate Attached(parent: Node?, n: Node?, replacer: Replacer)
    reads parent, n
  {
    replacer.Slot? ==>
      && replacer.index < 3 && parent != null && parent.Child(replacer.index) == n
      && parent !in ReprOf(n)
  }

  /** Nothing of the parent but the slot has changed. */
  twostate predicate OnlySlotChanged(parent: Node?, replacer: Replacer)
    reads parent
  {
    replacer.Slot? && parent != null ==>
      && parent.kind == old(parent.kind) && parent.Repr == old(parent.Repr)
      && (replacer.index == 0 || parent.left == old(parent.left))
      && (replacer.index == 1 || parent.right == old(parent.right))
      && (replacer.index >= 2 || parent.third == old(parent.third))
  }

  class Cursor {
    const replaceFields: Fields
    var parent: Node?
    var node: Node?
    var replacer: Replacer

    constructor (m: Fields)
      ensures replaceFields == m && parent == null && node == null && replacer == NoReplacer
    {
      replaceFields := m;
      parent, node, replacer := null, null, NoReplacer;
    }

    method Replace(newNode: Node)
      requires replacer.Slot? && replacer.index < 3 && parent != null
      modifies parent
      ensures parent.Child(replacer.index) == newNode
      ensures OnlySlotChanged(parent, replacer)
    {
      if replacer.index == 0 {
        parent.left := newNode;
      } else if replacer.index == 1 {
        parent.right := newNode;
      } else {
        parent.third := newNode;
      }
    }

    method PostFunc(ghost bound: Tree)
      requires node != null && node.Valid() && Attached(parent, node, replacer)
      requires node.kind.Paren? ==> bound == node.View
      modifies node.Repr, if replacer.Slot? then {parent} else {}
      ensures OnlySlotChanged(parent, replacer)
      ensures var n := Place(parent, node, replacer);
              && n != null && n.Valid() && fresh(n.Repr - old(node.Repr))
              && n.View == Finished(old(node.View), replacer.Slot?, replaceFields)
      decreases bound, 0
    {
      hide Node.Valid;
      node.KindOfView();
      if node.kind.ColName? {
        if node.kind.name != "" {
          var colName := new Node(ColName(ReplaceField(replaceFields, node.kind.name)), null, null, null);
          // Without a replacer the call panics; replaceSQL recovers, and nothing has changed
          if replacer.Slot? {
            Replace(colName);
          }
        }
      } else if node.kind.Paren? {
        node.Parts();
        ReplaceSql(node.left, replaceFields);
        node.Refresh();
      }
    }

    method Apply(parent: Node?, n: Node?, replacer: Replacer)
      requires ValidOrNull(n) && Attached(parent, n, replacer)
      modifies this, ReprOf(n), if replacer.Slot? then {parent} else {}
      ensures this.parent == old(this.parent) && this.node == old(this.node) && this.replacer == old(this.replacer)
      ensures OnlySlotChanged(parent, replacer)
      ensures var n' := Place(parent, n, replacer);
              && ValidOrNull(n') && fresh(ReprOf(n') - old(ReprOf(n)))
              && ViewOf(n') == Visited(old(ViewOf(n)), replacer.Slot?, replaceFields)
      decreases ViewOf(n), 2
    {
      hide Node.Valid;
      if n == null {
        return;
      }
      var savedReplacer, savedNode, savedParent := this.replacer, this.node, this.parent;
      this.replacer, this.node, this.parent := replacer, n, parent;

      ghost var tree := n.View;
      n.KindOfView();
      ChildrenThenSelf(tree, replacer.Slot?, replaceFields);
      hide Visited, Finished, Renamed, RenamedSlot;
      if Live(n.kind) {
        ApplyChildren(n);
      }
      PostFunc(tree);

      this.replacer, this.node, this.parent := savedReplacer, savedNode, savedParent;
    }

    /** Visits one child slot and takes any new node into the parent's footprint. */
    method ApplyChild(n: Node, slot: nat, ghost bound: Tree)
      requires n.Valid() && slot < Arity(n.kind) <= 3
      requires ValidOrNull(n.Child(slot)) && ViewOf(n.Child(slot)) < bound
      modifies this, n.Repr
      ensures this.parent == old(this.parent) && this.node == old(this.node) && this.replacer == old(this.replacer)
      ensures n.Valid() && fresh(n.Repr - old(n.Repr)) && n.kind == old(n.kind)
      ensures ViewOf(n.left) ==
              if slot == 0 then RenamedSlot(old(ViewOf(n.left)), replaceFields) else old(ViewOf(n.left))
      ensures ViewOf(n.right) ==
              if slot == 1 then RenamedSlot(old(ViewOf(n.right)), replaceFields) else old(ViewOf(n.right))
      ensures ViewOf(n.third) ==
              if slot == 2 then RenamedSlot(old(ViewOf(n.third)), replaceFields) else old(ViewOf(n.third))
      decreases bound, 0
    {
      hide Node.Valid;
      hide Plug, RenamedSlot;
      n.Parts();
      Apply(n, n.Child(slot), Slot(slot));
      if slot == 0 {
        assert n.Child(0) == n.left;
        assert ValidOrNull(n.right) && ValidOrNull(n.third);
      } else if slot == 1 {
        assert n.Child(1) == n.right;
        assert ValidOrNull(n.left) && ValidOrNull(n.third);
      } else {
        assert n.Child(2) == n.third;
        assert ValidOrNull(n.left) && ValidOrNull(n.right);
      }
      n.Refresh();
    }

    method ApplyChildren(n: Node)
      requires n.Valid() && Live(n.kind)
      modifies this, n.Repr
      ensures this.parent == old(this.parent) && this.node == old(this.node) && this.replacer == old(this.replacer)
      ensures n.Valid() && fresh(n.Repr - old(n.Repr)) && n.kind == old(n.kind)
      ensures n.View == Renamed(old(n.View), replaceFields)
      decreases n.View, 1
    {
      hide Node.Valid;
      ghost var tree := n.View;
      n.Parts();
      ChildrenRenamed(n.kind, ViewOf(n.left), ViewOf(n.right), ViewOf(n.third), replaceFields);
      hide Plug, Renamed, RenamedSlot;
      ApplyChild(n, 0, tree);
      n.Parts();
      if Arity(n.kind) >= 2 {
        ApplyChild(n, 1, tree);
        n.Parts();
      }
      if Arity(n.kind) >= 3 {
        ApplyChild(n, 2, tree);
        n.Parts();
      }
    }
  }

  /** Renaming a live node is renaming its slots; slots beyond the arity do not matter. */
  lemma ChildrenRenamed(kind: Tree, a: Tree, b: Tree, c: Tree, m: Fields)
    requires Live(kind)
    ensures var t := Plug(kind, a, b, c);
            && a < t && (Arity(kind) >= 2 ==> b < t) && (Arity(kind) >= 3 ==> c < t)
            && Renamed(t, m) == Plug(kind, RenamedSlot(a, m),
                                     if Arity(kind) >= 2 then RenamedSlot(b, m) else b,
                                     if Arity(kind) >= 3 then RenamedSlot(c, m) else c)
  {
  }

  /** Renames the columns of a tree; the tree keeps its root node. */
  method ReplaceSql(n: Node?, m: Fields)
    requires ValidOrNull(n)
    modifies ReprOf(n)
    ensures ValidOrNull(n) && fresh(ReprOf(n) - old(ReprOf(n)))
    ensures ViewOf(n) == Renamed(old(ViewOf(n)), m)
    decreases ViewOf(n), 3
  {
    var c := new Cursor(m);
    c.Apply(null, n, NoReplacer);
  }
}
