/** What the collected relations are, for any list of entries. */
module Dedup {
  import opened Wrappers
  import opened Present
  import opened Relations

  // ---------- when attributes count as identical ----------

  /** One listed attribute of an entry agrees with the stored one. */
  predicate Agrees(entry: Entry, target: Entry, k: string) {
    var s, t := Get(entry, k), Get(target, k);
    && t != Null
    && if s.List? && t.List? then |s.items| == |t.items| && forall i | 0 <= i < |s.items| :: s.items[i] in t.items
       else !s.List? && s == t
  }

  /** A list of one value that prints like the stored value. */
  predicate CutsShort(entry: Entry, target: Entry, k: string, text: Printer) {
    var s, t := Get(entry, k), Get(target, k);
    t != Null && s.List? && !t.List? && |s.items| == 1 && text(s.items[0]) == text(t)
  }

  predicate AgreeBefore(entry: Entry, target: Entry, keys: seq<string>, n: nat)
    requires n <= |keys|
  {
    forall i | 0 <= i < n :: Agrees(entry, target, keys[i])
  }

  /**
   * The comparison succeeds iff all attributes agree, or they agree up to a
   * one-value list that prints like the stored value: what comes after is ignored.
   */
  lemma {:induction false} IdenticalExactly(entry: Entry, target: Entry, keys: seq<string>, text: Printer)
    requires !IdenticalPanics(entry, target, keys)
    ensures IdenticalFrom(entry, target, keys, text) <==>
              exists n | 0 <= n <= |keys| ::
                AgreeBefore(entry, target, keys, n) && (n < |keys| ==> CutsShort(entry, target, keys[n], text))
    decreases |keys|
  {
    if keys == [] {
      assert AgreeBefore(entry, target, keys, 0);
    } else {
      var rest := keys[1..];
      if Agrees(entry, target, keys[0]) {
        IdenticalExactly(entry, target, rest, text);
      }
      if IdenticalFrom(entry, target, keys, text) {
        if CutsShort(entry, target, keys[0], text) {
          assert AgreeBefore(entry, target, keys, 0);
        } else {
          var n :| 0 <= n <= |rest| && AgreeBefore(entry, target, rest, n)
                   && (n < |rest| ==> CutsShort(entry, target, rest[n], text));
          assert forall i | 1 <= i <= n :: keys[i] == rest[i - 1];
          assert AgreeBefore(entry, target, keys, n + 1);
        }
      }
      if n :| 1 <= n <= |keys| && AgreeBefore(entry, target, keys, n)
              && (n < |keys| ==> CutsShort(entry, target, keys[n], text)) {
        assert Agrees(entry, target, keys[0]);
        assert forall i | 0 <= i < n - 1 :: rest[i] == keys[i + 1];
        assert AgreeBefore(entry, target, rest, n - 1);
      }
    }
  }

  /** No listed attribute of the entry is a list or a map. */
  predicate Plain(entry: Entry, keys: seq<string>) {
    forall i | 0 <= i < |keys| :: !Get(entry, keys[i]).List? && !Get(entry, keys[i]).Obj?
  }

  lemma PlainIdentical(entry: Entry, target: Entry, keys: seq<string>, text: Printer)
    requires Plain(entry, keys)
    ensures !IdenticalPanics(entry, target, keys)
    ensures IdenticalFrom(entry, target, keys, text) <==>
              forall i | 0 <= i < |keys| :: Get(target, keys[i]) != Null && Get(target, keys[i]) == Get(entry, keys[i])
  {
    FlatNeverPanics(entry, target, keys);
    IdenticalExactly(entry, target, keys, text);
    if forall i | 0 <= i < |keys| :: Agrees(entry, target, keys[i]) {
      assert AgreeBefore(entry, target, keys, |keys|);
    }
  }

  /** A list attribute can hide that another attribute differs. */
  lemma DifferenceIgnored(x: Json, text: Printer)
    requires x.Str?
    ensures var entry := map["tags" := List([x]), "port" := Num(1.0)];
            var target := map["tags" := x, "port" := Num(2.0)];
            IdenticalFrom(entry, target, ["tags", "port"], text) && !Agrees(entry, target, "port")
  {
  }

  // ---------- a skip loses nothing ----------

  /** Neither an identifier nor a listed attribute is a list or a map. */
  predicate PlainFor(entry: Entry, rel: Relation) {
    && Scalar(Get(entry, rel.from.id)) && Scalar(Get(entry, rel.to.id))
    && Plain(entry, rel.from.attributes)
    && Plain(entry, rel.to.attributes)
    && (rel.edge.Some? ==> Plain(entry, rel.edge.value.attributes))
  }

  /** Stored attributes hold the entry's value for every listed key. */
  predicate SameValues(entry: Entry, stored: Option<Entry>, keys: seq<string>) {
    keys == [] ||
    (stored.Some? && forall i | 0 <= i < |keys| ::
       Get(stored.value, keys[i]) != Null && Get(stored.value, keys[i]) == Get(entry, keys[i]))
  }

  /** A result that tells the user all the entry would: same nodes, same attributes. */
  predicate Repeats(r: Graph, entry: Entry, rel: Relation) {
    && r.from.id == Get(entry, rel.from.id) && r.to.id == Get(entry, rel.to.id)
    && SameValues(entry, r.from.attributes, rel.from.attributes)
    && SameValues(entry, r.to.attributes, rel.to.attributes)
    && (rel.edge.Some? ==> SameValues(entry, EdgeMap(r.edge), rel.edge.value.attributes))
  }

  /**
   * An entry with both identifiers is skipped only if a result repeats it,
   * whichever other keys happen to print alike.
   */
  lemma SkipSound(c: Context, log: Log, rel: nat, entry: Entry) returns (i: nat)
    requires LogOf(c, log) && rel < |c.relations|
    requires HasIds(entry, c.relations[rel]) && PlainFor(entry, c.relations[rel])
    requires !Emits(c, log, rel, entry)
    ensures i < |log| && Repeats(ResultOf(c, log[i]), entry, c.relations[rel])
  {
    var r := c.relations[rel];
    i :| 0 <= i < |ResultsOf(c, log)| && SameAs(ResultsOf(c, log)[i], entry, r, c.text);
    var g := ResultsOf(c, log)[i];
    if r.from.attributes != [] {
      PlainIdentical(entry, g.from.attributes.value, r.from.attributes, c.text);
    }
    if r.to.attributes != [] {
      PlainIdentical(entry, g.to.attributes.value, r.to.attributes, c.text);
    }
    if r.edge.Some? && r.edge.value.attributes != [] {
      PlainIdentical(entry, EdgeMap(g.edge).value, r.edge.value.attributes, c.text);
    }
  }

  /**
   * The scan looks for the edge's attributes next to its label, where they are
   * not: a relation that lists any is never skipped.
   */
  lemma EdgeAttributesNeverFound(c: Context, log: Log, rel: nat, entry: Entry, k: string)
    requires LogOf(c, log) && rel < |c.relations| && PlainFor(entry, c.relations[rel])
    requires c.relations[rel].edge.Some? && k in c.relations[rel].edge.value.attributes
    requires k != "label" && k != "attributes"
    ensures Emits(c, log, rel, entry) <==> HasIds(entry, c.relations[rel])
  {
    var r := c.relations[rel];
    var keys := r.edge.value.attributes;
    forall i | 0 <= i < |log| ensures !SameAs(ResultOf(c, log[i]), entry, r, c.text) {
      var edge := EdgeMap(ResultOf(c, log[i]).edge);
      if edge.Some? {
        PlainIdentical(entry, edge.value, keys, c.text);
        assert Get(edge.value, k) == Null;
      }
    }
  }

  /** The edge map holds a text under "label" and a map under "attributes", and nothing else. */
  lemma EdgeFoundExactly(entry: Entry, edge: Option<Edge>, keys: seq<string>, text: Printer)
    requires Plain(entry, keys) && keys != []
    ensures AttributesAreIdentical(entry, EdgeMap(edge), keys, text) <==>
              && edge.Some? && edge.value.caption.Some? && Get(entry, "label") == Str(edge.value.caption.value)
              && forall i | 0 <= i < |keys| :: keys[i] == "label"
  {
    if edge.Some? {
      var m := EdgeMap(edge).value;
      PlainIdentical(entry, m, keys, text);
      assert forall k :: k != "label" && k != "attributes" ==> Get(m, k) == Null;
      assert Get(m, "label") == if edge.value.caption.Some? then Str(edge.value.caption.value) else Null;
      assert keys[0] in keys;
    }
  }

  /** The caption that the edge of an entry shows. */
  function ShownCaption(rel: Relation, entry: Entry, text: Printer): Option<string>
    requires rel.edge.Some?
  {
    EdgeLabel(rel.edge.value, MakeVertex(rel.from, entry, text), MakeVertex(rel.to, entry, text))
  }

  /**
   * For a relation that lists edge attributes a complete entry is skipped, when
   * it is repeated, iff all it lists is "label" and that is the caption shown.
   */
  lemma RepeatedEdgeExactly(c: Context, rel: nat, entry: Entry)
    requires rel < |c.relations| && HasIds(entry, c.relations[rel]) && CompleteFor(entry, c.relations[rel])
    requires c.relations[rel].edge.Some? && c.relations[rel].edge.value.attributes != []
    requires Plain(entry, c.relations[rel].edge.value.attributes)
    ensures var keys, shown := c.relations[rel].edge.value.attributes, ShownCaption(c.relations[rel], entry, c.text);
            !Emits(c, [Emission(rel, entry)], rel, entry) <==>
              && (forall i | 0 <= i < |keys| :: keys[i] == "label")
              && shown.Some? && Get(entry, "label") == Str(shown.value)
  {
    var r, log := c.relations[rel], [Emission(rel, entry)];
    var g := ResultsOf(c, log)[0];
    assert KeyOf(c, log[0]) in KeysOf(c, log);
    StoredIdentical(entry, entry, r.from.attributes, c.text);
    StoredIdentical(entry, entry, r.to.attributes, c.text);
    EdgeFoundExactly(entry, g.edge, r.edge.value.attributes, c.text);
    assert g == MakeGraph(c.source, r, entry, c.text);
    hide IdenticalFrom, EdgeMap, EdgeLabel, CompleteFor, HasIds;
    assert SameAs(g, entry, r, c.text) <==>
        AttributesAreIdentical(entry, EdgeMap(g.edge), r.edge.value.attributes, c.text);
  }

  /** An edge attribute "label" that equals the edge's caption lets the entry be skipped. */
  lemma LabelAttributeSkipped(text: Printer)
    ensures var edge := EdgeDef("owns", ["label"]);
            var rel := Relation(NodeDef("ip", "", "", [], []), NodeDef("domain", "", "", [], []), Some(edge));
            var c := Context("", [rel], text);
            var entry := map["ip" := Str("1"), "domain" := Str("x"), "label" := Str("owns")];
            HasIds(entry, rel) && !Emits(c, [Emission(0, entry)], 0, entry)
  {
    var edge := EdgeDef("owns", ["label"]);
    var rel := Relation(NodeDef("ip", "", "", [], []), NodeDef("domain", "", "", [], []), Some(edge));
    var c := Context("", [rel], text);
    var entry := map["ip" := Str("1"), "domain" := Str("x"), "label" := Str("owns")];
    RepeatedEdgeExactly(c, 0, entry);
  }

  // ---------- every entry is represented ----------

  /** Stored attributes hold at least what the listed keys stand for in the entry, dotted ones included. */
  predicate Covers(entry: Entry, stored: Option<Entry>, keys: seq<string>) {
    forall i | 0 <= i < |keys| :: Resolve(entry, keys[i]) != Null ==>
                                    stored.Some? && Get(stored.value, keys[i]) == Resolve(entry, keys[i])
  }

  predicate Represents(r: Graph, entry: Entry, rel: Relation) {
    && r.from.id == Get(entry, rel.from.id) && r.to.id == Get(entry, rel.to.id)
    && Covers(entry, r.from.attributes, rel.from.attributes)
    && Covers(entry, r.to.attributes, rel.to.attributes)
  }

  lemma VertexCovers(def: NodeDef, entry: Entry, text: Printer)
    ensures Covers(entry, MakeVertex(def, entry, text).attributes, def.attributes)
  {
    forall i | 0 <= i < |def.attributes| && Resolve(entry, def.attributes[i]) != Null
      ensures Get(CopiedAll(map[], entry, def.attributes), def.attributes[i]) == Resolve(entry, def.attributes[i])
    {
      CopiedExactly(map[], entry, def.attributes, def.attributes[i]);
    }
  }

  lemma RelationRepresented(c: Context, log: Log, rel: nat, entry: Entry) returns (i: nat)
    requires LogOf(c, log) && rel < |c.relations|
    requires HasIds(entry, c.relations[rel]) && PlainFor(entry, c.relations[rel])
    ensures var after := AfterRelation(c, log, rel, entry);
            i < |after| && Represents(ResultOf(c, after[i]), entry, c.relations[rel])
  {
    if Emits(c, log, rel, entry) {
      i := |log|;
      VertexCovers(c.relations[rel].from, entry, c.text);
      VertexCovers(c.relations[rel].to, entry, c.text);
    } else {
      i := SkipSound(c, log, rel, entry);
    }
  }

  lemma {:induction false} RelationsGrow(c: Context, log: Log, n: nat, m: nat, entry: Entry)
    requires LogOf(c, log) && n <= m <= |c.relations|
    ensures AfterRelations(c, log, n, entry) <= AfterRelations(c, log, m, entry)
  {
    if n < m {
      RelationsGrow(c, log, n, m - 1, entry);
    }
  }

  lemma {:induction false} EntriesGrow(c: Context, entries: seq<Entry>, n: nat)
    requires n <= |entries|
    ensures AfterEntries(c, entries[..n]) <= AfterEntries(c, entries)
    decreases |entries|
  {
    if n == |entries| {
      assert entries[..n] == entries;
    } else {
      var front := entries[..|entries| - 1];
      EntriesGrow(c, front, n);
      assert front[..n] == entries[..n];
    }
  }

  /** No comparison that is made on the way panics. */
  predicate RunsThrough(c: Context, entries: seq<Entry>) {
    forall j: nat | j < |entries| :: Scannable(c, AfterEntries(c, entries[..j]), entries[j])
  }

  predicate FlatFor(entry: Entry, relations: seq<Relation>) {
    forall rel | 0 <= rel < |relations| :: Flat(entry, relations[rel])
  }

  lemma FlatRunsThrough(c: Context, entries: seq<Entry>)
    requires forall j | 0 <= j < |entries| :: FlatFor(entries[j], c.relations)
    ensures RunsThrough(c, entries)
  {
    hide Flat, Panics, AfterRelation;
    forall j: nat | j < |entries| ensures Scannable(c, AfterEntries(c, entries[..j]), entries[j]) {
      var log := AfterEntries(c, entries[..j]);
      forall i: nat | i < |c.relations| ensures !Panics(c, AfterRelations(c, log, i, entries[j]), i, entries[j]) {
        FlatScannable(c, AfterRelations(c, log, i, entries[j]), i, entries[j]);
      }
    }
  }

  lemma ListsPanicExactly(xs: seq<Json>)
    ensures ListsPanic(xs, xs) <==> exists i | 0 <= i < |xs| :: !Scalar(xs[i])
  {
    if i :| 0 <= i < |xs| && !Scalar(xs[i]) {
      assert Clash(xs[i], xs[i]);
    }
  }

  /** Comparing listed values with themselves panics iff one of them is not flat, and finds them identical else. */
  lemma {:induction false} OwnCopyPanics(entry: Entry, copy: Entry, keys: seq<string>, text: Printer)
    requires forall i | 0 <= i < |keys| :: Get(entry, keys[i]) != Null && Get(copy, keys[i]) == Get(entry, keys[i])
    ensures IdenticalPanics(entry, copy, keys) <==> !FlatKeys(entry, keys)
    ensures IdenticalFrom(entry, copy, keys, text)
    decreases |keys|
  {
    if keys != [] {
      var rest, v := keys[1..], Get(entry, keys[0]);
      assert forall i | 0 <= i < |rest| :: rest[i] == keys[i + 1];
      OwnCopyPanics(entry, copy, rest, text);
      if v.List? { ListsPanicExactly(v.items); }
      FlatFirst(entry, keys);
    }
  }

  lemma FlatFirst(entry: Entry, keys: seq<string>)
    requires keys != []
    ensures FlatKeys(entry, keys) <==> FlatKeys(entry, keys[..1]) && FlatKeys(entry, keys[1..])
  {
    assert forall i | 0 <= i < |keys[1..]| :: keys[1..][i] == keys[i + 1];
    assert forall i | 1 <= i < |keys| :: keys[i] == keys[1..][i - 1];
    assert keys[..1][0] == keys[0];
  }

  predicate AllPresent(entry: Entry, keys: seq<string>) {
    forall i | 0 <= i < |keys| :: Get(entry, keys[i]) != Null
  }

  lemma VertexPanics(def: NodeDef, entry: Entry, text: Printer)
    requires AllPresent(entry, def.attributes)
    ensures var stored := MakeVertex(def, entry, text).attributes;
            && (AttributesPanic(entry, stored, def.attributes) <==> !FlatKeys(entry, def.attributes))
            && AttributesAreIdentical(entry, stored, def.attributes, text)
  {
    var copy := CopiedAll(map[], entry, def.attributes);
    forall i | 0 <= i < |def.attributes| ensures Get(copy, def.attributes[i]) == Get(entry, def.attributes[i]) {
      CopiedExactly(map[], entry, def.attributes, def.attributes[i]);
    }
    OwnCopyPanics(entry, copy, def.attributes, text);
  }

  /** An entry with all attributes present panics, when it is met a second time, iff it is not flat. */
  lemma RepeatedPanicsExactly(c: Context, rel: nat, entry: Entry)
    requires rel < |c.relations| && HasIds(entry, c.relations[rel]) && Simple(c.relations[rel])
    requires AllPresent(entry, c.relations[rel].from.attributes) && AllPresent(entry, c.relations[rel].to.attributes)
    ensures Panics(c, [Emission(rel, entry)], rel, entry) <==> !Flat(entry, c.relations[rel])
  {
    var r, log := c.relations[rel], [Emission(rel, entry)];
    var g := ResultsOf(c, log)[0];
    assert KeyOf(c, log[0]) in KeysOf(c, log);
    VertexPanics(r.from, entry, c.text);
    VertexPanics(r.to, entry, c.text);
    assert g == MakeGraph(c.source, r, entry, c.text);
    hide IdenticalFrom, IdenticalPanics, AttributesAreIdentical, FlatKeys, HasIds;
    assert r.edge.Some? ==> FlatKeys(entry, r.edge.value.attributes) by { NoKeysFlat(entry); }
    assert SamePanics(g, entry, r, c.text) <==> !Flat(entry, r);
  }

  /** Any list of entries of the pool, with repetitions, is collected without a panic. */
  ghost predicate AlwaysCollected(c: Context, pool: set<Entry>) {
    forall entries: seq<Entry> | (forall e | e in entries :: e in pool) :: RunsThrough(c, entries)
  }

  lemma OnceEmitted(c: Context, entry: Entry)
    requires |c.relations| == 1 && HasIds(entry, c.relations[0])
    ensures AfterEntries(c, [entry]) == [Emission(0, entry)]
  {
    assert [entry][..0] == [];
    assert AfterEntries(c, []) == [] && KeysOf(c, []) == {};
    assert AfterRelations(c, [], 0, entry) == [];
    assert AfterEntry(c, [], entry) == AfterRelation(c, [], 0, entry);
  }

  /** With one relation, and all attributes present, nothing ever panics iff all entries with identifiers are flat. */
  lemma AlwaysCollectedExactly(c: Context, pool: set<Entry>)
    requires |c.relations| == 1 && Simple(c.relations[0])
    requires forall e | e in pool ::
               AllPresent(e, c.relations[0].from.attributes) && AllPresent(e, c.relations[0].to.attributes)
    ensures AlwaysCollected(c, pool) <==> forall e | e in pool && HasIds(e, c.relations[0]) :: Flat(e, c.relations[0])
  {
    if forall e | e in pool && HasIds(e, c.relations[0]) :: Flat(e, c.relations[0]) {
      forall entries: seq<Entry> | (forall e | e in entries :: e in pool) ensures RunsThrough(c, entries) {
        forall j: nat | j < |entries| ensures Scannable(c, AfterEntries(c, entries[..j]), entries[j]) {
          var log := AfterRelations(c, AfterEntries(c, entries[..j]), 0, entries[j]);
          hide AfterEntries, Flat, ScanPanics;
          if HasIds(entries[j], c.relations[0]) { FlatScannable(c, log, 0, entries[j]); }
        }
      }
    } else {
      var e :| e in pool && HasIds(e, c.relations[0]) && !Flat(e, c.relations[0]);
      RepeatedPanicsExactly(c, 0, e);
      OnceEmitted(c, e);
      hide Flat, Panics, HasIds;
      assert [e, e][..1] == [e];
      assert AfterRelations(c, [Emission(0, e)], 0, e) == [Emission(0, e)];
      assert !Scannable(c, AfterEntries(c, [e, e][..1]), [e, e][1]);
      assert !RunsThrough(c, [e, e]);
    }
  }

  lemma NoKeysFlat(entry: Entry)
    ensures FlatKeys(entry, [])
  {
  }

  /** What the log holds once entry j has met a relation is there to stay. */
  lemma LogStays(c: Context, entries: seq<Entry>, j: nat, rel: nat)
    requires j < |entries| && rel < |c.relations|
    ensures var log := AfterRelations(c, AfterEntries(c, entries[..j]), rel, entries[j]);
            AfterRelation(c, log, rel, entries[j]) <= AfterEntries(c, entries)
  {
    hide AfterRelation;
    var before := AfterEntries(c, entries[..j]);
    assert AfterRelations(c, before, rel + 1, entries[j])
        == AfterRelation(c, AfterRelations(c, before, rel, entries[j]), rel, entries[j]);
    RelationsGrow(c, before, rel + 1, |c.relations|, entries[j]);
    assert entries[..j + 1][..j] == entries[..j];
    EntriesGrow(c, entries, j + 1);
  }

  /** At the end of a run every entry is represented for every relation whose identifiers it has. */
  lemma EveryEntryRepresented(c: Context, entries: seq<Entry>, j: nat, rel: nat) returns (i: nat)
    requires RunsThrough(c, entries)
    requires j < |entries| && rel < |c.relations|
    requires var e, r := entries[j], c.relations[rel];
             && r.from.id in e && e[r.from.id] != Null && e[r.from.id] != Str("")
             && r.to.id in e && e[r.to.id] != Null && e[r.to.id] != Str("")
    requires PlainFor(entries[j], c.relations[rel])
    ensures var log := AfterEntries(c, entries);
            i < |log| && Represents(ResultOf(c, log[i]), entries[j], c.relations[rel])
  {
    assert HasIds(entries[j], c.relations[rel]);
    hide Represents, ResultOf, AfterRelation, AfterEntries, HasIds, PlainFor;
    var log := AfterRelations(c, AfterEntries(c, entries[..j]), rel, entries[j]);
    i := RelationRepresented(c, log, rel, entries[j]);
    LogStays(c, entries, j, rel);
  }

  // ---------- one relation: the first occurrences ----------

  /** Every listed attribute is there, and none is a list or a map. */
  predicate Complete(entry: Entry, keys: seq<string>) {
    Plain(entry, keys) && forall i | 0 <= i < |keys| :: Get(entry, keys[i]) != Null
  }

  predicate Simple(rel: Relation) {
    rel.edge.Some? ==> rel.edge.value.attributes == []
  }

  predicate CompleteFor(entry: Entry, rel: Relation) {
    && Scalar(Get(entry, rel.from.id)) && Scalar(Get(entry, rel.to.id))
    && Complete(entry, rel.from.attributes) && Complete(entry, rel.to.attributes)
  }

  lemma CompleteFlat(entry: Entry, rel: Relation)
    requires Simple(rel) && CompleteFor(entry, rel)
    ensures Flat(entry, rel)
  {
  }

  lemma CopiesEqual(a: Entry, b: Entry, keys: seq<string>)
    requires Complete(a, keys) && Complete(b, keys)
    ensures CopiedAll(map[], a, keys) == CopiedAll(map[], b, keys) <==>
              forall i | 0 <= i < |keys| :: Get(a, keys[i]) == Get(b, keys[i])
  {
    var x, y := CopiedAll(map[], a, keys), CopiedAll(map[], b, keys);
    forall k ensures Get(x, k) == (if k in keys then Get(a, k) else Null) && (k in x <==> k in keys)
             ensures Get(y, k) == (if k in keys then Get(b, k) else Null) && (k in y <==> k in keys)
    {
      CopiedExactly(map[], a, keys, k);
      CopiedExactly(map[], b, keys, k);
    }
    if forall i | 0 <= i < |keys| :: Get(a, keys[i]) == Get(b, keys[i]) {
      assert forall k | k in x :: x[k] == Get(x, k) == Get(y, k) == y[k];
    } else {
      var i :| 0 <= i < |keys| && Get(a, keys[i]) != Get(b, keys[i]);
      assert Get(x, keys[i]) != Get(y, keys[i]);
    }
  }

  /** Comparing an entry with a stored vertex is comparing it with the entry it was made from. */
  lemma StoredIdentical(made: Entry, entry: Entry, keys: seq<string>, text: Printer)
    requires Complete(made, keys) && Complete(entry, keys)
    ensures IdenticalFrom(entry, CopiedAll(map[], made, keys), keys, text) <==>
              CopiedAll(map[], made, keys) == CopiedAll(map[], entry, keys)
  {
    var stored := CopiedAll(map[], made, keys);
    PlainIdentical(entry, stored, keys, text);
    CopiesEqual(made, entry, keys);
    forall i | 0 <= i < |keys| ensures Get(stored, keys[i]) == Get(made, keys[i]) {
      CopiedExactly(map[], made, keys, keys[i]);
    }
  }

  lemma SameAsEqual(source: string, rel: Relation, made: Entry, entry: Entry, text: Printer)
    requires Simple(rel) && CompleteFor(made, rel) && CompleteFor(entry, rel)
    ensures SameAs(MakeGraph(source, rel, made, text), entry, rel, text) <==>
              MakeGraph(source, rel, made, text) == MakeGraph(source, rel, entry, text)
  {
    StoredIdentical(made, entry, rel.from.attributes, text);
    StoredIdentical(made, entry, rel.to.attributes, text);
  }

  /** The images of all entries that have both identifiers. */
  function Images(c: Context, entries: seq<Entry>): seq<Graph>
    requires |c.relations| == 1
  {
    if entries == [] then []
    else
      var e := entries[|entries| - 1];
      Images(c, entries[..|entries| - 1]) +
      if HasIds(e, c.relations[0]) then [MakeGraph(c.source, c.relations[0], e, c.text)] else []
  }

  /** A list with every repeated element dropped, the first one kept. */
  function FirstOccurrences(gs: seq<Graph>): seq<Graph> {
    if gs == [] then []
    else
      var front := FirstOccurrences(gs[..|gs| - 1]);
      if gs[|gs| - 1] in front then front else front + [gs[|gs| - 1]]
  }

  lemma {:induction false} FirstOccurrencesDistinct(gs: seq<Graph>)
    ensures forall i, j | 0 <= i < j < |FirstOccurrences(gs)| :: FirstOccurrences(gs)[i] != FirstOccurrences(gs)[j]
    ensures forall g :: g in FirstOccurrences(gs) <==> g in gs
  {
    if gs != [] {
      FirstOccurrencesDistinct(gs[..|gs| - 1]);
      assert gs == gs[..|gs| - 1] + [gs[|gs| - 1]];
    }
  }

  /** Every emission of the log came from a complete entry. */
  predicate CompleteLog(c: Context, log: Log)
    requires |c.relations| == 1
  {
    LogOf(c, log) && forall i | 0 <= i < |log| :: CompleteFor(log[i].entry, c.relations[0])
  }

  /** With one simple relation an entry is emitted iff its image is new. */
  lemma EmitsIffNew(c: Context, log: Log, entry: Entry)
    requires |c.relations| == 1 && Simple(c.relations[0]) && CompleteLog(c, log)
    requires HasIds(entry, c.relations[0]) && CompleteFor(entry, c.relations[0])
    ensures Emits(c, log, 0, entry) <==>
              MakeGraph(c.source, c.relations[0], entry, c.text) !in ResultsOf(c, log)
  {
    var rel, results := c.relations[0], ResultsOf(c, log);
    var g := MakeGraph(c.source, rel, entry, c.text);
    forall i | 0 <= i < |log|
      ensures SameAs(results[i], entry, rel, c.text) <==> results[i] == g
      ensures results[i] == g ==> KeyOf(c, log[i]) == Key(entry, rel, c.text)
    {
      SameAsEqual(c.source, rel, log[i].entry, entry, c.text);
      if results[i] == g { EqualKeys(c.source, rel, log[i].entry, entry, c.text); }
    }
    hide SameAs, HasIds, MakeGraph, Key, KeyOf, Simple, CompleteFor;
    if i :| 0 <= i < |log| && results[i] == g {
      assert KeyOf(c, log[i]) in KeysOf(c, log);
    }
  }

  lemma EqualKeys(source: string, rel: Relation, a: Entry, b: Entry, text: Printer)
    requires MakeGraph(source, rel, a, text) == MakeGraph(source, rel, b, text)
    ensures Key(a, rel, text) == Key(b, rel, text)
  {
    assert MakeGraph(source, rel, a, text).from.id == Get(a, rel.from.id);
    assert MakeGraph(source, rel, a, text).to.id == Get(a, rel.to.id);
  }

  lemma OnlyRelation(c: Context, log: Log, entry: Entry)
    requires |c.relations| == 1 && LogOf(c, log)
    ensures AfterEntry(c, log, entry) == AfterRelation(c, log, 0, entry)
  {
    assert AfterRelations(c, log, 0, entry) == log;
  }

  lemma CompleteRunsThrough(c: Context, entries: seq<Entry>)
    requires |c.relations| == 1 && Simple(c.relations[0])
    requires forall i | 0 <= i < |entries| :: CompleteFor(entries[i], c.relations[0])
    ensures RunsThrough(c, entries)
  {
    forall j | 0 <= j < |entries| ensures FlatFor(entries[j], c.relations) {
      CompleteFlat(entries[j], c.relations[0]);
    }
    FlatRunsThrough(c, entries);
  }

  /** One entry more adds its image if that is new. */
  lemma OneMoreImage(c: Context, log: Log, entry: Entry)
    requires |c.relations| == 1 && Simple(c.relations[0]) && CompleteLog(c, log)
    requires HasIds(entry, c.relations[0]) && CompleteFor(entry, c.relations[0])
    ensures var g, after := MakeGraph(c.source, c.relations[0], entry, c.text), AfterRelation(c, log, 0, entry);
            && CompleteLog(c, after)
            && ResultsOf(c, after) == if g in ResultsOf(c, log) then ResultsOf(c, log) else ResultsOf(c, log) + [g]
  {
    EmitsIffNew(c, log, entry);
    LogGrows(c, log, Emission(0, entry));
    hide Emits, MakeGraph, Simple;
  }

  lemma ImagesLast(c: Context, entries: seq<Entry>)
    requires |c.relations| == 1 && entries != []
    ensures var front, e := entries[..|entries| - 1], entries[|entries| - 1];
            var g := MakeGraph(c.source, c.relations[0], e, c.text);
            FirstOccurrences(Images(c, entries)) ==
            if !HasIds(e, c.relations[0]) || g in FirstOccurrences(Images(c, front))
            then FirstOccurrences(Images(c, front)) else FirstOccurrences(Images(c, front)) + [g]
  {
    hide MakeGraph, HasIds;
    var front, e := entries[..|entries| - 1], entries[|entries| - 1];
    var g := MakeGraph(c.source, c.relations[0], e, c.text);
    if HasIds(e, c.relations[0]) {
      assert Images(c, entries) == Images(c, front) + [g];
      assert Images(c, entries)[..|Images(c, entries)| - 1] == Images(c, front);
    } else {
      assert Images(c, entries) == Images(c, front);
    }
  }

  /** The results are the first occurrences of the images, so none appears twice. */
  lemma {:induction false} ResultsAreFirstOccurrences(c: Context, entries: seq<Entry>)
    requires |c.relations| == 1 && Simple(c.relations[0])
    requires forall i | 0 <= i < |entries| :: CompleteFor(entries[i], c.relations[0])
    ensures RunsThrough(c, entries)
    ensures CompleteLog(c, AfterEntries(c, entries))
    ensures ResultsOf(c, AfterEntries(c, entries)) == FirstOccurrences(Images(c, entries))
    decreases |entries|
  {
    CompleteRunsThrough(c, entries);
    hide RunsThrough, Simple, CompleteFor, HasIds, MakeGraph;
    if entries != [] {
      var front, e := entries[..|entries| - 1], entries[|entries| - 1];
      ResultsAreFirstOccurrences(c, front);
      var log := AfterEntries(c, front);
      OnlyRelation(c, log, e);
      ImagesLast(c, entries);
      assert AfterEntries(c, entries) == AfterEntry(c, log, e);
      hide AfterEntries, AfterEntry, Images, FirstOccurrences;
      if HasIds(e, c.relations[0]) {
        OneMoreImage(c, log, e);
      }
    }
  }
}
