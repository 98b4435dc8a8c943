/**
 * Turning the entries of a data source into graph relations, each kept once: a
 * key index in front of a scan over the results collected so far.
 */
module Relations {
  import opened Wrappers
  import opened Present

  // ---------- definitions ----------

  /** The compiled regular expression is a predicate on the printed identifier. */
  datatype VarType = VarType(matches: string -> bool, group: string, search: string, caption: string)

  datatype NodeDef = NodeDef(id: string, group: string, search: string, attributes: seq<string>, varTypes: seq<VarType>)

  datatype EdgeDef = EdgeDef(caption: string, attributes: seq<string>)

  datatype Relation = Relation(from: NodeDef, to: NodeDef, edge: Option<EdgeDef>)

  // ---------- results ----------

  datatype Vertex =
    Vertex(id: Json, group: string, search: string, caption: Option<string>, attributes: Option<Entry>)

  datatype Edge = Edge(caption: Option<string>, attributes: Option<Entry>)

  datatype Graph = Graph(from: Vertex, to: Vertex, edge: Option<Edge>, source: string)

  /** How values print ("%v"). */
  type Printer = Json -> string

  function FirstMatch(ts: seq<VarType>, id: string): Option<VarType> {
    if ts == [] then None
    else if ts[0].matches(id) then Some(ts[0])
    else FirstMatch(ts[1..], id)
  }

  function MakeVertex(def: NodeDef, entry: Entry, text: Printer): Vertex {
    var id := Get(entry, def.id);
    var attributes := if def.attributes == [] then None else Some(CopiedAll(map[], entry, def.attributes));
    match FirstMatch(def.varTypes, text(id))
    case Some(t) => Vertex(id, t.group, t.search, Some(t.caption), attributes)
    case None => Vertex(id, def.group, def.search, None, attributes)
  }

  /** The type is that of the first expression that matches the printed identifier. */
  lemma {:induction false} FirstMatchExactly(ts: seq<VarType>, id: string)
    ensures match FirstMatch(ts, id)
            case Some(t) => exists i | 0 <= i < |ts| :: ts[i] == t && t.matches(id) && NoneMatches(ts[..i], id)
            case None => NoneMatches(ts, id)
  {
    if ts != [] {
      if ts[0].matches(id) {
        assert ts[..0] == [];
      } else {
        FirstMatchExactly(ts[1..], id);
        if FirstMatch(ts, id).Some? {
          var i :| 0 <= i < |ts[1..]| && ts[1..][i] == FirstMatch(ts, id).value && NoneMatches(ts[1..][..i], id);
          assert ts[..i + 1] == [ts[0]] + ts[1..][..i];
          assert ts[i + 1] == FirstMatch(ts, id).value;
        }
      }
    }
  }

  predicate NoneMatches(ts: seq<VarType>, id: string) {
    forall i | 0 <= i < |ts| :: !ts[i].matches(id)
  }

  function EdgeLabel(def: EdgeDef, from: Vertex, to: Vertex): Option<string> {
    if to.caption.Some? && to.caption.value != "" then to.caption
    else if from.caption.Some? && from.caption.value != "" then from.caption
    else if def.caption != "" then Some(def.caption)
    else None
  }

  function MakeEdge(def: Option<EdgeDef>, from: Vertex, to: Vertex, entry: Entry): Option<Edge> {
    if def.Some? && (def.value.caption != "" || def.value.attributes != []) then
      Some(Edge(EdgeLabel(def.value, from, to),
                if def.value.attributes == [] then None else Some(CopiedAll(map[], entry, def.value.attributes))))
    else None
  }

  function MakeGraph(source: string, rel: Relation, entry: Entry, text: Printer): Graph {
    var from, to := MakeVertex(rel.from, entry, text), MakeVertex(rel.to, entry, text);
    Graph(from, to, MakeEdge(rel.edge, from, to, entry), source)
  }

  // ---------- comparing an entry with the results ----------

  function IdenticalFrom(entry: Entry, target: Entry, keys: seq<string>, text: Printer): bool
    decreases |keys|
  {
    if keys == [] then true
    else
      var t := Get(target, keys[0]);
      if t == Null then false
      else
        var s := Get(entry, keys[0]);
        if s.List? && !t.List? then
          // A list of one value against that value settles the matter at once
          |s.items| == 1 && text(s.items[0]) == text(t)
        else
          && (if s.List? then |s.items| == |t.items| && forall i | 0 <= i < |s.items| :: s.items[i] in t.items
              else s == t)
          && IdenticalFrom(entry, target, keys[1..], text)
  }

  predicate AttributesAreIdentical(entry: Entry, target: Option<Entry>, keys: seq<string>, text: Printer) {
    keys == [] || (target.Some? && IdenticalFrom(entry, target.value, keys, text))
  }

  /** The edge is compared as the map that holds its label and its attributes. */
  function EdgeMap(edge: Option<Edge>): Option<Entry> {
    match edge
    case None => None
    case Some(e) =>
      Some((if e.caption.Some? then map["label" := Str(e.caption.value)] else map[]) +
           (if e.attributes.Some? then map["attributes" := Obj(e.attributes.value)] else map[]))
  }

  predicate SameAs(r: Graph, entry: Entry, rel: Relation, text: Printer) {
    && r.from.id == Get(entry, rel.from.id)
    && r.to.id == Get(entry, rel.to.id)
    && AttributesAreIdentical(entry, r.from.attributes, rel.from.attributes, text)
    && AttributesAreIdentical(entry, r.to.attributes, rel.to.attributes, text)
    && (rel.edge.None? || AttributesAreIdentical(entry, EdgeMap(r.edge), rel.edge.value.attributes, text))
  }

  predicate ResultsContain(results: seq<Graph>, entry: Entry, rel: Relation, text: Printer) {
    exists i | 0 <= i < |results| :: SameAs(results[i], entry, rel, text)
  }

  // ---------- comparisons that panic ----------

  /** Comparing two lists or two maps behind an interface panics; lists and maps differ from all else. */
  predicate Clash(a: Json, b: Json) {
    (a.List? && b.List?) || (a.Obj? && b.Obj?)
  }

  predicate ListsPanic(xs: seq<Json>, ys: seq<Json>) {
    exists i, j | 0 <= i < |xs| && 0 <= j < |ys| :: Clash(ys[j], xs[i]) && forall h | 0 <= h < i :: xs[h] in ys
  }

  predicate IdenticalPanics(entry: Entry, target: Entry, keys: seq<string>)
    decreases |keys|
  {
    keys != [] &&
    var s, t := Get(entry, keys[0]), Get(target, keys[0]);
    if t == Null || (s.List? && !t.List?) then false
    else if s.List? then
      |s.items| == |t.items| &&
      (ListsPanic(s.items, t.items) ||
       ((forall i | 0 <= i < |s.items| :: s.items[i] in t.items) && IdenticalPanics(entry, target, keys[1..])))
    else Clash(s, t) || (s == t && IdenticalPanics(entry, target, keys[1..]))
  }

  predicate AttributesPanic(entry: Entry, target: Option<Entry>, keys: seq<string>) {
    keys != [] && target.Some? && IdenticalPanics(entry, target.value, keys)
  }

  /** The conditions are looked at one after the other, as long as they are met. */
  predicate SamePanics(r: Graph, entry: Entry, rel: Relation, text: Printer) {
    if Clash(r.from.id, Get(entry, rel.from.id)) then true
    else if r.from.id != Get(entry, rel.from.id) then false
    else if Clash(r.to.id, Get(entry, rel.to.id)) then true
    else if r.to.id != Get(entry, rel.to.id) then false
    else if AttributesPanic(entry, r.from.attributes, rel.from.attributes) then true
    else if !AttributesAreIdentical(entry, r.from.attributes, rel.from.attributes, text) then false
    else if AttributesPanic(entry, r.to.attributes, rel.to.attributes) then true
    else if !AttributesAreIdentical(entry, r.to.attributes, rel.to.attributes, text) then false
    else rel.edge.Some? && AttributesPanic(entry, EdgeMap(r.edge), rel.edge.value.attributes)
  }

  predicate ScanPanics(results: seq<Graph>, entry: Entry, rel: Relation, text: Printer) {
    exists i | 0 <= i < |results| ::
      SamePanics(results[i], entry, rel, text) && forall j | 0 <= j < i :: !SameAs(results[j], entry, rel, text)
  }

  predicate HasIds(entry: Entry, rel: Relation) {
    && Get(entry, rel.from.id) != Null && Get(entry, rel.to.id) != Null
    && Get(entry, rel.from.id) != Str("") && Get(entry, rel.to.id) != Str("")
  }

  function Key(entry: Entry, rel: Relation, text: Printer): string {
    rel.from.id + "-" + text(Get(entry, rel.from.id)) + "-" + rel.to.id + "-" + text(Get(entry, rel.to.id))
  }

  // ---------- the collection as a log of what was emitted ----------

  /** Entry `entry` was emitted for the relation with this index. */
  datatype Emission = Emission(rel: nat, entry: Entry)

  datatype Context = Context(source: string, relations: seq<Relation>, text: Printer)

  type Log = seq<Emission>

  predicate LogOf(c: Context, log: Log) {
    forall i | 0 <= i < |log| :: log[i].rel < |c.relations| && HasIds(log[i].entry, c.relations[log[i].rel])
  }

  function ResultOf(c: Context, e: Emission): Graph
    requires e.rel < |c.relations|
  {
    MakeGraph(c.source, c.relations[e.rel], e.entry, c.text)
  }

  function ResultsOf(c: Context, log: Log): seq<Graph>
    requires LogOf(c, log)
  {
    seq(|log|, i requires 0 <= i < |log| => ResultOf(c, log[i]))
  }

  function KeyOf(c: Context, e: Emission): string
    requires e.rel < |c.relations|
  {
    Key(e.entry, c.relations[e.rel], c.text)
  }

  function KeysOf(c: Context, log: Log): set<string>
    requires LogOf(c, log)
  {
    set i | 0 <= i < |log| :: KeyOf(c, log[i])
  }

  /** Whether an entry is emitted for a relation, after what the log holds. */
  predicate Emits(c: Context, log: Log, rel: nat, entry: Entry)
    requires LogOf(c, log) && rel < |c.relations|
  {
    && HasIds(entry, c.relations[rel])
    && !(Key(entry, c.relations[rel], c.text) in KeysOf(c, log)
         && ResultsContain(ResultsOf(c, log), entry, c.relations[rel], c.text))
  }

  function AfterRelation(c: Context, log: Log, rel: nat, entry: Entry): (r: Log)
    requires LogOf(c, log) && rel < |c.relations|
    ensures LogOf(c, r) && log <= r && |r| <= |log| + 1
  {
    if Emits(c, log, rel, entry) then log + [Emission(rel, entry)] else log
  }

  /** The log once the first n relations have seen the entry. */
  function AfterRelations(c: Context, log: Log, n: nat, entry: Entry): (r: Log)
    requires LogOf(c, log) && n <= |c.relations|
    ensures LogOf(c, r) && log <= r && |r| <= |log| + n
  {
    if n == 0 then log else AfterRelation(c, AfterRelations(c, log, n - 1, entry), n - 1, entry)
  }

  function AfterEntry(c: Context, log: Log, entry: Entry): (r: Log)
    requires LogOf(c, log)
    ensures LogOf(c, r) && log <= r && |r| <= |log| + |c.relations|
  {
    AfterRelations(c, log, |c.relations|, entry)
  }

  /** The log of a whole list of entries. */
  function AfterEntries(c: Context, entries: seq<Entry>): (r: Log)
    ensures LogOf(c, r)
  {
    if entries == [] then [] else AfterEntry(c, AfterEntries(c, entries[..|entries| - 1]), entries[|entries| - 1])
  }

  /** Looking an entry up among the results ends in a panic. */
  predicate Panics(c: Context, log: Log, rel: nat, entry: Entry)
    requires LogOf(c, log) && rel < |c.relations|
  {
    && HasIds(entry, c.relations[rel])
    && Key(entry, c.relations[rel], c.text) in KeysOf(c, log)
    && ScanPanics(ResultsOf(c, log), entry, c.relations[rel], c.text)
  }

  predicate Scannable(c: Context, log: Log, entry: Entry)
    requires LogOf(c, log)
  {
    forall i: nat | i < |c.relations| :: !Panics(c, AfterRelations(c, log, i, entry), i, entry)
  }

  /** Values that compare with anything: no list and no map. */
  predicate Scalar(v: Json) {
    !v.List? && !v.Obj?
  }

  /** No identifier is a list or a map, no listed attribute a map, and no list holds lists or maps. */
  predicate Flat(entry: Entry, rel: Relation) {
    && Scalar(Get(entry, rel.from.id)) && Scalar(Get(entry, rel.to.id))
    && FlatKeys(entry, rel.from.attributes) && FlatKeys(entry, rel.to.attributes)
    && (rel.edge.Some? ==> FlatKeys(entry, rel.edge.value.attributes))
  }

  predicate FlatKeys(entry: Entry, keys: seq<string>) {
    forall i | 0 <= i < |keys| ::
      var v := Get(entry, keys[i]);
      !v.Obj? && (v.List? ==> forall j | 0 <= j < |v.items| :: Scalar(v.items[j]))
  }

  lemma {:induction false} FlatNeverPanics(entry: Entry, target: Entry, keys: seq<string>)
    requires FlatKeys(entry, keys)
    ensures !IdenticalPanics(entry, target, keys)
    decreases |keys|
  {
    if keys != [] {
      assert forall i | 0 <= i < |keys[1..]| :: keys[1..][i] == keys[i + 1];
      FlatNeverPanics(entry, target, keys[1..]);
      assert keys[0] in keys;
    }
  }

  /** A flat entry is compared without a panic, whatever was collected before. */
  lemma FlatScannable(c: Context, log: Log, rel: nat, entry: Entry)
    requires LogOf(c, log) && rel < |c.relations| && Flat(entry, c.relations[rel])
    ensures !Panics(c, log, rel, entry)
  {
    var r := c.relations[rel];
    forall i | 0 <= i < |log| ensures !SamePanics(ResultOf(c, log[i]), entry, r, c.text) {
      var g := ResultOf(c, log[i]);
      if g.from.attributes.Some? { FlatNeverPanics(entry, g.from.attributes.value, r.from.attributes); }
      if g.to.attributes.Some? { FlatNeverPanics(entry, g.to.attributes.value, r.to.attributes); }
      if r.edge.Some? && EdgeMap(g.edge).Some? {
        FlatNeverPanics(entry, EdgeMap(g.edge).value, r.edge.value.attributes);
      }
    }
  }

  // ---------- the comparisons as the program runs them ----------

  /** Go's comparison of two values behind an interface. */
  function Equal(a: Json, b: Json): bool
    requires !Clash(a, b)
  {
    a == b
  }

  method SliceContains(slice: seq<Json>, v: Json) returns (found: bool)
    requires forall j | 0 <= j < |slice| :: !Clash(slice[j], v)
    ensures found <==> v in slice
  {
    for i := 0 to |slice|
      invariant v !in slice[..i]
    {
      if Equal(slice[i], v) {
        return true;
      }
    }
    return false;
  }

  /** Every value of a list is in the other list. */
  method AllContained(xs: seq<Json>, ys: seq<Json>) returns (all: bool)
    requires !ListsPanic(xs, ys)
    ensures all <==> forall i | 0 <= i < |xs| :: xs[i] in ys
  {
    for i := 0 to |xs|
      invariant forall h | 0 <= h < i :: xs[h] in ys
    {
      var found := SliceContains(ys, xs[i]);
      if !found {
        return false;
      }
    }
    return true;
  }

  method CompareAttributes(entry: Entry, target: Option<Entry>, keys: seq<string>, text: Printer)
    returns (same: bool)
    requires !AttributesPanic(entry, target, keys)
    ensures same <==> AttributesAreIdentical(entry, target, keys, text)
  {
    if |keys| == 0 {
      return true;
    }
    if target.None? {
      return false;
    }
    var t := target.value;
    for i := 0 to |keys|
      invariant IdenticalFrom(entry, t, keys, text) == IdenticalFrom(entry, t, keys[i..], text)
      invariant !IdenticalPanics(entry, t, keys[i..])
    {
      var key := keys[i];
      assert keys[i..][0] == key && keys[i..][1..] == keys[i + 1..];
      var st, tt := Get(entry, key), Get(t, key);
      if tt == Null {
        return false;
      }
      if st.List? {
        if !tt.List? {
          return |st.items| == 1 && text(st.items[0]) == text(tt);
        }
        if |st.items| != |tt.items| {
          return false;
        }
        var all := AllContained(st.items, tt.items);
        if !all {
          return false;
        }
      } else if !Equal(st, tt) {
        return false;
      }
    }
    return true;
  }

  method CompareResult(r: Graph, entry: Entry, rel: Relation, text: Printer) returns (same: bool)
    requires !SamePanics(r, entry, rel, text)
    ensures same <==> SameAs(r, entry, rel, text)
  {
    hide AttributesAreIdentical, AttributesPanic;
    if !Equal(r.from.id, Get(entry, rel.from.id)) {
      return false;
    }
    if !Equal(r.to.id, Get(entry, rel.to.id)) {
      return false;
    }
    same := CompareAttributes(entry, r.from.attributes, rel.from.attributes, text);
    if !same { return; }
    same := CompareAttributes(entry, r.to.attributes, rel.to.attributes, text);
    if !same { return; }
    if rel.edge.Some? {
      same := CompareAttributes(entry, EdgeMap(r.edge), rel.edge.value.attributes, text);
    }
  }

  /** The linear scan; it needs no more than that the comparisons it makes do not panic. */
  method ScanResults(results: seq<Graph>, entry: Entry, rel: Relation, text: Printer) returns (found: bool)
    requires !ScanPanics(results, entry, rel, text)
    ensures found <==> ResultsContain(results, entry, rel, text)
  {
    hide SameAs, SamePanics;
    for i := 0 to |results|
      invariant forall j | 0 <= j < i :: !SameAs(results[j], entry, rel, text)
    {
      found := CompareResult(results[i], entry, rel, text);
      if found {
        return;
      }
    }
    return false;
  }

  // ---------- CreateRelations ----------

  /** FROM or TO with its type by the first matching expression, and its attributes. */
  method BuildVertex(def: NodeDef, entry: Entry, text: Printer) returns (v: Vertex)
    ensures v == MakeVertex(def, entry, text)
  {
    var id := Get(entry, def.id);
    v := Vertex(id, def.group, def.search, None, None);
    var i := 0;
    while i < |def.varTypes|
      invariant 0 <= i <= |def.varTypes|
      invariant FirstMatch(def.varTypes, text(id)) == FirstMatch(def.varTypes[i..], text(id))
      invariant v == Vertex(id, def.group, def.search, None, None)
    {
      var t := def.varTypes[i];
      if t.matches(text(id)) {
        v := v.(group := t.group, search := t.search, caption := Some(t.caption));
        break;
      }
      i := i + 1;
    }
    if |def.attributes| > 0 {
      var attributes := new Attributes();
      attributes.CopyPresentValues(entry, def.attributes);
      v := v.(attributes := Some(attributes.fields));
    }
  }

  method BuildGraph(source: string, rel: Relation, entry: Entry, text: Printer) returns (g: Graph)
    ensures g == MakeGraph(source, rel, entry, text)
  {
    var from := BuildVertex(rel.from, entry, text);
    var to := BuildVertex(rel.to, entry, text);
    var edge := None;
    if rel.edge.Some? && (rel.edge.value.caption != "" || |rel.edge.value.attributes| > 0) {
      var attributes := None;
      if |rel.edge.value.attributes| > 0 {
        var copied := new Attributes();
        copied.CopyPresentValues(entry, rel.edge.value.attributes);
        attributes := Some(copied.fields);
      }
      edge := Some(Edge(EdgeLabel(rel.edge.value, from, to), attributes));
    }
    g := Graph(from, to, edge, source);
  }

  class Collector {
    const context: Context
    var counter: nat
    var unique: map<string, bool>
    var results: seq<Graph>
    ghost var log: Log

    /** The counter, the index and the results all tell the same story. */
    ghost predicate Valid()
      reads this
    {
      && LogOf(context, log)
      && counter == |log|
      && unique.Keys == KeysOf(context, log)
      && results == ResultsOf(context, log)
    }

    constructor (context: Context)
      ensures Valid() && this.context == context && log == []
    {
      this.context := context;
      counter, unique, results, log := 0, map[], [], [];
    }

    method CreateRelation(rel: nat, entry: Entry)
      requires Valid() && rel < |context.relations| && !Panics(context, log, rel, entry)
      modifies this
      ensures Valid() && log == AfterRelation(context, old(log), rel, entry)
    {
      hide Key, MakeGraph, HasIds, ResultsContain, ScanPanics;
      var relation := context.relations[rel];
      if HasIds(entry, relation) {
        var key := Key(entry, relation, context.text);
        if key in unique {
          var found := ScanResults(results, entry, relation, context.text);
          if found {
            return;
          }
        }
        counter := counter + 1;
        unique := unique[key := true];
        var result := BuildGraph(context.source, relation, entry, context.text);
        results := results + [result];
        log := log + [Emission(rel, entry)];
        LogGrows(context, old(log), Emission(rel, entry));
      }
    }

    method CreateRelations(entry: Entry)
      requires Valid() && Scannable(context, log, entry)
      modifies this
      ensures Valid() && log == AfterEntry(context, old(log), entry)
    {
      hide Panics, AfterRelation;
      for i := 0 to |context.relations|
        invariant Valid() && log == AfterRelations(context, old(log), i, entry)
      {
        CreateRelation(i, entry);
      }
    }
  }

  lemma LogGrows(c: Context, log: Log, e: Emission)
    requires LogOf(c, log) && e.rel < |c.relations| && HasIds(e.entry, c.relations[e.rel])
    ensures LogOf(c, log + [e])
    ensures KeysOf(c, log + [e]) == KeysOf(c, log) + {KeyOf(c, e)}
    ensures ResultsOf(c, log + [e]) == ResultsOf(c, log) + [ResultOf(c, e)]
  {
    var all := log + [e];
    assert all[|log|] == e;
    assert forall i | 0 <= i < |log| :: all[i] == log[i];
  }

  // ---------- what a result shows ----------

  /**
   * A node shows the entry's identifier, the type of the first expression that
   * matches it or else its own, and what the listed attributes stand for.
   */
  lemma VertexExactly(def: NodeDef, entry: Entry, text: Printer)
    ensures var v, ts := MakeVertex(def, entry, text), def.varTypes;
            && v.id == (if def.id in entry then entry[def.id] else Null)
            && (forall i | 0 <= i < |ts| && ts[i].matches(text(v.id)) && NoneMatches(ts[..i], text(v.id)) ::
                  v.group == ts[i].group && v.search == ts[i].search && v.caption == Some(ts[i].caption))
            && (NoneMatches(ts, text(v.id)) ==> v.group == def.group && v.search == def.search && v.caption == None)
            && (v.attributes.None? <==> def.attributes == [])
            && (v.attributes.Some? ==> forall k ::
                  Get(v.attributes.value, k) == if k in def.attributes then Resolve(entry, k) else Null)
  {
    var v, ts := MakeVertex(def, entry, text), def.varTypes;
    forall i | 0 <= i < |ts| && ts[i].matches(text(v.id)) && NoneMatches(ts[..i], text(v.id))
      ensures FirstMatch(ts, text(v.id)) == Some(ts[i])
    {
      FirstMatchAt(ts, text(v.id), i);
    }
    FirstMatchExactly(ts, text(v.id));
    if def.attributes != [] {
      forall k ensures Get(v.attributes.value, k) == if k in def.attributes then Resolve(entry, k) else Null {
        CopiedExactly(map[], entry, def.attributes, k);
      }
    }
  }

  lemma TailMatchesNone(ts: seq<VarType>, id: string)
    requires ts != [] && NoneMatches(ts, id)
    ensures NoneMatches(ts[1..], id)
  {
    assert forall j | 0 <= j < |ts[1..]| :: ts[1..][j] == ts[j + 1];
  }

  lemma {:induction false} FirstMatchAt(ts: seq<VarType>, id: string, i: nat)
    requires i < |ts| && ts[i].matches(id) && NoneMatches(ts[..i], id)
    ensures FirstMatch(ts, id) == Some(ts[i])
  {
    if i > 0 {
      assert ts[..i][0] == ts[0];
      assert ts[1..][..i - 1] == ts[1..i];
      TailMatchesNone(ts[..i], id);
      assert ts[..i][1..] == ts[1..i];
      FirstMatchAt(ts[1..], id, i - 1);
    }
  }

  function OrBlank(caption: Option<string>): string {
    if caption.Some? then caption.value else ""
  }

  /** The label is the first caption that is not blank: that of TO, that of FROM, that of the edge. */
  lemma LabelExactly(def: EdgeDef, from: Vertex, to: Vertex)
    ensures var captions := [OrBlank(to.caption), OrBlank(from.caption), def.caption];
            match EdgeLabel(def, from, to)
            case None => forall i | 0 <= i < 3 :: captions[i] == ""
            case Some(l) =>
              l != "" && exists i | 0 <= i < 3 :: captions[i] == l && forall j | 0 <= j < i :: captions[j] == ""
  {
    var captions := [OrBlank(to.caption), OrBlank(from.caption), def.caption];
    assert captions[0] == OrBlank(to.caption) && captions[1] == OrBlank(from.caption) && captions[2] == def.caption;
  }

  /** A result shows both nodes and its source, and an edge iff one with a caption or attributes is defined. */
  lemma GraphExactly(source: string, rel: Relation, entry: Entry, text: Printer)
    ensures var g := MakeGraph(source, rel, entry, text);
            && g.source == source
            && g.from == MakeVertex(rel.from, entry, text) && g.to == MakeVertex(rel.to, entry, text)
            && (g.edge.Some? <==> rel.edge.Some? && !(rel.edge.value.caption == "" && rel.edge.value.attributes == []))
            && (g.edge.Some? ==>
                  && g.edge.value.caption == EdgeLabel(rel.edge.value, g.from, g.to)
                  && (g.edge.value.attributes.Some? <==> rel.edge.value.attributes != [])
                  && (g.edge.value.attributes.Some? ==> forall k ::
                        Get(g.edge.value.attributes.value, k)
                        == if k in rel.edge.value.attributes then Resolve(entry, k) else Null))
  {
    if rel.edge.Some? && rel.edge.value.attributes != [] {
      forall k ensures Get(CopiedAll(map[], entry, rel.edge.value.attributes), k)
                    == if k in rel.edge.value.attributes then Resolve(entry, k) else Null
      {
        CopiedExactly(map[], entry, rel.edge.value.attributes, k);
      }
    }
  }

  // ---------- what is emitted ----------

  /** An entry is emitted at first iff it has both identifiers, neither null nor the empty string. */
  lemma EmittedFirstExactly(c: Context, rel: nat, entry: Entry)
    requires rel < |c.relations|
    ensures var r := c.relations[rel];
            AfterRelation(c, [], rel, entry) == [Emission(rel, entry)] <==>
              && r.from.id in entry && entry[r.from.id] != Null && entry[r.from.id] != Str("")
              && r.to.id in entry && entry[r.to.id] != Null && entry[r.to.id] != Str("")
    ensures AfterRelation(c, [], rel, entry) == [Emission(rel, entry)] || AfterRelation(c, [], rel, entry) == []
  {
    assert KeysOf(c, []) == {};
  }

  /** The names of both identifiers and the values as they print. */
  function Written(rel: Relation, entry: Entry, text: Printer): string {
    var a := if rel.from.id in entry then entry[rel.from.id] else Null;
    var b := if rel.to.id in entry then entry[rel.to.id] else Null;
    rel.from.id + "-" + text(a) + "-" + rel.to.id + "-" + text(b)
  }

  /** An entry is emitted whenever nothing was written like it before, whatever else the results hold. */
  lemma NewlyWrittenEmitted(c: Context, log: Log, rel: nat, entry: Entry)
    requires LogOf(c, log) && rel < |c.relations|
    requires AfterRelation(c, [], rel, entry) != []
    requires forall i | 0 <= i < |log| ::
               Written(c.relations[log[i].rel], log[i].entry, c.text) != Written(c.relations[rel], entry, c.text)
    ensures AfterRelation(c, log, rel, entry) == log + [Emission(rel, entry)]
  {
    assert Key(entry, c.relations[rel], c.text) == Written(c.relations[rel], entry, c.text);
    forall i | 0 <= i < |log| ensures KeyOf(c, log[i]) != Key(entry, c.relations[rel], c.text) {
      assert KeyOf(c, log[i]) == Written(c.relations[log[i].rel], log[i].entry, c.text);
    }
  }
}
