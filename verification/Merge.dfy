/**
 * Merging the attributes of a repeated graph element into the ones already
 * shown; values that differ in case only are the same value.
 */
module Merge {
  import opened Wrappers

  /** A list of values by their text; None is null, which has none. */
  type Values = seq<Option<string>>

  /**
   * A property of the source: null, one value with its text, or an array. The
   * empty string, 0 and false are values that are not truthy.
   */
  datatype Property = Nothing | One(value: string, truthy: bool) | Many(values: Values)

  /** The case-folded form of a text. */
  type Lower = string -> string

  type Attributes = map<string, Values>

  type Incoming = map<string, Property>

  /** What JavaScript takes for true: arrays, even empty ones, and truthy values. */
  predicate Truthy(p: Property) {
    p.Many? || (p.One? && p.truthy)
  }

  function Elements(p: Property): Values {
    match p
    case Nothing => [None]
    case One(v, _) => [Some(v)]
    case Many(vs) => vs
  }

  predicate Same(x: Option<string>, v: string, lower: Lower) {
    x.Some? && lower(x.value) == lower(v)
  }

  predicate Has(elt: Values, v: string, lower: Lower) {
    exists i | 0 <= i < |elt| :: Same(elt[i], v, lower)
  }

  /** Looking for the value meets a null before it meets the value. */
  predicate NullFirst(elt: Values, v: string, lower: Lower) {
    exists i | 0 <= i < |elt| :: elt[i].None? && forall j | 0 <= j < i :: !Same(elt[j], v, lower)
  }

  /** A null has no text, neither as a value to add nor on the way to one. */
  predicate AddThrows(elt: Values, x: Option<string>, lower: Lower) {
    x.None? || NullFirst(elt, x.value, lower)
  }

  /** The values that are not there in any case are added, one after the other. */
  function Added(elt: Values, xs: Values, lower: Lower): Values {
    if xs == [] then elt
    else
      var front, x := Added(elt, xs[..|xs| - 1], lower), xs[|xs| - 1];
      if x.None? || Has(front, x.value, lower) then front else front + [x]
  }

  function Merged(target: Attributes, source: Incoming, lower: Lower): Attributes {
    map k | k in target.Keys + source.Keys && (k in target || Truthy(source[k])) ::
      if k !in target then Elements(source[k])
      else if k in source then Added(target[k], Elements(source[k]), lower)
      else target[k]
  }

  /** Some value of an existing key cannot be added. */
  predicate Throws(target: Attributes, source: Incoming, lower: Lower) {
    exists k | k in source :: k in target && KeyThrows(target[k], Elements(source[k]), lower)
  }

  predicate KeyThrows(elt: Values, xs: Values, lower: Lower) {
    exists i | 0 <= i < |xs| :: AddThrows(elt, xs[i], lower)
  }

  /** Adding only appends texts. */
  lemma {:induction false} AddedAppends(elt: Values, xs: Values, lower: Lower)
    ensures elt <= Added(elt, xs, lower)
    ensures forall i | |elt| <= i < |Added(elt, xs, lower)| :: Added(elt, xs, lower)[i].Some?
  {
    if xs != [] {
      AddedAppends(elt, xs[..|xs| - 1], lower);
    }
  }

  /** Appended texts change nothing about what can be added. */
  lemma AppendedThrows(elt: Values, more: Values, x: Option<string>, lower: Lower)
    requires elt <= more && forall i | |elt| <= i < |more| :: more[i].Some?
    ensures AddThrows(more, x, lower) == AddThrows(elt, x, lower)
  {
    if x.Some? && NullFirst(elt, x.value, lower) {
      var i :| 0 <= i < |elt| && elt[i].None? && forall j | 0 <= j < i :: !Same(elt[j], x.value, lower);
      assert more[i].None? && forall j | 0 <= j < i :: more[j] == elt[j];
    }
    if x.Some? && NullFirst(more, x.value, lower) {
      var i :| 0 <= i < |more| && more[i].None? && forall j | 0 <= j < i :: !Same(more[j], x.value, lower);
      assert elt[i].None? && forall j | 0 <= j < i :: more[j] == elt[j];
    }
  }

  /** The search through a list, as far as it gets. */
  method Find(elt: Values, v: string, lower: Lower) returns (ok: bool, found: bool)
    ensures ok <==> !NullFirst(elt, v, lower)
    ensures ok ==> (found <==> Has(elt, v, lower))
  {
    for i := 0 to |elt|
      invariant forall j | 0 <= j < i :: elt[j].Some? && !Same(elt[j], v, lower)
    {
      if elt[i].None? {
        return false, false;
      }
      if lower(elt[i].value) == lower(v) {
        return true, true;
      }
    }
    return true, false;
  }

  class Target {
    var fields: Attributes

    constructor (fields: Attributes)
      ensures this.fields == fields
    {
      this.fields := fields;
    }

    /** Pushes onto an existing array the values it does not have in any case, up to the n-th, which throws. */
    method Push(key: string, xs: Values, lower: Lower) returns (ok: bool, ghost n: nat)
      requires key in fields
      modifies this
      ensures ok <==> !KeyThrows(old(fields)[key], xs, lower)
      ensures n <= |xs| && (ok ==> n == |xs|)
      ensures fields == old(fields)[key := Added(old(fields)[key], xs[..n], lower)]
    {
      n := 0;
      for i := 0 to |xs|
        invariant n == i && key in fields
        invariant fields == old(fields)[key := Added(old(fields)[key], xs[..i], lower)]
        invariant forall j | 0 <= j < i :: !AddThrows(old(fields)[key], xs[j], lower)
      {
        var elt := fields[key];
        AddedAppends(old(fields)[key], xs[..i], lower);
        AppendedThrows(old(fields)[key], elt, xs[i], lower);
        assert xs[..i + 1][..i] == xs[..i];
        hide Added;
        if xs[i].None? {
          return false, n;
        }
        var valid, found := Find(elt, xs[i].value, lower);
        if !valid {
          return false, n;
        }
        AddedOneMore(old(fields)[key], xs, i, lower);
        if !found {
          fields := fields[key := elt + [xs[i]]];
        }
        n := n + 1;
      }
      assert xs[..|xs|] == xs;
      return true, n;
    }

    /**
     * The properties come in no particular order. Where a value cannot be added
     * the merge throws, and leaves behind what was merged by then: of the
     * property it was at, the values before.
     */
    method Merge(source: Incoming, lower: Lower) returns (ok: bool, ghost done: Incoming)
      modifies this
      ensures ok <==> !Throws(old(fields), source, lower)
      ensures PartOf(done, source)
      ensures fields == Merged(old(fields), done, lower)
      ensures ok ==> done == source
    {
      hide Merged, KeyThrows;
      ok := true;
      var left := source.Keys;
      done := map[];
      MergedNothing(fields, lower);
      while left != {}
        invariant left <= source.Keys
        invariant done.Keys == source.Keys - left && forall k | k in done :: done[k] == source[k]
        invariant fields == Merged(old(fields), done, lower)
        invariant forall k | k in done && k in old(fields) :: !KeyThrows(old(fields)[k], Elements(done[k]), lower)
        decreases left
      {
        var key :| key in left;
        left := left - {key};
        var els := source[key];
        MergedOneMore(old(fields), done, key, els, lower);
        if key in fields {
          StartedByOther(old(fields), done, key, lower);
          ghost var n;
          ok, n := Push(key, Elements(els), lower);
          if !ok {
            MergedOneMore(old(fields), done, key, Many(Elements(els)[..n]), lower);
            done := done[key := Many(Elements(els)[..n])];
            return;
          }
          assert Elements(els)[..n] == Elements(els);
        } else if Truthy(els) {
          fields := fields[key := Elements(els)];
        }
        done := done[key := els];
      }
      assert done == source;
    }
  }

  /** Properties of the source, or the first values of one. */
  predicate PartOf(done: Incoming, source: Incoming) {
    forall k | k in done ::
      k in source && (done[k] == source[k] || (done[k].Many? && done[k].values <= Elements(source[k])))
  }

  lemma AddedOneMore(elt: Values, xs: Values, i: nat, lower: Lower)
    requires i < |xs|
    ensures Added(elt, xs[..i + 1], lower) ==
            var front := Added(elt, xs[..i], lower);
            if xs[i].None? || Has(front, xs[i].value, lower) then front else front + [xs[i]]
  {
    assert xs[..i + 1][..i] == xs[..i];
  }

  /** A key that was not merged yet has what the target had. */
  lemma StartedByOther(target: Attributes, done: Incoming, key: string, lower: Lower)
    requires key !in done && key in Merged(target, done, lower)
    ensures key in target && Merged(target, done, lower)[key] == target[key]
  {
  }

  lemma MergedNothing(target: Attributes, lower: Lower)
    ensures Merged(target, map[], lower) == target
  {
  }

  /** One property more: it touches its own key only. */
  lemma MergedOneMore(target: Attributes, done: Incoming, key: string, p: Property, lower: Lower)
    requires key !in done
    ensures var m := Merged(target, done, lower);
            && (key in m <==> key in target)
            && Merged(target, done[key := p], lower) ==
               if key in m then m[key := Added(m[key], Elements(p), lower)]
               else if Truthy(p) then m[key := Elements(p)]
               else m
  {
  }

  // ---------- what merging keeps and adds ----------

  /** From index n on there are texts only, none the same up to case as an earlier one. */
  predicate NewFrom(elt: Values, n: nat, lower: Lower) {
    forall j | n <= j < |elt| :: elt[j].Some? && forall i | 0 <= i < j :: !Same(elt[i], elt[j].value, lower)
  }

  lemma {:induction false} AddedProperties(elt: Values, xs: Values, lower: Lower)
    ensures elt <= Added(elt, xs, lower)
    ensures forall v | Some(v) in xs :: Has(Added(elt, xs, lower), v, lower)
    ensures NewFrom(Added(elt, xs, lower), |elt|, lower)
  {
    if xs != [] {
      var rest, x := xs[..|xs| - 1], xs[|xs| - 1];
      AddedProperties(elt, rest, lower);
      var front := Added(elt, rest, lower);
      var all := Added(elt, xs, lower);
      assert forall i | 0 <= i < |front| :: all[i] == front[i];
      forall v | Some(v) in xs ensures Has(all, v, lower) {
        if Has(front, v, lower) {
          var i :| 0 <= i < |front| && Same(front[i], v, lower);
          assert Same(all[i], v, lower);
        } else {
          assert Some(v) !in rest && x == Some(v);
          assert Same(all[|front|], v, lower);
        }
      }
    }
  }

  lemma {:induction false} AddedNothing(elt: Values, xs: Values, lower: Lower)
    requires forall v | Some(v) in xs :: Has(elt, v, lower)
    ensures Added(elt, xs, lower) == elt
  {
    if xs != [] {
      AddedNothing(elt, xs[..|xs| - 1], lower);
      assert xs[|xs| - 1] in xs;
    }
  }

  /** Old values stay in front, every source value is there up to case, nothing comes twice. */
  lemma MergeProperties(target: Attributes, source: Incoming, lower: Lower, k: string)
    requires !Throws(target, source, lower)
    ensures k in Merged(target, source, lower) <==> k in target || (k in source && Truthy(source[k]))
    ensures k in target ==> target[k] <= Merged(target, source, lower)[k]
                            && NewFrom(Merged(target, source, lower)[k], |target[k]|, lower)
    ensures k in source && k in Merged(target, source, lower) ==>
              forall v | Some(v) in Elements(source[k]) :: Has(Merged(target, source, lower)[k], v, lower)
  {
    if k in target && k in source {
      AddedProperties(target[k], Elements(source[k]), lower);
    } else if k in source && Truthy(source[k]) {
      OwnValues(Elements(source[k]), lower);
    }
  }

  lemma OwnValues(xs: Values, lower: Lower)
    ensures forall v | Some(v) in xs :: Has(xs, v, lower)
  {
    forall v | Some(v) in xs ensures Has(xs, v, lower) {
      var i :| 0 <= i < |xs| && xs[i] == Some(v);
      assert Same(xs[i], v, lower);
    }
  }

  /** Some key starts its list with an array that holds a null. */
  predicate StoresNull(target: Attributes, source: Incoming) {
    exists k | k in source :: k !in target && Truthy(source[k]) && None in Elements(source[k])
  }

  /** Merging the same source again changes nothing; it throws iff the first merge has stored a null. */
  lemma MergeTwice(target: Attributes, source: Incoming, lower: Lower)
    requires !Throws(target, source, lower)
    ensures Throws(Merged(target, source, lower), source, lower) <==> StoresNull(target, source)
    ensures Merged(Merged(target, source, lower), source, lower) == Merged(target, source, lower)
  {
    var once := Merged(target, source, lower);
    var twice := Merged(once, source, lower);
    forall k | k in once ensures k in twice && twice[k] == once[k] {
      MergeProperties(target, source, lower, k);
      if k in source {
        AddedNothing(once[k], Elements(source[k]), lower);
      }
    }
    assert twice.Keys == once.Keys;
    forall k | k in source && k in once
      ensures KeyThrows(once[k], Elements(source[k]), lower) <==> k !in target && None in Elements(source[k])
    {
      if k in target {
        AddedAppends(target[k], Elements(source[k]), lower);
        forall i | 0 <= i < |Elements(source[k])| ensures !AddThrows(once[k], Elements(source[k])[i], lower) {
          AppendedThrows(target[k], once[k], Elements(source[k])[i], lower);
        }
      } else {
        OwnThrows(Elements(source[k]), lower);
      }
    }
    MergedKeys(target, source, lower);
    hide Merged, KeyThrows;
  }

  lemma MergedKeys(target: Attributes, source: Incoming, lower: Lower)
    ensures forall k :: k in Merged(target, source, lower) <==> k in target || (k in source && Truthy(source[k]))
  {
  }

  /** A list can be added to itself iff it holds no null. */
  lemma OwnThrows(xs: Values, lower: Lower)
    ensures KeyThrows(xs, xs, lower) <==> None in xs
  {
    if None in xs {
      var i :| 0 <= i < |xs| && xs[i] == None;
      assert AddThrows(xs, xs[i], lower);
    }
  }

  // ---------- any number of sources ----------

  /** What the sources amount to, one after the other. */
  function MergedAll(target: Attributes, sources: seq<Incoming>, lower: Lower): Attributes {
    if sources == [] then target
    else Merged(MergedAll(target, sources[..|sources| - 1], lower), sources[|sources| - 1], lower)
  }

  function Folded(xs: Values, lower: Lower): set<string> {
    set i | 0 <= i < |xs| && xs[i].Some? :: lower(xs[i].value)
  }

  function FoldedAt(m: Attributes, k: string, lower: Lower): set<string> {
    if k in m then Folded(m[k], lower) else {}
  }

  lemma {:induction false} AddedFolded(elt: Values, xs: Values, lower: Lower)
    ensures Folded(Added(elt, xs, lower), lower) == Folded(elt, lower) + Folded(xs, lower)
  {
    if xs != [] {
      var rest, x := xs[..|xs| - 1], xs[|xs| - 1];
      AddedFolded(elt, rest, lower);
      var front := Added(elt, rest, lower);
      FoldedAppend(rest, x, lower);
      FoldedAppend(front, x, lower);
      assert xs == rest + [x];
    }
  }

  lemma FoldedAppend(xs: Values, x: Option<string>, lower: Lower)
    ensures Folded(xs + [x], lower) == Folded(xs, lower) + if x.Some? then {lower(x.value)} else {}
    ensures x.Some? ==> (Has(xs, x.value, lower) <==> lower(x.value) in Folded(xs, lower))
  {
    var all := xs + [x];
    assert all[|xs|] == x;
    assert forall i | 0 <= i < |xs| :: all[i] == xs[i];
  }

  /** The source has a value for the key that starts the key's list. */
  predicate TruthyAt(source: Incoming, k: string) {
    k in source && Truthy(source[k])
  }

  predicate Contributes(source: Incoming, k: string, w: string, lower: Lower) {
    k in source && w in Folded(Elements(source[k]), lower)
  }

  /** The key has a list when source i is merged, or gets one by it. */
  predicate Active(target: Attributes, sources: seq<Incoming>, i: nat, k: string)
    requires i < |sources|
  {
    k in target || exists j | 0 <= j <= i :: TruthyAt(sources[j], k)
  }

  /** The folded value w of key k comes from the target, or from a source that finds or starts the key's list. */
  predicate Contributed(target: Attributes, sources: seq<Incoming>, k: string, w: string, lower: Lower) {
    || w in FoldedAt(target, k, lower)
    || exists i | 0 <= i < |sources| :: Contributes(sources[i], k, w, lower) && Active(target, sources, i, k)
  }

  lemma MergedFolded(target: Attributes, source: Incoming, k: string, lower: Lower)
    ensures k in Merged(target, source, lower) <==> k in target || TruthyAt(source, k)
    ensures FoldedAt(Merged(target, source, lower), k, lower) ==
            FoldedAt(target, k, lower) +
            if k in source && (k in target || TruthyAt(source, k)) then Folded(Elements(source[k]), lower) else {}
  {
    if k in target && k in source {
      AddedFolded(target[k], Elements(source[k]), lower);
    }
  }

  /** After any merges the values of a key, up to case, are exactly those contributed. */
  lemma {:induction false} MergedAllFolded(target: Attributes, sources: seq<Incoming>, k: string, w: string,
                                           lower: Lower)
    ensures w in FoldedAt(MergedAll(target, sources, lower), k, lower) <==> Contributed(target, sources, k, w, lower)
    ensures k in MergedAll(target, sources, lower) <==>
              k in target || exists i | 0 <= i < |sources| :: TruthyAt(sources[i], k)
    decreases |sources|
  {
    if sources != [] {
      var front, last := sources[..|sources| - 1], sources[|sources| - 1];
      MergedAllFolded(target, front, k, w, lower);
      MergedFolded(MergedAll(target, front, lower), last, k, lower);
      OneMoreContributed(target, sources, k, w, lower);
      hide Merged, FoldedAt, Folded, Elements, TruthyAt, Contributed;
      assert forall i | 0 <= i < |front| :: front[i] == sources[i];
    }
  }

  lemma OneMoreContributed(target: Attributes, sources: seq<Incoming>, k: string, w: string, lower: Lower)
    requires sources != []
    ensures var front, last := sources[..|sources| - 1], sources[|sources| - 1];
            Contributed(target, sources, k, w, lower) <==>
              || Contributed(target, front, k, w, lower)
              || (Contributes(last, k, w, lower)
                  && (k in target || TruthyAt(last, k) || exists i | 0 <= i < |front| :: TruthyAt(front[i], k)))
  {
    hide FoldedAt, Contributes, TruthyAt;
    var front := sources[..|sources| - 1];
    assert forall i | 0 <= i < |front| :: front[i] == sources[i];
    forall i: nat | i < |front| ensures Active(target, front, i, k) == Active(target, sources, i, k) {
    }
    assert Active(target, sources, |front|, k) <==>
        k in target || TruthyAt(sources[|front|], k) || exists i | 0 <= i < |front| :: TruthyAt(front[i], k);
  }

  // ---------- what a property brings, by its kind ----------

  /** The i-th value of the array is a text that neither the list nor the array before it has in any case. */
  predicate FirstHere(elt: Values, xs: Values, i: nat, lower: Lower)
    requires i < |xs|
  {
    xs[i].Some? && !Has(elt, xs[i].value, lower) && !Has(xs[..i], xs[i].value, lower)
  }

  /** These values, in order. */
  function Firsts(elt: Values, xs: Values, lower: Lower): Values {
    if xs == [] then []
    else Firsts(elt, xs[..|xs| - 1], lower) + if FirstHere(elt, xs, |xs| - 1, lower) then [xs[|xs| - 1]] else []
  }

  lemma AddedHas(elt: Values, xs: Values, v: string, lower: Lower)
    ensures Has(Added(elt, xs, lower), v, lower) <==> Has(elt, v, lower) || Has(xs, v, lower)
  {
    AddedFolded(elt, xs, lower);
    FoldedAppend(elt, Some(v), lower);
    FoldedAppend(xs, Some(v), lower);
    FoldedAppend(Added(elt, xs, lower), Some(v), lower);
  }

  lemma {:induction false} AddedIsFirsts(elt: Values, xs: Values, lower: Lower)
    ensures Added(elt, xs, lower) == elt + Firsts(elt, xs, lower)
  {
    if xs != [] {
      var rest, x := xs[..|xs| - 1], xs[|xs| - 1];
      AddedIsFirsts(elt, rest, lower);
      if x.Some? { AddedHas(elt, rest, x.value, lower); }
    }
  }

  /** An array starts a new key's list as it is; to an existing list its new texts are added, in order. */
  lemma ArrayMerged(target: Attributes, source: Incoming, k: string, vs: Values, lower: Lower)
    requires k in source && source[k] == Many(vs)
    ensures var m := Merged(target, source, lower);
            && k in m
            && (k !in target ==> m[k] == vs)
            && (k in target ==> m[k] == target[k] + Firsts(target[k], vs, lower)
                                && forall v | Some(v) in vs :: Has(m[k], v, lower))
  {
    if k in target {
      AddedIsFirsts(target[k], vs, lower);
      AddedProperties(target[k], vs, lower);
    }
  }

  /** A single value starts a new key's list if it is truthy, and is added to an existing list that lacks it. */
  lemma ValueMerged(target: Attributes, source: Incoming, k: string, v: string, truthy: bool, lower: Lower)
    requires k in source && source[k] == One(v, truthy)
    ensures var m := Merged(target, source, lower);
            && (k !in target && truthy ==> k in m && m[k] == [Some(v)])
            && (k !in target && !truthy ==> k !in m)
            && (k in target ==> k in m && m[k] == if Has(target[k], v, lower) then target[k] else target[k] + [Some(v)])
  {
    assert [Some(v)][..0] == [];
    if k in target {
      assert Added(target[k], [], lower) == target[k];
      assert Added(target[k], [Some(v)], lower) ==
             if Has(target[k], v, lower) then target[k] else target[k] + [Some(v)];
    }
  }

  /** A null starts no list, and what the source does not have stays as it is. */
  lemma NothingMerged(target: Attributes, source: Incoming, k: string, lower: Lower)
    requires k in source ==> source[k] == Nothing
    ensures var m := Merged(target, source, lower);
            && (k in m <==> k in target)
            && (k in target && k !in source ==> m[k] == target[k])
            && (k in target && k in source ==> Throws(target, source, lower))
  {
    if k in target && k in source {
      assert AddThrows(target[k], Elements(source[k])[0], lower);
    }
  }

  /** A null is met: as the value, in the array, or in the list before the value. */
  predicate NullMet(elt: Values, p: Property, lower: Lower) {
    match p
    case Nothing => true
    case One(v, _) => NullFirst(elt, v, lower)
    case Many(vs) => exists i | 0 <= i < |vs| :: vs[i] == None || NullFirst(elt, vs[i].value, lower)
  }

  /** A merge throws iff it meets a null for an existing key. */
  lemma ThrowsExactly(target: Attributes, source: Incoming, lower: Lower)
    ensures Throws(target, source, lower) <==>
              exists k | k in source :: k in target && NullMet(target[k], source[k], lower)
  {
    forall k | k in source && k in target
      ensures KeyThrows(target[k], Elements(source[k]), lower) <==> NullMet(target[k], source[k], lower)
    {
      match source[k]
      case Nothing => assert AddThrows(target[k], Elements(source[k])[0], lower);
      case One(v, _) => assert Elements(source[k])[0] == Some(v);
      case Many(vs) =>
    }
  }

  /** The folded texts of a value or of an array. */
  predicate Brings(p: Property, w: string, lower: Lower) {
    match p
    case Nothing => false
    case One(v, _) => lower(v) == w
    case Many(vs) => exists i | 0 <= i < |vs| :: vs[i].Some? && lower(vs[i].value) == w
  }

  /** What a source contributes to a key is what its property brings. */
  lemma ContributesExactly(source: Incoming, k: string, w: string, lower: Lower)
    ensures Contributes(source, k, w, lower) <==> k in source && Brings(source[k], w, lower)
  {
    if k in source && source[k].One? {
      assert Elements(source[k])[0] == Some(source[k].value);
    }
  }

  // ---------- sequences that throw ----------

  /** The sources could be merged one after the other. */
  predicate NeverThrows(target: Attributes, sources: seq<Incoming>, lower: Lower) {
    forall i: nat | i < |sources| :: !Throws(MergedAll(target, sources[..i], lower), sources[i], lower)
  }

  /** The list a key started with: the target's, or that of the first source to have a value that starts one. */
  function Base(target: Attributes, sources: seq<Incoming>, k: string): Option<Values> {
    if k in target then Some(target[k])
    else if sources == [] then None
    else
      var front, last := Base(target, sources[..|sources| - 1], k), sources[|sources| - 1];
      if front.Some? then front else if TruthyAt(last, k) then Some(Elements(last[k])) else None
  }

  /** Whatever is merged, a list is the one it started with and texts appended to it. */
  lemma {:induction false} BaseKept(target: Attributes, sources: seq<Incoming>, k: string, lower: Lower)
    ensures k in MergedAll(target, sources, lower) <==> Base(target, sources, k).Some?
    ensures k in MergedAll(target, sources, lower) ==>
              var base, all := Base(target, sources, k).value, MergedAll(target, sources, lower)[k];
              base <= all && forall i | |base| <= i < |all| :: all[i].Some?
  {
    if sources != [] {
      var before, last := MergedAll(target, sources[..|sources| - 1], lower), sources[|sources| - 1];
      BaseKept(target, sources[..|sources| - 1], k, lower);
      if k in before && k in last {
        AddedAppends(before[k], Elements(last[k]), lower);
      }
    }
  }

  /** A value that cannot be added to the list its key has started with. */
  predicate Blocked(target: Attributes, sources: seq<Incoming>, i: nat, k: string, x: Option<string>, lower: Lower)
    requires i < |sources|
  {
    && k in sources[i] && x in Elements(sources[i][k])
    && var base := Base(target, sources[..i], k);
       base.Some? && AddThrows(base.value, x, lower)
  }

  lemma ThrowsBlocked(target: Attributes, sources: seq<Incoming>, i: nat, lower: Lower)
    requires i < |sources|
    ensures Throws(MergedAll(target, sources[..i], lower), sources[i], lower) <==>
              exists k, x :: Blocked(target, sources, i, k, x, lower)
  {
    var before := MergedAll(target, sources[..i], lower);
    forall k | k in sources[i]
      ensures k in before && KeyThrows(before[k], Elements(sources[i][k]), lower) <==>
                exists x :: Blocked(target, sources, i, k, x, lower)
    {
      BlockedKey(target, sources, i, k, lower);
    }
    hide MergedAll, KeyThrows;
    if Throws(before, sources[i], lower) {
      var k :| k in sources[i] && k in before && KeyThrows(before[k], Elements(sources[i][k]), lower);
      var x :| Blocked(target, sources, i, k, x, lower);
    }
    if k, x :| Blocked(target, sources, i, k, x, lower) {
      assert k in before && KeyThrows(before[k], Elements(sources[i][k]), lower);
    }
  }

  lemma BlockedKey(target: Attributes, sources: seq<Incoming>, i: nat, k: string, lower: Lower)
    requires i < |sources| && k in sources[i]
    ensures var before := MergedAll(target, sources[..i], lower);
            k in before && KeyThrows(before[k], Elements(sources[i][k]), lower) <==>
              exists x :: Blocked(target, sources, i, k, x, lower)
  {
    var before, xs := MergedAll(target, sources[..i], lower), Elements(sources[i][k]);
    BaseKept(target, sources[..i], k, lower);
    hide MergedAll, Base, Elements;
    if k in before {
      var base := Base(target, sources[..i], k).value;
      forall x ensures AddThrows(before[k], x, lower) == AddThrows(base, x, lower) {
        AppendedThrows(base, before[k], x, lower);
      }
      if KeyThrows(before[k], xs, lower) {
        var j :| 0 <= j < |xs| && AddThrows(before[k], xs[j], lower);
        assert Blocked(target, sources, i, k, xs[j], lower);
      }
      if x :| Blocked(target, sources, i, k, x, lower) {
        var j :| 0 <= j < |xs| && xs[j] == x;
        assert AddThrows(before[k], xs[j], lower);
      }
    }
  }

  /**
   * A sequence of merges goes through iff no value comes, for a key that has a
   * list by then, that is null, or that the list it started with does not hold
   * before its first null.
   */
  lemma NeverThrowsExactly(target: Attributes, sources: seq<Incoming>, lower: Lower)
    ensures NeverThrows(target, sources, lower) <==>
              forall i: nat, k, x | i < |sources| :: !Blocked(target, sources, i, k, x, lower)
  {
    forall i: nat | i < |sources|
      ensures Throws(MergedAll(target, sources[..i], lower), sources[i], lower) <==>
                exists k, x :: Blocked(target, sources, i, k, x, lower)
    {
      ThrowsBlocked(target, sources, i, lower);
    }
  }

  predicate NoNull(source: Incoming) {
    forall k | k in source :: None !in Elements(source[k])
  }

  predicate NoNulls(target: Attributes, sources: seq<Incoming>) {
    && (forall k | k in target :: None !in target[k])
    && (forall i | 0 <= i < |sources| :: NoNull(sources[i]))
  }

  lemma {:induction false} NoNullBase(target: Attributes, sources: seq<Incoming>, k: string)
    requires NoNulls(target, sources)
    ensures Base(target, sources, k).Some? ==> None !in Base(target, sources, k).value
  {
    if sources != [] {
      var front := sources[..|sources| - 1];
      assert forall i | 0 <= i < |front| :: front[i] == sources[i];
      NoNullBase(target, front, k);
      assert NoNull(sources[|sources| - 1]);
    }
  }

  lemma NotBlocked(target: Attributes, sources: seq<Incoming>, i: nat, k: string, x: Option<string>, lower: Lower)
    requires NoNulls(target, sources) && i < |sources|
    ensures !Blocked(target, sources, i, k, x, lower)
  {
    assert forall j | 0 <= j < i :: sources[..i][j] == sources[j];
    NoNullBase(target, sources[..i], k);
    assert NoNull(sources[i]);
    hide Base, Elements;
  }

  /** Without nulls every sequence goes through, in whatever order. */
  lemma NoNullsGoThrough(target: Attributes, sources: seq<Incoming>, lower: Lower)
    requires NoNulls(target, sources)
    ensures NeverThrows(target, sources, lower)
  {
    hide NoNulls, Blocked, NeverThrows;
    forall i: nat, k, x | i < |sources| ensures !Blocked(target, sources, i, k, x, lower) {
      NotBlocked(target, sources, i, k, x, lower);
    }
    NeverThrowsExactly(target, sources, lower);
  }

  /** A null in the array that starts a list makes the next new value throw. */
  lemma StoredNullThrows(v: string, lower: Lower)
    ensures var first: Incoming, second: Incoming := map["k" := Many([None])], map["k" := One(v, true)];
            !Throws(map[], first, lower) && Throws(Merged(map[], first, lower), second, lower)
  {
    var first: Incoming, second: Incoming := map["k" := Many([None])], map["k" := One(v, true)];
    var once: Attributes := Merged(map[], first, lower);
    assert once["k"][0].None?;
    assert AddThrows(once["k"], Elements(second["k"])[0], lower);
  }

  // ---------- when the order does not matter ----------

  /** The source has a value for the key that cannot start its list. */
  predicate FalsyAt(source: Incoming, k: string) {
    k in source && source[k].One? && !source[k].truthy
  }

  function FalsyText(source: Incoming, k: string): string
    requires FalsyAt(source, k)
  {
    source[k].value
  }

  predicate TruthySource(sources: seq<Incoming>, k: string, w: string, lower: Lower) {
    exists s | s in sources :: TruthyAt(s, k) && Contributes(s, k, w, lower)
  }

  /**
   * The key has a list already, none of the sources can start it, or every value
   * that cannot start it comes, up to case, from a source that can as well.
   */
  predicate OrderFree(target: Attributes, sources: seq<Incoming>, k: string, lower: Lower) {
    || k in target
    || (forall s | s in sources :: !TruthyAt(s, k))
    || (forall s | s in sources && FalsyAt(s, k) :: TruthySource(sources, k, lower(FalsyText(s, k)), lower))
  }

  /** What is contributed in any order: it takes one source to start the list. */
  predicate Offered(target: Attributes, sources: seq<Incoming>, k: string, w: string, lower: Lower) {
    || w in FoldedAt(target, k, lower)
    || (&& (exists s | s in sources :: Contributes(s, k, w, lower))
        && (k in target || exists s | s in sources :: TruthyAt(s, k)))
  }

  /** What starts no list is a single falsy value. */
  lemma OnlyFalsy(source: Incoming, k: string, w: string, lower: Lower)
    requires Contributes(source, k, w, lower) && !TruthyAt(source, k)
    ensures FalsyAt(source, k) && w == lower(FalsyText(source, k))
  {
  }

  lemma FreeOffered(target: Attributes, sources: seq<Incoming>, k: string, w: string, lower: Lower)
    requires OrderFree(target, sources, k, lower)
    ensures Contributed(target, sources, k, w, lower) <==> Offered(target, sources, k, w, lower)
  {
    hide FoldedAt, TruthyAt, Contributes, FalsyAt;
    if Offered(target, sources, k, w, lower) && w !in FoldedAt(target, k, lower) {
      var s :| s in sources && Contributes(s, k, w, lower);
      if k !in target && !TruthyAt(s, k) {
        OnlyFalsy(s, k, w, lower);
        assert TruthySource(sources, k, w, lower);
        s :| s in sources && TruthyAt(s, k) && Contributes(s, k, w, lower);
      }
      var i :| 0 <= i < |sources| && sources[i] == s;
      assert Active(target, sources, i, k);
    }
  }

  /** Whether the order is free does not itself depend on the order. */
  lemma OrderFreeReordered(target: Attributes, sources: seq<Incoming>, reordered: seq<Incoming>, k: string,
                           lower: Lower)
    requires multiset(sources) == multiset(reordered)
    ensures OrderFree(target, sources, k, lower) == OrderFree(target, reordered, k, lower)
    ensures (exists i | 0 <= i < |sources| :: TruthyAt(sources[i], k)) <==>
              exists i | 0 <= i < |reordered| :: TruthyAt(reordered[i], k)
  {
    hide TruthyAt, Contributes, FalsyAt;
    SameElements(sources, reordered);
    forall w ensures TruthySource(sources, k, w, lower) == TruthySource(reordered, k, w, lower) {
    }
    if i :| 0 <= i < |sources| && TruthyAt(sources[i], k) {
      assert sources[i] in reordered;
    }
    if i :| 0 <= i < |reordered| && TruthyAt(reordered[i], k) {
      assert reordered[i] in sources;
    }
  }

  ghost predicate SameInAnyOrder(target: Attributes, sources: seq<Incoming>, k: string, lower: Lower) {
    forall reordered: seq<Incoming> | multiset(reordered) == multiset(sources) ::
      FoldedAt(MergedAll(target, reordered, lower), k, lower) == FoldedAt(MergedAll(target, sources, lower), k, lower)
  }

  /** Where the order is free the user is shown the same, up to case, however the sources answer. */
  lemma OrderIrrelevant(target: Attributes, sources: seq<Incoming>, reordered: seq<Incoming>, k: string, w: string,
                        lower: Lower)
    requires OrderFree(target, sources, k, lower)
    requires multiset(sources) == multiset(reordered)
    ensures w in FoldedAt(MergedAll(target, sources, lower), k, lower) <==>
              w in FoldedAt(MergedAll(target, reordered, lower), k, lower)
    ensures k in MergedAll(target, sources, lower) <==> k in MergedAll(target, reordered, lower)
  {
    hide MergedAll, FoldedAt, Contributed, TruthyAt, Contributes, FalsyAt;
    SameElements(sources, reordered);
    MergedAllFolded(target, sources, k, w, lower);
    MergedAllFolded(target, reordered, k, w, lower);
    OrderFreeReordered(target, sources, reordered, k, lower);
    FreeOffered(target, sources, k, w, lower);
    FreeOffered(target, reordered, k, w, lower);
  }

  /** Those that can start the list of k, and those that cannot. */
  function Starting(sources: seq<Incoming>, k: string, start: bool): seq<Incoming> {
    if sources == [] then []
    else Starting(sources[..|sources| - 1], k, start) +
         if TruthyAt(sources[|sources| - 1], k) == start then [sources[|sources| - 1]] else []
  }

  lemma {:induction false} StartingParts(sources: seq<Incoming>, k: string)
    ensures multiset(Starting(sources, k, true)) + multiset(Starting(sources, k, false)) == multiset(sources)
    ensures forall s | s in Starting(sources, k, true) :: TruthyAt(s, k)
    ensures forall s | s in Starting(sources, k, false) :: !TruthyAt(s, k)
  {
    if sources != [] {
      StartingParts(sources[..|sources| - 1], k);
      assert sources == sources[..|sources| - 1] + [sources[|sources| - 1]];
    }
  }

  /** Where the order is not free some falsy value is lost or kept, depending on what comes first. */
  lemma OrderMatters(target: Attributes, sources: seq<Incoming>, k: string, lower: Lower)
    returns (first: seq<Incoming>, last: seq<Incoming>, w: string)
    requires !OrderFree(target, sources, k, lower)
    ensures multiset(first) == multiset(sources) == multiset(last)
    ensures w in FoldedAt(MergedAll(target, first, lower), k, lower)
    ensures w !in FoldedAt(MergedAll(target, last, lower), k, lower)
  {
    var yes, no := Starting(sources, k, true), Starting(sources, k, false);
    StartingParts(sources, k);
    first, last := yes + no, no + yes;
    w := LostText(target, sources, k, lower);
    hide MergedAll, FoldedAt, Contributed, OrderFree, Starting, TruthyAt, FalsyAt, Contributes;
    SameElements(sources, first);
    MergedAllFolded(target, first, k, w, lower);
    MergedAllFolded(target, last, k, w, lower);
    StartersFirst(target, yes, no, k, w, lower);
    StartersLast(target, yes, no, k, w, lower);
  }

  /** The text of a falsy value that no source brings which could start the list. */
  lemma LostText(target: Attributes, sources: seq<Incoming>, k: string, lower: Lower) returns (w: string)
    requires !OrderFree(target, sources, k, lower)
    ensures k !in target && (exists s | s in sources :: TruthyAt(s, k))
    ensures (exists s | s in sources :: FalsyAt(s, k) && Contributes(s, k, w, lower))
    ensures forall s | s in sources && TruthyAt(s, k) :: !Contributes(s, k, w, lower)
  {
    var s :| s in sources && FalsyAt(s, k) && !TruthySource(sources, k, lower(FalsyText(s, k)), lower);
    w := lower(FalsyText(s, k));
    assert Elements(s[k])[0] == Some(FalsyText(s, k));
    assert Contributes(s, k, w, lower);
  }

  lemma StartersFirst(target: Attributes, yes: seq<Incoming>, no: seq<Incoming>, k: string, w: string, lower: Lower)
    requires (forall s | s in yes :: TruthyAt(s, k)) && (forall s | s in no :: !TruthyAt(s, k))
    requires exists s | s in yes + no :: TruthyAt(s, k)
    requires exists s | s in yes + no :: Contributes(s, k, w, lower)
    ensures Contributed(target, yes + no, k, w, lower)
  {
    var s :| s in yes + no && Contributes(s, k, w, lower);
    var i :| 0 <= i < |yes + no| && (yes + no)[i] == s;
    assert TruthyAt((yes + no)[0], k);
    assert Active(target, yes + no, i, k);
  }

  lemma StartersLast(target: Attributes, yes: seq<Incoming>, no: seq<Incoming>, k: string, w: string, lower: Lower)
    requires k !in target
    requires (forall s | s in yes :: TruthyAt(s, k)) && (forall s | s in no :: !TruthyAt(s, k))
    requires forall s | s in yes :: !Contributes(s, k, w, lower)
    ensures !Contributed(target, no + yes, k, w, lower)
  {
    forall i: nat | i < |no + yes| && Contributes((no + yes)[i], k, w, lower)
      ensures !Active(target, no + yes, i, k)
    {
      assert i < |no|;
      assert forall j | 0 <= j <= i :: (no + yes)[j] == no[j];
    }
  }

  /** The order of the sources does not change a key's values, up to case, iff it is free. */
  lemma OrderIrrelevantExactly(target: Attributes, sources: seq<Incoming>, k: string, lower: Lower)
    ensures SameInAnyOrder(target, sources, k, lower) <==> OrderFree(target, sources, k, lower)
  {
    if OrderFree(target, sources, k, lower) {
      forall reordered: seq<Incoming> | multiset(reordered) == multiset(sources)
        ensures FoldedAt(MergedAll(target, reordered, lower), k, lower)
             == FoldedAt(MergedAll(target, sources, lower), k, lower)
      {
        forall w ensures w in FoldedAt(MergedAll(target, reordered, lower), k, lower) <==>
                           w in FoldedAt(MergedAll(target, sources, lower), k, lower)
        {
          OrderIrrelevant(target, sources, reordered, k, w, lower);
        }
      }
    } else {
      var first, last, w := OrderMatters(target, sources, k, lower);
    }
  }

  lemma SameElements(a: seq<Incoming>, b: seq<Incoming>)
    requires multiset(a) == multiset(b)
    ensures forall s :: s in a <==> s in b
  {
    assert forall s :: s in a <==> s in multiset(a);
    assert forall s :: s in b <==> s in multiset(b);
  }

  /** The empty string, 0 or false is dropped by a new key and kept by an existing one, so its place matters. */
  lemma FalsyValueOrder(text: string, lower: Lower)
    requires lower("a") != lower(text)
    ensures var falsy: Incoming, full: Incoming := map["k" := One(text, false)], map["k" := Many([Some("a")])];
            MergedAll(map[], [falsy, full], lower) == map["k" := [Some("a")]]
            && MergedAll(map[], [full, falsy], lower) == map["k" := [Some("a"), Some(text)]]
  {
    var falsy: Incoming, full: Incoming := map["k" := One(text, false)], map["k" := Many([Some("a")])];
    MergedAllTwo(map[], falsy, full, lower);
    MergedAllTwo(map[], full, falsy, lower);
    assert Merged(map[], falsy, lower) == map[];
    var a: Attributes := map["k" := [Some("a")]];
    assert Merged(map[], full, lower) == a;
    assert [Some(text)][..0] == [];
    assert Added([Some("a")], [Some(text)], lower) == [Some("a"), Some(text)];
    assert Merged(a, falsy, lower) == map["k" := [Some("a"), Some(text)]];
  }

  lemma MergedAllTwo(target: Attributes, x: Incoming, y: Incoming, lower: Lower)
    ensures MergedAll(target, [x, y], lower) == Merged(Merged(target, x, lower), y, lower)
  {
    hide Merged;
    assert [x, y][..1] == [x] && [x][..0] == [];
    assert MergedAll(target, [x], lower) == Merged(target, x, lower);
  }
}
