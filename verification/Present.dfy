/** Entries of a data source as decoded JSON, and copying the attributes a relation lists. */
module Present {

  datatype Json =
    | Null
    | Str(s: string)
    | Num(n: real)
    | Bool(b: bool)
    | List(items: seq<Json>)
    | Obj(fields: map<string, Json>)

  type Entry = map<string, Json>

  /** Reading a Go map: a missing key reads as nil. */
  function Get(m: Entry, key: string): Json {
    if key in m then m[key] else Null
  }

  // ---------- dotted keys ----------

  predicate HasDot(key: string) {
    '.' in key
  }

  /** What comes before the first dot. */
  function Head(key: string): string
    requires HasDot(key)
  {
    if key[0] == '.' then "" else [key[0]] + Head(key[1..])
  }

  /** What comes after the first dot: the remaining parts joined again. */
  function Tail(key: string): (r: string)
    requires HasDot(key)
    ensures |r| < |key|
  {
    if key[0] == '.' then key[1..] else Tail(key[1..])
  }

  lemma {:induction false} HeadTail(key: string)
    requires HasDot(key)
    ensures Head(key) + "." + Tail(key) == key
  {
    if key[0] != '.' {
      HeadTail(key[1..]);
      assert [key[0]] + (Head(key[1..]) + "." + Tail(key[1..])) == key;
    }
  }

  /** Moving the first part of a key to the prefix keeps the whole. */
  lemma PrefixKept(prefix: string, key: string)
    requires HasDot(key)
    ensures (prefix + Head(key) + ".") + Tail(key) == prefix + key
  {
    HeadTail(key);
    assert (prefix + Head(key) + ".") + Tail(key) == prefix + (Head(key) + "." + Tail(key));
  }

  // ---------- what is copied for one key ----------

  /** The walk along the dots: a part that names no map leaves the walk where it is. */
  function Walk(right: Entry, key: string): Json
    decreases |key|
  {
    if !HasDot(key) then Get(right, key)
    else
      var v := Get(right, Head(key));
      Walk(if v.Obj? then v.fields else right, Tail(key))
  }

  /** A key present as it is wins over its parts. */
  function Resolve(source: Entry, key: string): Json {
    if Get(source, key) != Null then Get(source, key)
    else if HasDot(key) then Walk(source, key)
    else Null
  }

  function Copied(target: Entry, source: Entry, key: string): Entry {
    if Resolve(source, key) != Null then target[key := Resolve(source, key)] else target
  }

  function CopiedAll(target: Entry, source: Entry, keys: seq<string>): Entry
    decreases |keys|
  {
    if keys == [] then target else CopiedAll(Copied(target, source, keys[0]), source, keys[1..])
  }

  class Attributes {
    var fields: Entry

    constructor ()
      ensures fields == map[]
    {
      fields := map[];
    }

    /** The inner loop: follows one dotted key and assigns what it finds. */
    method CopyNested(source: Entry, original: string)
      requires HasDot(original)
      modifies this
      ensures fields == if Walk(source, original) != Null
                        then old(fields)[original := Walk(source, original)] else old(fields)
    {
      hide Head, Tail;
      var right, prefix, key := source, "", original;
      while HasDot(key)
        invariant fields == old(fields)
        invariant prefix + key == original
        invariant Walk(right, key) == Walk(source, original)
        decreases |key|
      {
        PrefixKept(prefix, key);
        var v := Get(right, Head(key));
        if v.Obj? {
          right := v.fields;
        }
        prefix := prefix + Head(key) + ".";
        key := Tail(key);
      }
      if Get(right, key) != Null {
        assert prefix + key == original;
        fields := fields[prefix + key := Get(right, key)];
      }
    }

    method CopyPresentValues(source: Entry, keys: seq<string>)
      modifies this
      ensures fields == CopiedAll(old(fields), source, keys)
    {
      for i := 0 to |keys|
        invariant CopiedAll(fields, source, keys[i..]) == CopiedAll(old(fields), source, keys)
      {
        var key := keys[i];
        assert keys[i..][0] == key && keys[i..][1..] == keys[i + 1..];
        if Get(source, key) != Null {
          fields := fields[key := Get(source, key)];
        } else if HasDot(key) {
          CopyNested(source, key);
        }
      }
    }
  }

  // ---------- what the copy amounts to ----------

  /** Listed keys that resolve get their value; nothing else changes. */
  lemma {:induction false} CopiedExactly(target: Entry, source: Entry, keys: seq<string>, k: string)
    ensures Get(CopiedAll(target, source, keys), k) ==
            if k in keys && Resolve(source, k) != Null then Resolve(source, k) else Get(target, k)
    ensures k in CopiedAll(target, source, keys) <==> k in target || (k in keys && Resolve(source, k) != Null)
    decreases |keys|
  {
    if keys != [] {
      CopiedExactly(Copied(target, source, keys[0]), source, keys[1..], k);
    }
  }

  /** The value at a path through nested maps; Null as soon as a part names no map. */
  function AtPath(source: Entry, key: string): Json
    decreases |key|
  {
    if !HasDot(key) then Get(source, key)
    else
      var v := Get(source, Head(key));
      if v.Obj? then AtPath(v.fields, Tail(key)) else Null
  }

  /** Every part but the last names a map inside the previous one. */
  predicate FullyNested(source: Entry, key: string)
    decreases |key|
  {
    HasDot(key) ==>
      var v := Get(source, Head(key));
      v.Obj? && FullyNested(v.fields, Tail(key))
  }

  lemma {:induction false} WalkAlongPath(source: Entry, key: string)
    ensures FullyNested(source, key) ==> Walk(source, key) == AtPath(source, key)
    ensures !FullyNested(source, key) ==> AtPath(source, key) == Null
    decreases |key|
  {
    if HasDot(key) && Get(source, Head(key)).Obj? {
      WalkAlongPath(Get(source, Head(key)).fields, Tail(key));
    }
  }

  /** What the function's description promises for a key. */
  function Described(source: Entry, key: string): Json {
    if Get(source, key) != Null then Get(source, key) else AtPath(source, key)
  }

  /** The parts of a key between its dots. */
  function Parts(key: string): (r: seq<string>)
    ensures |r| >= 1
    decreases |key|
  {
    if HasDot(key) then [Head(key)] + Parts(Tail(key)) else [key]
  }

  function WithDots(parts: seq<string>): string
    requires |parts| >= 1
  {
    if |parts| == 1 then parts[0] else parts[0] + "." + WithDots(parts[1..])
  }

  /** Taking a key apart loses nothing, and no part has a dot left. */
  lemma {:induction false} PartsJoined(key: string)
    ensures WithDots(Parts(key)) == key
    ensures forall i | 0 <= i < |Parts(key)| :: !HasDot(Parts(key)[i])
    decreases |key|
  {
    if HasDot(key) {
      HeadTail(key);
      HeadHasNoDot(key);
      PartsJoined(Tail(key));
      assert Parts(key)[1..] == Parts(Tail(key));
    }
  }

  lemma {:induction false} HeadHasNoDot(key: string)
    requires HasDot(key)
    ensures !HasDot(Head(key))
  {
    if key[0] != '.' {
      HeadHasNoDot(key[1..]);
    }
  }

  /** The map some parts lead to, where those that name no map are stepped over. */
  function Landing(source: Entry, parts: seq<string>): Entry {
    if parts == [] then source
    else
      var m, part := Landing(source, parts[..|parts| - 1]), parts[|parts| - 1];
      if Get(m, part).Obj? then Get(m, part).fields else m
  }

  lemma {:induction false} LandingFirst(source: Entry, part: string, parts: seq<string>)
    ensures Landing(source, [part] + parts) ==
            Landing(if Get(source, part).Obj? then Get(source, part).fields else source, parts)
  {
    var all := [part] + parts;
    if parts == [] {
      assert all[..0] == [];
    } else {
      assert all[..|all| - 1] == [part] + parts[..|parts| - 1];
      LandingFirst(source, part, parts[..|parts| - 1]);
    }
  }

  /** The last part, looked up in the map that the parts before it lead to. */
  function LastLookup(source: Entry, key: string): Json {
    var parts := Parts(key);
    Get(Landing(source, parts[..|parts| - 1]), parts[|parts| - 1])
  }

  lemma {:induction false} WalkLandsThere(source: Entry, key: string)
    ensures Walk(source, key) == LastLookup(source, key)
    decreases |key|
  {
    if HasDot(key) {
      var v := Get(source, Head(key));
      var next := if v.Obj? then v.fields else source;
      WalkLandsThere(next, Tail(key));
      var rest := Parts(Tail(key));
      assert Parts(key)[..|rest|] == [Head(key)] + rest[..|rest| - 1];
      LandingFirst(source, Head(key), rest[..|rest| - 1]);
    }
  }

  /**
   * The promise is kept iff the key is there as it is, its parts are nested maps
   * all the way down, or the map its parts lead to has nothing under the last one.
   */
  lemma DescribedExactly(source: Entry, key: string)
    ensures Resolve(source, key) == Described(source, key) <==>
              Get(source, key) != Null || FullyNested(source, key) || LastLookup(source, key) == Null
  {
    WalkAlongPath(source, key);
    WalkLandsThere(source, key);
  }

  /** Without a map "n" the key "n.m" picks up an unrelated top-level "m". */
  lemma UnrelatedValueCopied(v: Json)
    requires v != Null
    ensures Resolve(map["m" := v], "n.m") == v
    ensures Described(map["m" := v], "n.m") == Null
  {
    assert Head("n.m") == "n" && Tail("n.m") == "m" by {
      assert "n.m"[1..] == ".m" && ".m"[1..] == "m";
    }
    assert !HasDot("m");
  }

  /** A listed key that the source has as it is, not null, arrives with the source's value; other keys stay. */
  lemma CopiedDirectly(target: Entry, source: Entry, keys: seq<string>, k: string)
    ensures k in keys && k in source && source[k] != Null ==>
              k in CopiedAll(target, source, keys) && CopiedAll(target, source, keys)[k] == source[k]
    ensures k !in keys ==>
              (k in CopiedAll(target, source, keys) <==> k in target)
              && (k in target ==> CopiedAll(target, source, keys)[k] == target[k])
  {
    CopiedExactly(target, source, keys, k);
  }
}
