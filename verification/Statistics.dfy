/** Counting the values of chosen fields, and the ten most frequent ones. */
module Statistics {
  import opened Present
  import opened Relations

  type Counts = map<Json, nat>

  predicate Missing(v: Json, text: Printer) {
    v == Null || text(v) == ""
  }

  function CountOf(m: Counts, v: Json): nat {
    if v in m then m[v] else 0
  }

  function Tallied(m: Counts, v: Json): Counts {
    m[v := CountOf(m, v) + 1]
  }

  /** The counts of one field after a number of entries. */
  function TallyEntries(entries: seq<Entry>, key: string, text: Printer): Counts {
    if entries == [] then map[]
    else
      var front := TallyEntries(entries[..|entries| - 1], key, text);
      var v := Get(entries[|entries| - 1], key);
      if Missing(v, text) then front else Tallied(front, v)
  }

  class Stats {
    const text: Printer
    var fields: map<string, Counts>

    constructor (text: Printer, keys: seq<string>)
      ensures this.text == text
      ensures forall k :: k in fields <==> k in keys
      ensures forall k | k in keys :: fields[k] == map[]
    {
      this.text := text;
      fields := map k | k in keys :: map[];
    }

    /** Values are map keys: lists and maps cannot be counted. */
    method Update(entry: Entry, key: string)
      requires key in fields && !Get(entry, key).List? && !Get(entry, key).Obj?
      modifies this
      ensures fields == if Missing(Get(entry, key), text) then old(fields)
                        else old(fields)[key := Tallied(old(fields)[key], Get(entry, key))]
    {
      var value := Get(entry, key);
      if Missing(value, text) {
        return;
      }
      if value in fields[key] {
        fields := fields[key := fields[key][value := fields[key][value] + 1]];
      } else {
        fields := fields[key := fields[key][value := 1]];
      }
    }
  }

  /** The groups of the report: every field that has counted anything, cut to its top ten. */
  method ToJson(fields: map<string, Counts>, order: Counts -> seq<Json>, text: Printer)
    returns (json: map<string, map<string, nat>>)
    requires forall k | k in fields :: Descending(order(fields[k]), fields[k])
    ensures forall k :: k in json <==> k in fields && fields[k] != map[]
    ensures forall k | k in json :: json[k] == Printed(Kept(order(fields[k])), fields[k], text)
  {
    json := map[];
    var left := fields.Keys;
    while left != {}
      invariant left <= fields.Keys
      invariant forall k :: k in json <==> k in fields && k !in left && fields[k] != map[]
      invariant forall k | k in json :: json[k] == Printed(Kept(order(fields[k])), fields[k], text)
      decreases left
    {
      var k :| k in left;
      left := left - {k};
      if fields[k] != map[] {
        var group := TopTen(fields[k], order(fields[k]), text);
        json := json[k := group];
      }
    }
  }

  // ---------- the counts are exact ----------

  /** The values of a field that are present, with their multiplicity. */
  function Values(entries: seq<Entry>, key: string, text: Printer): multiset<Json> {
    if entries == [] then multiset{}
    else
      var v := Get(entries[|entries| - 1], key);
      Values(entries[..|entries| - 1], key, text) + if Missing(v, text) then multiset{} else multiset{v}
  }

  ghost function Total(m: Counts): nat {
    if m == map[] then 0 else var k :| k in m; m[k] + Total(m - {k})
  }

  lemma {:induction false} TotalWithout(m: Counts, k: Json)
    requires k in m
    ensures Total(m) == m[k] + Total(m - {k})
    decreases |m|
  {
    var j :| j in m && Total(m) == m[j] + Total(m - {j});
    if j != k {
      assert |m - {j}| < |m| && |m - {k}| < |m| by {
        assert (m - {j}).Keys == m.Keys - {j} && (m - {k}).Keys == m.Keys - {k};
      }
      TotalWithout(m - {j}, k);
      TotalWithout(m - {k}, j);
      assert m - {j} - {k} == m - {k} - {j};
    }
  }

  lemma TotalTallied(m: Counts, v: Json)
    ensures Total(Tallied(m, v)) == Total(m) + 1
  {
    TotalWithout(Tallied(m, v), v);
    if v in m {
      TotalWithout(m, v);
      assert Tallied(m, v) - {v} == m - {v};
    } else {
      assert Tallied(m, v) - {v} == m;
    }
  }

  /** Each value's count is the number of its occurrences, and the counts add up to all of them. */
  lemma {:induction false} CountsExact(entries: seq<Entry>, key: string, text: Printer)
    ensures forall v :: CountOf(TallyEntries(entries, key, text), v) == Values(entries, key, text)[v]
    ensures forall v | v in TallyEntries(entries, key, text) :: TallyEntries(entries, key, text)[v] > 0
    ensures Total(TallyEntries(entries, key, text)) == |Values(entries, key, text)|
  {
    if entries != [] {
      var front := entries[..|entries| - 1];
      CountsExact(front, key, text);
      TotalTallied(TallyEntries(front, key, text), Get(entries[|entries| - 1], key));
    }
  }

  // ---------- the top ten ----------

  /** An iteration over the counts from the largest down, each value once. */
  predicate Descending(order: seq<Json>, m: Counts) {
    && (forall i | 0 <= i < |order| :: order[i] in m)
    && (forall v | v in m :: v in order)
    && (forall i, j | 0 <= i < j < |order| :: order[i] != order[j] && m[order[i]] >= m[order[j]])
  }

  const TOP: nat := 10

  function Kept(order: seq<Json>): seq<Json> {
    if |order| <= TOP then order else order[..TOP]
  }

  /** The printed values with their counts; of values that print alike the last one stays. */
  function Printed(kept: seq<Json>, m: Counts, text: Printer): map<string, nat> {
    if kept == [] then map[]
    else Printed(kept[..|kept| - 1], m, text)[text(kept[|kept| - 1]) := CountOf(m, kept[|kept| - 1])]
  }

  /** One field of ToJSON. */
  method TopTen(m: Counts, order: seq<Json>, text: Printer) returns (group: map<string, nat>)
    requires Descending(order, m)
    ensures group == Printed(Kept(order), m, text)
  {
    group := map[];
    var i := 1;
    var n := 0;
    while n < |order|
      invariant n <= |order| && i == n + 1 && n <= TOP
      invariant n < TOP || n == |order|
      invariant group == Printed(order[..n], m, text)
    {
      group := group[text(order[n]) := m[order[n]]];
      assert order[..n + 1][..n] == order[..n];
      n := n + 1;
      if i > 9 {
        break;
      }
      i := i + 1;
    }
    assert Kept(order) == order[..n];
  }

  predicate DistinctTexts(kept: seq<Json>, text: Printer) {
    forall i, j | 0 <= i < j < |kept| :: text(kept[i]) != text(kept[j])
  }

  /** Two lists that agree but for the last element of one of them. */
  lemma DistinctFront(kept: seq<Json>, text: Printer)
    requires kept != []
    ensures DistinctTexts(kept, text) <==>
              DistinctTexts(kept[..|kept| - 1], text)
              && forall i | 0 <= i < |kept| - 1 :: text(kept[i]) != text(kept[|kept| - 1])
  {
    var front := kept[..|kept| - 1];
    assert forall i | 0 <= i < |front| :: front[i] == kept[i];
  }

  lemma {:induction false} PrintedKeys(kept: seq<Json>, m: Counts, text: Printer)
    ensures forall t :: t in Printed(kept, m, text) <==> exists i | 0 <= i < |kept| :: text(kept[i]) == t
  {
    if kept != [] {
      var front := kept[..|kept| - 1];
      PrintedKeys(front, m, text);
      assert forall i | 0 <= i < |front| :: front[i] == kept[i];
      assert text(kept[|kept| - 1]) in Printed(kept, m, text);
    }
  }

  lemma {:induction false} PrintedSize(kept: seq<Json>, m: Counts, text: Printer)
    ensures |Printed(kept, m, text)| <= |kept|
    ensures |Printed(kept, m, text)| == |kept| <==> DistinctTexts(kept, text)
  {
    if kept != [] {
      var front, last := kept[..|kept| - 1], kept[|kept| - 1];
      PrintedSize(front, m, text);
      PrintedKeys(front, m, text);
      DistinctFront(kept, text);
      var before, t := Printed(front, m, text), text(last);
      var after := Printed(kept, m, text);
      assert after == before[t := CountOf(m, last)];
      hide Printed, DistinctTexts;
      assert after.Keys == before.Keys + {t};
      if t in before {
        assert after.Keys == before.Keys && |after| == |before|;
        var i :| 0 <= i < |front| && text(front[i]) == t;
        assert text(kept[i]) == t;
      } else {
        assert |after| == |before| + 1;
        assert forall i | 0 <= i < |front| :: text(kept[i]) == text(front[i]) != t;
      }
    }
  }

  /** Where the printed values differ each keeps its own count. */
  lemma {:induction false} PrintedCounts(kept: seq<Json>, m: Counts, text: Printer)
    requires DistinctTexts(kept, text)
    ensures forall i | 0 <= i < |kept| :: text(kept[i]) in Printed(kept, m, text)
                                          && Printed(kept, m, text)[text(kept[i])] == CountOf(m, kept[i])
  {
    if kept != [] {
      var front := kept[..|kept| - 1];
      DistinctFront(kept, text);
      PrintedCounts(front, m, text);
      assert forall i | 0 <= i < |front| :: front[i] == kept[i];
    }
  }

  /** All ten places are filled iff the ten values print differently. */
  lemma TopTenFull(m: Counts, order: seq<Json>, text: Printer)
    requires Descending(order, m)
    ensures |Printed(Kept(order), m, text)| == (if |m| < TOP then |m| else TOP) <==> DistinctTexts(Kept(order), text)
  {
    PrintedSize(Kept(order), m, text);
    OrderLength(m, order);
  }

  lemma {:induction false} DistinctLength(order: seq<Json>)
    requires forall i, j | 0 <= i < j < |order| :: order[i] != order[j]
    ensures |set v | v in order| == |order|
  {
    if order != [] {
      var front := order[..|order| - 1];
      DistinctLength(front);
      assert order == front + [order[|order| - 1]];
      assert (set v | v in order) == (set v | v in front) + {order[|order| - 1]};
    }
  }

  lemma OrderLength(m: Counts, order: seq<Json>)
    requires Descending(order, m)
    ensures |order| == |m|
  {
    DistinctLength(order);
    assert (set v | v in order) == m.Keys;
  }

  /** No value left out was counted more often than one that was kept. */
  lemma NothingLargerDropped(m: Counts, order: seq<Json>, kept: Json, dropped: Json)
    requires Descending(order, m)
    requires kept in Kept(order) && dropped in m && dropped !in Kept(order)
    ensures m[dropped] <= m[kept]
  {
    var i :| 0 <= i < |Kept(order)| && Kept(order)[i] == kept;
    var j :| 0 <= j < |order| && order[j] == dropped;
    assert order[i] == kept;
    assert forall x | 0 <= x < |Kept(order)| :: order[x] == Kept(order)[x] != dropped;
  }

  // ---------- the report in plain numbers ----------

  /** How many entries have the value in the field. */
  function Occurrences(entries: seq<Entry>, key: string, v: Json): nat {
    if entries == [] then 0
    else
      var last := entries[|entries| - 1];
      Occurrences(entries[..|entries| - 1], key, v) + if key in last && last[key] == v then 1 else 0
  }

  /** Values are counted as often as they occur, unless they are null or print as nothing. */
  lemma {:induction false} CountedExactly(entries: seq<Entry>, key: string, v: Json, text: Printer)
    ensures var m := TallyEntries(entries, key, text);
            var n := if v == Null || text(v) == "" then 0 else Occurrences(entries, key, v);
            (v in m <==> n > 0) && (v in m ==> m[v] == n)
  {
    if entries != [] {
      CountedExactly(entries[..|entries| - 1], key, v, text);
    }
  }

  /** The first ten values of the iteration are kept, or all if there are fewer. */
  lemma TenKept(order: seq<Json>)
    ensures |Kept(order)| == (if |order| < 10 then |order| else 10) && Kept(order) <= order
  {
  }
}
