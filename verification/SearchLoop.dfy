/** The loop a plugin runs over the entries it received: collect until the limit is reached. */
module SearchLoop {
  import opened Wrappers
  import opened Present
  import opened Relations
  import opened Statistics

  type Report = map<string, map<string, nat>>

  predicate Distinct(keys: seq<string>) {
    forall i, j | 0 <= i < j < |keys| :: keys[i] != keys[j]
  }

  /** Values a statistics field can count. */
  predicate Countable(entries: seq<Entry>, keys: seq<string>) {
    forall i, k | 0 <= i < |entries| && k in keys :: !Get(entries[i], k).List? && !Get(entries[i], k).Obj?
  }

  /** Updates the statistics of one entry, field by field. */
  method UpdateAll(stats: Stats, entry: Entry, keys: seq<string>)
    requires forall k | k in keys :: k in stats.fields && !Get(entry, k).List? && !Get(entry, k).Obj?
    modifies stats
    ensures stats.fields.Keys == old(stats.fields).Keys
    ensures Distinct(keys) ==>
              forall k | k in keys ::
                stats.fields[k] == if Missing(Get(entry, k), stats.text) then old(stats.fields[k])
                                   else Tallied(old(stats.fields[k]), Get(entry, k))
  {
    for p := 0 to |keys|
      invariant stats.fields.Keys == old(stats.fields).Keys
      invariant Distinct(keys) ==> forall i | p <= i < |keys| :: stats.fields[keys[i]] == old(stats.fields[keys[i]])
      invariant Distinct(keys) ==>
                  forall i | 0 <= i < p ::
                    stats.fields[keys[i]] == if Missing(Get(entry, keys[i]), stats.text) then old(stats.fields[keys[i]])
                                             else Tallied(old(stats.fields[keys[i]]), Get(entry, keys[i]))
    {
      stats.Update(entry, keys[p]);
    }
  }

  /** Processing an entry, as long as the limit is not reached, makes no comparison that panics. */
  predicate Comparable(c: Context, entries: seq<Entry>, limit: int) {
    forall j: nat | j < |entries| && |AfterEntries(c, entries[..j])| < limit ::
      Scannable(c, AfterEntries(c, entries[..j]), entries[j])
  }

  lemma NextComparable(c: Context, entries: seq<Entry>, limit: int, n: nat)
    requires Comparable(c, entries, limit) && n < |entries| && |AfterEntries(c, entries[..n])| < limit
    ensures Scannable(c, AfterEntries(c, entries[..n]), entries[n])
  {
  }

  /** The limit was not reached before the n-th entry, and is overrun by one entry at most. */
  ghost predicate WithinLimit(c: Context, entries: seq<Entry>, limit: int, n: nat) {
    && n <= |entries|
    && (forall j: nat | j < n :: |AfterEntries(c, entries[..j])| < limit)
    && (limit >= 1 ==> |AfterEntries(c, entries[..n])| <= limit - 1 + |c.relations|)
  }

  lemma OneMoreEntry(c: Context, entries: seq<Entry>, limit: int, n: nat)
    requires WithinLimit(c, entries, limit, n) && n < |entries| && |AfterEntries(c, entries[..n])| < limit
    ensures AfterEntries(c, entries[..n + 1]) == AfterEntry(c, AfterEntries(c, entries[..n]), entries[n])
    ensures WithinLimit(c, entries, limit, n + 1)
  {
    assert entries[..n + 1][..n] == entries[..n];
  }

  /** Distinct fields hold the counts of the first n entries. */
  ghost predicate Counted(fields: map<string, Counts>, entries: seq<Entry>, n: nat, keys: seq<string>, text: Printer)
    requires n <= |entries|
  {
    && (forall k :: k in fields <==> k in keys)
    && (Distinct(keys) ==> forall k | k in keys :: fields[k] == TallyEntries(entries[..n], k, text))
  }

  lemma OneMoreCounted(before: map<string, Counts>, after: map<string, Counts>,
                       entries: seq<Entry>, n: nat, keys: seq<string>, text: Printer)
    requires n < |entries| && Counted(before, entries, n, keys, text)
    requires after.Keys == before.Keys
    requires Distinct(keys) ==>
               forall k | k in keys ::
                 after[k] == if Missing(Get(entries[n], k), text) then before[k]
                             else Tallied(before[k], Get(entries[n], k))
    ensures Counted(after, entries, n + 1, keys, text)
  {
    assert entries[..n + 1][..n] == entries[..n];
  }

  /**
   * `n` entries are processed: the results are those of the first n entries,
   * the limit was not reached before, and a report is made iff entries are left.
   */
  method Search(c: Context, entries: seq<Entry>, limit: int, statsFields: seq<string>, order: Counts -> seq<Json>)
    returns (results: seq<Graph>, report: Option<Report>, ghost n: nat)
    requires Countable(entries, statsFields)
    requires Comparable(c, entries, limit)
    requires forall m: Counts :: Descending(order(m), m)
    ensures n <= |entries| && results == ResultsOf(c, AfterEntries(c, entries[..n]))
    ensures forall j: nat | j < n :: |AfterEntries(c, entries[..j])| < limit
    ensures report.Some? <==> n < |entries|
    ensures report.Some? ==> |results| >= limit
    ensures limit >= 1 ==> |results| <= limit - 1 + |c.relations|
    ensures report.Some? && Distinct(statsFields) ==>
              forall k :: k in report.value <==> k in statsFields && TallyEntries(entries[..n], k, c.text) != map[]
    ensures report.Some? && Distinct(statsFields) ==>
              forall k | k in report.value ::
                var counts := TallyEntries(entries[..n], k, c.text);
                report.value[k] == Printed(Kept(order(counts)), counts, c.text)
  {
    hide Comparable, Scannable, AfterEntries, AfterEntry;
    hide Distinct, TallyEntries, Tallied, Printed, Kept, Descending, Missing;
    var collector := new Collector(c);
    var stats := new Stats(c.text, statsFields);
    n := 0;
    NothingCollected(c, entries, limit);
    NothingCounted(stats.fields, entries, statsFields, c.text);
    var i := 0;
    while i < |entries|
      invariant i == n && WithinLimit(c, entries, limit, n)
      invariant collector.Valid() && collector.context == c && collector.log == AfterEntries(c, entries[..n])
      invariant stats.text == c.text && Counted(stats.fields, entries, n, statsFields, c.text)
    {
      if collector.counter >= limit {
        var top := ToJson(stats.fields, order, c.text);
        return collector.results, Some(top), n;
      }
      OneMoreEntry(c, entries, limit, n);
      ghost var before := stats.fields;
      UpdateAll(stats, entries[i], statsFields);
      OneMoreCounted(before, stats.fields, entries, n, statsFields, c.text);
      NextComparable(c, entries, limit, n);
      hide Counted, WithinLimit, Collector.Valid;
      collector.CreateRelations(entries[i]);
      i := i + 1;
      n := n + 1;
    }
    return collector.results, None, n;
  }

  lemma NothingCollected(c: Context, entries: seq<Entry>, limit: int)
    ensures AfterEntries(c, entries[..0]) == [] && WithinLimit(c, entries, limit, 0)
  {
  }

  lemma NothingCounted(fields: map<string, Counts>, entries: seq<Entry>, keys: seq<string>, text: Printer)
    requires forall k :: k in fields <==> k in keys
    requires forall k | k in keys :: fields[k] == map[]
    ensures Counted(fields, entries, 0, keys, text)
  {
  }
}
