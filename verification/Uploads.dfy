/** The sweep that deletes expired results of uploaded files from a user's list. */
module Uploads {
  import opened Wrappers

  /** Reading the date a file name starts with, and the age at which files expire. */
  datatype Clock = Clock(date: string -> Option<int>, expiration: int, now: int)

  const STAMP: nat := 18

  predicate Expired(c: Clock, filename: string)
    requires |filename| >= STAMP
  {
    var dt := c.date(filename[..STAMP]);
    dt.Some? && dt.value + c.expiration < c.now
  }

  predicate Dated(names: seq<string>) {
    forall f | f in names :: |f| >= STAMP
  }

  predicate AllExpired(c: Clock, names: seq<string>) {
    forall f | f in names :: |f| >= STAMP && Expired(c, f)
  }

  predicate NoneExpired(c: Clock, names: seq<string>) {
    forall f | f in names :: |f| >= STAMP && !Expired(c, f)
  }

  class Account {
    var out: seq<string>

    constructor (out: seq<string>)
      ensures this.out == out
    {
      this.out := out;
    }

    /**
     * `saved(k)` tells whether the k-th update of the account succeeds; the
     * sweep stops at the first that does not. `deleted` lists the names whose
     * files were removed, in order.
     */
    method Sweep(c: Clock, saved: nat -> bool) returns (deleted: seq<string>, complete: bool)
      requires Dated(out)
      modifies this
      ensures multiset(old(out)) == multiset(out) + multiset(deleted)
      ensures AllExpired(c, deleted)
      ensures complete ==> NoneExpired(c, out)
      ensures complete <==> forall k | 0 <= k < |deleted| :: saved(k)
      ensures !complete ==> deleted != [] && !saved(|deleted| - 1)
                            && forall k | 0 <= k < |deleted| - 1 :: saved(k)
    {
      hide SwapRemove, Dated, AllExpired, NoneExpired;
      deleted, complete := [], true;
      NothingYet(c, out);
      var i := 0;
      while i < |out|
        invariant 0 <= i <= |out|
        invariant multiset(old(out)) == multiset(out) + multiset(deleted)
        invariant Dated(out) && AllExpired(c, deleted) && NoneExpired(c, out[..i])
        invariant forall k | 0 <= k < |deleted| :: saved(k)
        decreases |out| - i
      {
        var filename := out[i];
        DatedAt(out, i);
        var dt := c.date(filename[..STAMP]);
        if dt.None? {
          Passed(c, out, i);
          i := i + 1;
          continue;
        }
        if dt.value + c.expiration < c.now {
          Removed(c, out, i, deleted);
          deleted := deleted + [filename];
          out := SwapRemove(out, i);
          if !saved(|deleted| - 1) {
            complete := false;
            return;
          }
          // One step back: the slot holds another name now
          i := i - 1;
        } else {
          Passed(c, out, i);
        }
        i := i + 1;
      }
      assert out[..i] == out;
    }
  }

  lemma NothingYet(c: Clock, out: seq<string>)
    ensures AllExpired(c, []) && NoneExpired(c, out[..0])
  {
  }

  lemma DatedAt(out: seq<string>, i: nat)
    requires Dated(out) && i < |out|
    ensures |out[i]| >= STAMP
  {
  }

  lemma Passed(c: Clock, out: seq<string>, i: nat)
    requires i < |out| && |out[i]| >= STAMP && !Expired(c, out[i]) && NoneExpired(c, out[..i])
    ensures NoneExpired(c, out[..i + 1])
  {
    assert out[..i + 1] == out[..i] + [out[i]];
  }

  /** One expired name leaves the list; what was passed before it stays in place. */
  lemma Removed(c: Clock, out: seq<string>, i: nat, deleted: seq<string>)
    requires Dated(out) && AllExpired(c, deleted) && i < |out| && NoneExpired(c, out[..i])
    requires |out[i]| >= STAMP && Expired(c, out[i])
    ensures var rest := SwapRemove(out, i);
            && |rest| == |out| - 1 && rest[..i] == out[..i]
            && multiset(out) + multiset(deleted) == multiset(rest) + multiset(deleted + [out[i]])
            && Dated(rest) && AllExpired(c, deleted + [out[i]]) && NoneExpired(c, rest[..i])
  {
    SwapRemoved(out, i);
    SwapRemoveElements(out, i);
    hide SwapRemove;
    var rest := SwapRemove(out, i);
    OneMore(out, rest, deleted, out[i]);
    assert rest[..i] == out[..i];
  }

  /** The element is overwritten with the last one and the list is cut by one. */
  function SwapRemove(s: seq<string>, i: nat): seq<string>
    requires i < |s|
  {
    s[i := s[|s| - 1]][..|s| - 1]
  }

  /** The deleted name moves from the list to the deleted ones. */
  lemma OneMore(s: seq<string>, t: seq<string>, deleted: seq<string>, f: string)
    requires multiset(s) == multiset(t) + multiset{f}
    ensures multiset(s) + multiset(deleted) == multiset(t) + multiset(deleted + [f])
  {
  }

  lemma CutLast(u: seq<string>)
    requires u != []
    ensures multiset(u) == multiset(u[..|u| - 1]) + multiset{u[|u| - 1]}
  {
    assert u == u[..|u| - 1] + [u[|u| - 1]];
  }

  lemma SwapRemoved(s: seq<string>, i: nat)
    requires i < |s|
    ensures multiset(s) == multiset(SwapRemove(s, i)) + multiset{s[i]}
  {
    var u := s[i := s[|s| - 1]];
    CutLast(u);
    assert multiset(u) == multiset(s) - multiset{s[i]} + multiset{s[|s| - 1]};
    assert s[i] in multiset(s);
  }

  lemma SwapRemoveElements(s: seq<string>, i: nat)
    requires i < |s|
    ensures |SwapRemove(s, i)| == |s| - 1
    ensures forall j | 0 <= j < |s| - 1 :: SwapRemove(s, i)[j] == if j == i then s[|s| - 1] else s[j]
    ensures forall f | f in SwapRemove(s, i) :: f in s
  {
  }

  /** A complete sweep leaves each unexpired name as often as before, and no other. */
  lemma ExactlyUnexpired(c: Clock, before: seq<string>, after: seq<string>, deleted: seq<string>, f: string)
    requires multiset(before) == multiset(after) + multiset(deleted)
    requires AllExpired(c, deleted) && NoneExpired(c, after)
    requires |f| >= STAMP
    ensures multiset(after)[f] == if Expired(c, f) then 0 else multiset(before)[f]
    ensures multiset(deleted)[f] == if Expired(c, f) then multiset(before)[f] else 0
  {
    assert f in multiset(after) <==> f in after;
    assert f in multiset(deleted) <==> f in deleted;
  }

  /** The same on the clock: what is removed is what reads as a date of more than the expiration ago. */
  lemma ExactlyOld(c: Clock, before: seq<string>, after: seq<string>, deleted: seq<string>, f: string)
    requires multiset(before) == multiset(after) + multiset(deleted)
    requires AllExpired(c, deleted) && NoneExpired(c, after)
    requires |f| >= 18
    ensures var aged := c.date(f[..18]).Some? && c.now - c.date(f[..18]).value > c.expiration;
            multiset(after)[f] == (if aged then 0 else multiset(before)[f])
            && multiset(deleted)[f] == (if aged then multiset(before)[f] else 0)
  {
    ExactlyUnexpired(c, before, after, deleted, f);
  }
}
