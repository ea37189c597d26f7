/**
 * List (rstm-dev/bench/List.hpp): the benchmark's sorted singly linked
 * list of ints behind a sentinel node whose value is -1.  The list is the
 * sequence of the values of the nodes after the sentinel; nodes, pointers
 * and the transactional reads and writes are not modelled.
 */
module BenchList {
  /** Node(): the sentinel's value. */
  const SENTINEL_VAL: int := -1

  /** What isSane checks: every node's value is above the one before it, the sentinel's included. */
  predicate Sane(vals: seq<int>)
  {
    (|vals| > 0 ==> SENTINEL_VAL < vals[0]) &&
    forall i :: 0 < i < |vals| ==> vals[i - 1] < vals[i]
  }

  /** Strictly increasing, every pair compared. */
  predicate Sorted(vals: seq<int>)
  {
    forall i, j :: 0 <= i < j < |vals| ==> vals[i] < vals[j]
  }

  /** Checking neighbours is enough: a sane list is sorted, and its values are above the sentinel's. */
  lemma {:induction false} SaneSorted(vals: seq<int>)
    ensures Sane(vals) <==> Sorted(vals) && forall i :: 0 <= i < |vals| ==> SENTINEL_VAL < vals[i]
    decreases |vals|
  {
    if |vals| > 1 {
      var rest := vals[..|vals| - 1];
      SaneSorted(rest);
      if Sane(vals) {
        assert Sane(rest);
        forall i, j | 0 <= i < j < |vals|
          ensures vals[i] < vals[j]
        {
          if j < |vals| - 1 {
            assert rest[i] < rest[j];
          } else if i < j - 1 {
            assert rest[i] < rest[j - 1];
          }
        }
      }
    }
  }

  /** Where the traversal of insert, lookup and remove stops: the first value not below `v`. */
  function FirstAtLeast(vals: seq<int>, v: int): (p: nat)
    ensures p <= |vals|
    ensures forall j :: 0 <= j < p ==> vals[j] < v
    ensures p < |vals| ==> vals[p] >= v
    decreases |vals|
  {
    if |vals| == 0 || vals[0] >= v then 0 else 1 + FirstAtLeast(vals[1..], v)
  }

  /** Whether the traversal stops on a node holding `v`. */
  predicate StopsOn(vals: seq<int>, v: int)
  {
    FirstAtLeast(vals, v) < |vals| && vals[FirstAtLeast(vals, v)] == v
  }

  /** The list after insert(v): a new node before the stopping point unless that node holds `v`. */
  function Inserted(vals: seq<int>, v: int): seq<int>
  {
    var p := FirstAtLeast(vals, v);
    if StopsOn(vals, v) then vals else vals[..p] + [v] + vals[p..]
  }

  /** The list after remove(v): the stopping node dropped if it holds `v`. */
  function Removed(vals: seq<int>, v: int): seq<int>
  {
    var p := FirstAtLeast(vals, v);
    if StopsOn(vals, v) then vals[..p] + vals[p + 1..] else vals
  }

  /** Where insert splices `v` in, when the traversal does not stop on it. */
  lemma InsertedAt(vals: seq<int>, v: int, p: nat)
    requires p == FirstAtLeast(vals, v) && p < |vals| && vals[p] > v
    ensures Inserted(vals, v) == vals[..p] + [v] + vals[p..]
  {
  }

  /** In a sorted list the traversal stops on `v` exactly when `v` is present. */
  lemma StopsOnMember(vals: seq<int>, v: int)
    requires Sorted(vals)
    ensures StopsOn(vals, v) <==> v in vals
  {
    var p := FirstAtLeast(vals, v);
    if v in vals {
      var j :| 0 <= j < |vals| && vals[j] == v;
      assert p <= j;
    }
  }

  /** Where each value of a list with `v` spliced in at `p` comes from. */
  lemma SpliceAt(vals: seq<int>, p: nat, v: int, r: seq<int>)
    requires p <= |vals| && r == vals[..p] + [v] + vals[p..]
    ensures |r| == |vals| + 1 && r[p] == v
    ensures forall i :: 0 <= i < p ==> r[i] == vals[i]
    ensures forall i :: p < i < |r| ==> r[i] == vals[i - 1]
  {
  }

  /** Where each value of a list with position `p` dropped comes from. */
  lemma DropAt(vals: seq<int>, p: nat, r: seq<int>)
    requires p < |vals| && r == vals[..p] + vals[p + 1..]
    ensures |r| == |vals| - 1
    ensures forall i :: 0 <= i < p ==> r[i] == vals[i]
    ensures forall i :: p <= i < |r| ==> r[i] == vals[i + 1]
  {
  }

  /** Splicing `v` in between the values below it and those above it keeps the list sane and adds just `v`. */
  lemma SpliceSane(vals: seq<int>, p: nat, v: int, r: seq<int>)
    requires Sane(vals) && SENTINEL_VAL < v && p <= |vals|
    requires forall j :: 0 <= j < p ==> vals[j] < v
    requires p < |vals| ==> v < vals[p]
    requires r == vals[..p] + [v] + vals[p..]
    ensures Sane(r)
    ensures forall x :: x in r <==> x in vals || x == v
  {
    SpliceAt(vals, p, v, r);
    forall x | x in vals
      ensures x in r
    {
      var j :| 0 <= j < |vals| && vals[j] == x;
      if j < p { assert r[j] == x; } else { assert r[j + 1] == x; }
    }
  }

  /** Dropping the value at `p` keeps a sorted list sane and takes out just that value. */
  lemma DropSane(vals: seq<int>, p: nat, r: seq<int>)
    requires Sane(vals) && Sorted(vals) && p < |vals|
    requires r == vals[..p] + vals[p + 1..]
    ensures Sane(r)
    ensures forall x :: x in r <==> x in vals && x != vals[p]
  {
    DropAt(vals, p, r);
    assert forall i :: 0 < i < |r| ==> r[i - 1] < r[i] by {
      forall i | 0 < i < |r|
        ensures r[i - 1] < r[i]
      {
        if i == p { assert vals[i - 1] < vals[i + 1]; }
      }
    }
    forall x | x in vals && x != vals[p]
      ensures x in r
    {
      var j :| 0 <= j < |vals| && vals[j] == x;
      if j < p { assert r[j] == x; } else { assert r[j - 1] == x; }
    }
    forall x | x in r
      ensures x != vals[p]
    {
      var j :| 0 <= j < |r| && r[j] == x;
      if j < p { assert vals[j] < vals[p]; } else { assert vals[p] < vals[j + 1]; }
    }
  }

  /**
   * insert keeps a sane list sane (for a value above the sentinel's) and
   * adds exactly `v`, never a duplicate.
   */
  lemma InsertedSane(vals: seq<int>, v: int)
    requires Sane(vals) && SENTINEL_VAL < v
    ensures Sane(Inserted(vals, v))
    ensures forall x :: x in Inserted(vals, v) <==> x in vals || x == v
    ensures v !in vals ==> |Inserted(vals, v)| == |vals| + 1
  {
    SaneSorted(vals);
    StopsOnMember(vals, v);
    if !StopsOn(vals, v) {
      SpliceSane(vals, FirstAtLeast(vals, v), v, Inserted(vals, v));
    }
  }

  /** remove keeps a sane list sane and takes out exactly `v`, changing nothing else. */
  lemma RemovedSane(vals: seq<int>, v: int)
    requires Sane(vals)
    ensures Sane(Removed(vals, v))
    ensures forall x :: x in Removed(vals, v) <==> x in vals && x != v
  {
    SaneSorted(vals);
    StopsOnMember(vals, v);
    if StopsOn(vals, v) {
      DropSane(vals, FirstAtLeast(vals, v), Removed(vals, v));
    }
  }

  class List {
    /** The values of the nodes after the sentinel, in list order. */
    var vals: seq<int>

    /** List(): just the sentinel. */
    constructor()
      ensures vals == [] && Sane(vals)
    {
      vals := [];
    }

    /** isSane: walk the list comparing each node with the one before it. */
    method IsSane() returns (r: bool)
      ensures r <==> Sane(vals)
    {
      var prev := SENTINEL_VAL;
      var i := 0;
      while i < |vals|
        invariant 0 <= i <= |vals| && prev == (if i == 0 then SENTINEL_VAL else vals[i - 1])
        invariant Sane(vals[..i])
      {
        if prev >= vals[i] {
          return false;
        }
        prev := vals[i];
        i := i + 1;
      }
      assert vals[..i] == vals;
      return true;
    }

    /** extendedSanityCheck: isSane, and `check(x, param)` holds for every value. */
    method ExtendedSanityCheck(check: (int, nat) -> bool, param: nat) returns (r: bool)
      ensures r <==> Sane(vals) && forall i :: 0 <= i < |vals| ==> check(vals[i], param)
    {
      var prev := SENTINEL_VAL;
      var i := 0;
      while i < |vals|
        invariant 0 <= i <= |vals| && prev == (if i == 0 then SENTINEL_VAL else vals[i - 1])
        invariant Sane(vals[..i]) && forall j :: 0 <= j < i ==> check(vals[j], param)
      {
        if !check(vals[i], param) || prev >= vals[i] {
          return false;
        }
        prev := vals[i];
        i := i + 1;
      }
      assert vals[..i] == vals;
      return true;
    }

    /** The traversal shared by insert, lookup and remove: stop at the first value not below `v`. */
    method Traverse(v: int) returns (p: nat)
      ensures p == FirstAtLeast(vals, v)
    {
      p := 0;
      while p < |vals| && vals[p] < v
        invariant p <= |vals| && FirstAtLeast(vals, v) == p + FirstAtLeast(vals[p..], v)
        decreases |vals| - p
      {
        assert vals[p..][1..] == vals[p + 1..];
        p := p + 1;
      }
    }

    /** insert: link a new node in before the stopping point unless that node holds `v`. */
    method Insert(v: int)
      modifies this
      ensures vals == Inserted(old(vals), v)
    {
      var p := Traverse(v);
      if p == |vals| || vals[p] > v {
        vals := vals[..p] + [v] + vals[p..];
      }
    }

    /** lookup: whether the traversal stops on a node holding `v`; in a sane list, whether `v` is present. */
    method Lookup(v: int) returns (found: bool)
      ensures found <==> StopsOn(vals, v)
      ensures Sane(vals) ==> (found <==> v in vals)
    {
      var p := Traverse(v);
      found := p < |vals| && vals[p] == v;
      if Sane(vals) {
        SaneSorted(vals);
        StopsOnMember(vals, v);
      }
    }

    /** remove: unlink the node holding `v`, if the traversal stops on one. */
    method Remove(v: int)
      modifies this
      ensures vals == Removed(old(vals), v)
    {
      var p := 0;
      while p < |vals|
        invariant p <= |vals| && forall j :: 0 <= j < p ==> vals[j] < v
        decreases |vals| - p
      {
        if vals[p] == v {
          assert FirstAtLeast(vals, v) == p by { FirstAtLeastAt(vals, v, p); }
          vals := vals[..p] + vals[p + 1..];
          return;
        } else if vals[p] > v {
          FirstAtLeastAt(vals, v, p);
          return;
        }
        p := p + 1;
      }
      FirstAtLeastAt(vals, v, p);
    }

    /** findmax: the last value, or the sentinel's -1 in an empty list; in a sane list, the largest value. */
    method FindMax() returns (max: int)
      ensures max == if |vals| == 0 then SENTINEL_VAL else vals[|vals| - 1]
      ensures Sane(vals) && |vals| > 0 ==> max in vals && forall x :: x in vals ==> x <= max
    {
      max := SENTINEL_VAL;
      var i := 0;
      while i < |vals|
        invariant 0 <= i <= |vals| && max == (if i == 0 then SENTINEL_VAL else vals[i - 1])
      {
        max := vals[i];
        i := i + 1;
      }
      if Sane(vals) {
        SaneSorted(vals);
      }
    }

    /** findmin: the first value, or -1 in an empty list; in a sane list, the smallest value. */
    method FindMin() returns (min: int)
      ensures min == if |vals| == 0 then SENTINEL_VAL else vals[0]
      ensures Sane(vals) && |vals| > 0 ==> min in vals && forall x :: x in vals ==> min <= x
    {
      min := SENTINEL_VAL;
      if |vals| > 0 {
        min := vals[0];
      }
      if Sane(vals) {
        SaneSorted(vals);
      }
    }

    /** overwrite: write every value below `v` back unchanged, so the list is the same. */
    method Overwrite(v: int)
      modifies this
      ensures vals == old(vals)
    {
      var i := 0;
      while i < |vals| && vals[i] < v
        invariant i <= |vals| && vals == old(vals)
        decreases |vals| - i
      {
        vals := vals[i := vals[i]];
        i := i + 1;
      }
    }
  }

  /** The stopping point is the first position whose value is not below `v`. */
  lemma FirstAtLeastAt(vals: seq<int>, v: int, p: nat)
    requires p <= |vals| && forall j :: 0 <= j < p ==> vals[j] < v
    requires p < |vals| ==> vals[p] >= v
    ensures FirstAtLeast(vals, v) == p
  {
    var q := FirstAtLeast(vals, v);
    assert !(q < p) && !(p < q);
  }
}
