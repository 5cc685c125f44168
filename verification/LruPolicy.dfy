/** The replacement policy of the page cache on keys alone, and why it is exact LRU. */
module LruPolicy {
  import opened Lists

  /** How many of n pages stay when room is made for one more. */
  function Kept(n: nat, max: nat): nat {
    if n < max || max == 0 then n else max - 1
  }

  /** How many of n pages fit in a cache of max pages. */
  function Fitting(n: nat, max: nat): nat {
    if n <= max then n else max
  }

  /** One access: a hit moves to the front, a miss enters at the front after the tail was evicted. */
  function Step<T(==)>(l: seq<T>, x: T, max: nat): seq<T> {
    if x in l then [x] + Without(l, x) else [x] + l[..Kept(|l|, max)]
  }

  function Replay<T(==)>(trace: seq<T>, max: nat): seq<T> {
    if trace == [] then [] else Step(Replay(trace[..|trace| - 1], max), trace[|trace| - 1], max)
  }

  /** The distinct keys of a trace, most recently used first. */
  function Recent<T(==)>(trace: seq<T>): seq<T> {
    if trace == [] then []
    else [trace[|trace| - 1]] + Without(Recent(trace[..|trace| - 1]), trace[|trace| - 1])
  }

  lemma {:induction false} RecentNoDup<T>(trace: seq<T>)
    ensures NoDup(Recent(trace))
  {
    if trace != [] {
      var rest := trace[..|trace| - 1];
      RecentNoDup(rest);
      WithoutKeepsTheRest(Recent(rest), trace[|trace| - 1]);
    }
  }

  /** A hit among the first m keys only reorders them. */
  lemma HitInside<T>(r: seq<T>, x: T, m: nat)
    requires NoDup(r) && x in r && IndexOf(r, x) < m <= |r|
    ensures x in r[..m] && [x] + Without(r[..m], x) == ([x] + Without(r, x))[..m]
  {
    hide NoDup, IndexOf, Without;
    IndexInPrefix(r, x, m);
    WithoutAt(r, x);
    WithoutAt(r[..m], x);
    assert Without(r[..m], x) == Without(r, x)[..m - 1];
  }

  /** A key behind the first m enters in front of the first m - 1. */
  lemma HitOutside<T>(r: seq<T>, x: T, m: nat)
    requires NoDup(r) && x in r && 0 < m <= IndexOf(r, x)
    ensures x !in r[..m] && [x] + r[..m][..m - 1] == ([x] + Without(r, x))[..m]
  {
    hide NoDup, IndexOf, Without;
    IndexInPrefix(r, x, m);
    WithoutAt(r, x);
    assert Without(r, x)[..m - 1] == r[..m - 1];
  }

  lemma StepOnPrefix<T>(r: seq<T>, x: T, max: nat)
    requires NoDup(r) && max > 0
    ensures var r' := [x] + Without(r, x);
      Step(r[..Fitting(|r|, max)], x, max) == r'[..Fitting(|r'|, max)]
  {
    hide NoDup, IndexOf, Without;
    var m := Fitting(|r|, max);
    if x in r {
      WithoutAt(r, x);
      if IndexOf(r, x) < m { HitInside(r, x, m); } else { HitOutside(r, x, m); }
    } else {
      WithoutAbsent(r, x);
      assert x !in r[..m];
      assert m == max ==> r[..m][..max - 1] == r[..max - 1];
    }
  }

  lemma IndexInPrefix<T>(r: seq<T>, x: T, m: nat)
    requires NoDup(r) && x in r && m <= |r|
    ensures if IndexOf(r, x) < m then x in r[..m] && IndexOf(r[..m], x) == IndexOf(r, x) else x !in r[..m]
  {
    var k := IndexOf(r, x);
    if k < m {
      assert r[..m][k] == x;
      IndexUnique(r[..m], x, k);
    }
  }

  /** After any trace a cache of max pages holds exactly the max most recently used keys, in order of recency. */
  lemma {:induction false} CacheHoldsMostRecent<T>(trace: seq<T>, max: nat)
    requires max > 0
    ensures Replay(trace, max) == Recent(trace)[..Fitting(|Recent(trace)|, max)]
  {
    if trace != [] {
      var rest := trace[..|trace| - 1];
      CacheHoldsMostRecent(rest, max);
      RecentNoDup(rest);
      StepOnPrefix(Recent(rest), trace[|trace| - 1], max);
    }
  }
}
