/** Cluster chains: linked lists stored in the entries of a file allocation table. */
module ClusterChains {
  import opened Lists

  const FREE: nat := 0

  /** A file allocation table; entry c tells what follows cluster c. */
  type Fat = seq<nat>

  predicate Usable(fat: Fat, c: nat) {
    2 <= c < |fat|
  }

  ghost predicate Apart(p: seq<nat>, q: seq<nat>) {
    forall i, j :: 0 <= i < |p| && 0 <= j < |q| ==> p[i] != q[j]
  }

  /** Each entry of the path leads to the next cluster of the path. */
  ghost predicate Linked(fat: Fat, path: seq<nat>) {
    && NoDup(path)
    && (forall i :: 0 <= i < |path| ==> Usable(fat, path[i]))
    && (forall i :: 0 < i < |path| ==> LinkedAt(fat, path, i))
  }

  predicate LinkedAt(fat: Fat, path: seq<nat>, i: nat)
    requires 0 < i < |path|
  {
    path[i - 1] < |fat| && fat[path[i - 1]] == path[i]
  }

  /** The whole chain of a file: linked, without a repetition, ended by a mark of at least end. */
  ghost predicate Chain(fat: Fat, path: seq<nat>, end: nat) {
    |path| > 0 && Linked(fat, path) && fat[path[|path| - 1]] >= end
  }

  /** What is at the end of an empty or nonempty chain. */
  ghost predicate ChainFrom(fat: Fat, first: nat, path: seq<nat>, end: nat) {
    if path == [] then first == 0 else Chain(fat, path, end) && path[0] == first
  }

  /** A chain is determined by its first cluster. */
  lemma {:induction false} ChainIsUnique(fat: Fat, p: seq<nat>, q: seq<nat>, end: nat)
    requires Chain(fat, p, end) && Chain(fat, q, end) && p[0] == q[0] && |fat| <= end
    ensures p == q
  {
    LinksAreNoMarks(fat, p, end);
    LinksAreNoMarks(fat, q, end);
    var i := 1;
    while i < |p| && i < |q|
      invariant 1 <= i && i <= |p| && i <= |q| && p[..i] == q[..i]
    {
      assert LinkedAt(fat, p, i) && LinkedAt(fat, q, i);
      assert p[i - 1] == p[..i][i - 1] && q[i - 1] == q[..i][i - 1];
      i := i + 1;
    }
    assert p[i - 1] == p[..i][i - 1] && q[i - 1] == q[..i][i - 1];
  }

  lemma LinksAreNoMarks(fat: Fat, path: seq<nat>, end: nat)
    requires Linked(fat, path) && |fat| <= end
    ensures forall i :: 0 <= i < |path| - 1 ==> fat[path[i]] < end
  {
    forall i | 0 <= i < |path| - 1
      ensures fat[path[i]] < end
    {
      assert LinkedAt(fat, path, i + 1);
    }
  }

  /** No cluster of a chain is free. */
  lemma ChainIsTaken(fat: Fat, path: seq<nat>, end: nat)
    requires Chain(fat, path, end) && end > 0
    ensures forall i :: 0 <= i < |path| ==> fat[path[i]] != FREE
  {
    forall i | 0 <= i < |path|
      ensures fat[path[i]] != FREE
    {
      assert i + 1 < |path| ==> LinkedAt(fat, path, i + 1);
    }
  }

  /** A chain none of whose entries changed is still a chain. */
  lemma ChainStays(fat: Fat, fat': Fat, path: seq<nat>, end: nat)
    requires Chain(fat, path, end) && |fat'| == |fat|
    requires forall i :: 0 <= i < |path| ==> fat'[path[i]] == fat[path[i]]
    ensures Chain(fat', path, end)
  {
    forall i | 0 < i < |path|
      ensures LinkedAt(fat', path, i)
    {
      assert LinkedAt(fat, path, i);
    }
  }

  /** A free cluster is put behind the last one. */
  lemma ChainGrows(fat: Fat, path: seq<nat>, c: nat, mark: nat, end: nat)
    requires Chain(fat, path, end) && Usable(fat, c) && fat[c] == FREE && mark >= end > 0
    ensures var fat' := fat[path[|path| - 1] := c][c := mark];
      Chain(fat', path + [c], end)
  {
    ChainIsTaken(fat, path, end);
    var last := path[|path| - 1];
    var fat', p := fat[last := c][c := mark], path + [c];
    assert forall i :: 0 <= i < |path| ==> p[i] == path[i] && path[i] != c;
    forall i | 0 < i < |p|
      ensures LinkedAt(fat', p, i)
    {
      if i < |path| { assert LinkedAt(fat, path, i); }
    }
  }

  /** All clusters of the path are free, the others as before. */
  function Released(fat: Fat, path: seq<nat>): (r: Fat)
    ensures |r| == |fat|
    ensures forall c :: 0 <= c < |fat| ==> r[c] == if c in path then FREE else fat[c]
  {
    seq(|fat|, (c: nat) => if c in path then FREE else if c < |fat| then fat[c] else FREE)
  }

  // ---- Growing and cutting the chain of one file among others ----

  /** The same entries for the clusters; the two reserved entries may differ. */
  ghost predicate SameTable(fat: Fat, fat': Fat) {
    |fat'| == |fat| && forall c: nat :: Usable(fat, c) ==> fat'[c] == fat[c]
  }

  /** The chain p became p' by taking free clusters behind it; no entry outside p' changed. */
  ghost predicate Grown(fat: Fat, fat': Fat, p: seq<nat>, p': seq<nat>) {
    && |fat'| == |fat| && p <= p'
    && (forall c: nat :: Usable(fat, c) && c !in p' ==> fat'[c] == fat[c])
    && (forall i :: |p| <= i < |p'| ==> Usable(fat, p'[i]) && fat[p'[i]] == FREE)
  }

  /** The chain p became its first n clusters; the others are free and no entry outside p changed. */
  ghost predicate Shrunk(fat: Fat, fat': Fat, p: seq<nat>, n: nat)
    requires n <= |p|
  {
    && |fat'| == |fat|
    && (forall c: nat :: Usable(fat, c) && c !in p ==> fat'[c] == fat[c])
    && (forall i :: n <= i < |p| && Usable(fat, p[i]) ==> fat'[p[i]] == FREE)
  }

  /** Whatever grows keeps the chains of all other files, and stays apart from them. */
  lemma OthersStayWhenGrown(fat: Fat, fat': Fat, p: seq<nat>, p': seq<nat>, q: seq<nat>, end: nat)
    requires Grown(fat, fat', p, p') && Chain(fat, q, end) && end > 0 && Apart(p, q)
    ensures Chain(fat', q, end) && Apart(p', q)
  {
    ChainIsTaken(fat, q, end);
    forall i, j | 0 <= i < |p'| && 0 <= j < |q|
      ensures p'[i] != q[j]
    {
      assert i < |p| ==> p'[i] == p[i];
    }
    ChainStays(fat, fat', q, end);
  }

  lemma OthersStayWhenShrunk(fat: Fat, fat': Fat, p: seq<nat>, n: nat, q: seq<nat>, end: nat)
    requires n <= |p| && Shrunk(fat, fat', p, n) && Chain(fat, q, end) && Apart(p, q)
    ensures Chain(fat', q, end) && Apart(p[..n], q)
  {
    ChainStays(fat, fat', q, end);
  }

  /** Where the link to a new last cluster is written. */
  function Link(fat: Fat, path: seq<nat>, c: nat, mark: nat): Fat
    requires c < |fat| && (path != [] ==> path[|path| - 1] < |fat|)
  {
    if path == [] then fat[c := mark] else fat[path[|path| - 1] := c][c := mark]
  }

  lemma GrowStep(fat0: Fat, p0: seq<nat>, fat: Fat, p: seq<nat>, c: nat, fat': Fat, end: nat)
    requires Grown(fat0, fat, p0, p) && (p != [] ==> Chain(fat, p, end)) && end > 0
    requires Usable(fat, c) && fat[c] == FREE && SameTable(Link(fat, p, c, end), fat')
    ensures Grown(fat0, fat', p0, p + [c]) && Chain(fat', p + [c], end)
  {
    var linked := Link(fat, p, c, end);
    if p == [] {
      assert Chain(linked, [c], end);
    } else {
      ChainGrows(fat, p, c, end, end);
      ChainIsTaken(fat, p, end);
    }
    assert forall x :: x in p + [c] <==> x in p || x == c;
    assert c !in p;
    ChainStays(linked, fat', p + [c], end);
  }

  /** Freeing the clusters behind the n-th and ending the chain there. */
  lemma CutStep(fat: Fat, p: seq<nat>, n: nat, end: nat)
    requires Chain(fat, p, end) && 0 < n <= |p|
    ensures var fat' := Released(fat, p[n..])[p[n - 1] := end];
      Chain(fat', p[..n], end) && Shrunk(fat, fat', p, n)
  {
    var mid := Released(fat, p[n..]);
    var fat' := mid[p[n - 1] := end];
    forall i | 0 <= i < n
      ensures mid[p[i]] == fat[p[i]]
    {
      assert p[i] !in p[n..];
    }
    forall i | n <= i < |p|
      ensures fat'[p[i]] == FREE
    {
      assert p[n..][i - n] == p[i];
    }
    assert forall x :: x in p[n..] ==> x in p;
    forall i | 0 < i < n
      ensures LinkedAt(fat', p[..n], i)
    {
      assert LinkedAt(fat, p, i);
    }
  }

  // ---- Counting ----

  /** The number of free clusters below n. */
  function FreeBelow(fat: Fat, n: nat): (r: nat)
    requires n <= |fat|
    ensures r <= n
  {
    if n <= 2 then 0 else FreeBelow(fat, n - 1) + if fat[n - 1] == FREE then 1 else 0
  }

  function FreeClusters(fat: Fat): nat {
    FreeBelow(fat, |fat|)
  }

  lemma {:induction false} FreeBelowUpdate(fat: Fat, c: nat, v: nat, n: nat)
    requires Usable(fat, c) && n <= |fat|
    ensures FreeBelow(fat[c := v], n) == FreeBelow(fat, n) +
      if c < n then (if v == FREE then 1 else 0) - (if fat[c] == FREE then 1 else 0) else 0
  {
    if n > 2 { FreeBelowUpdate(fat, c, v, n - 1); }
  }

  lemma {:induction false} SomeFree(fat: Fat, c: nat, n: nat)
    requires Usable(fat, c) && c < n <= |fat| && fat[c] == FREE
    ensures FreeBelow(fat, n) > 0
  {
    if c < n - 1 { SomeFree(fat, c, n - 1); }
  }

  lemma {:induction false} NoneFree(fat: Fat, n: nat)
    requires n <= |fat| && forall c :: 2 <= c < n ==> fat[c] != FREE
    ensures FreeBelow(fat, n) == 0
  {
    if n > 2 { NoneFree(fat, n - 1); }
  }

  ghost predicate Exhausted(fat: Fat) {
    forall c: nat :: Usable(fat, c) ==> fat[c] != FREE
  }

  /** Clusters taken from the free ones are as many fewer free ones. */
  lemma {:induction false} TakenAreCounted(fat: Fat, fat': Fat, q: seq<nat>)
    requires NoDup(q) && |fat'| == |fat|
    requires forall i :: 0 <= i < |q| ==> Usable(fat, q[i]) && fat[q[i]] == FREE && fat'[q[i]] != FREE
    requires forall c: nat :: Usable(fat, c) && c !in q ==> (fat'[c] == FREE <==> fat[c] == FREE)
    decreases |q|
    ensures FreeClusters(fat) == FreeClusters(fat') + |q|
  {
    if q == [] {
      SameCount(fat, fat', |fat|);
    } else {
      FreeBelowUpdate(fat, q[0], 1, |fat|);
      assert q == [q[0]] + q[1..];
      TakenAreCounted(fat[q[0] := 1], fat', q[1..]);
    }
  }

  lemma {:induction false} SameCount(fat: Fat, fat': Fat, n: nat)
    requires n <= |fat| == |fat'| && forall c: nat :: Usable(fat, c) ==> (fat'[c] == FREE <==> fat[c] == FREE)
    ensures FreeBelow(fat', n) == FreeBelow(fat, n)
  {
    if n > 2 { SameCount(fat, fat', n - 1); }
  }

  lemma ExhaustedIsNoneFree(fat: Fat)
    ensures Exhausted(fat) <==> FreeClusters(fat) == 0
  {
    if Exhausted(fat) {
      NoneFree(fat, |fat|);
    } else {
      var c: nat :| Usable(fat, c) && fat[c] == FREE;
      SomeFree(fat, c, |fat|);
    }
  }

  lemma ChainIsUsable(fat: Fat, first: nat, p: seq<nat>, end: nat)
    requires ChainFrom(fat, first, p, end)
    ensures NoDup(p) && forall i :: 0 <= i < |p| ==> Usable(fat, p[i])
  {
  }

  /** A chain that was cut gave its clusters back to the free ones. */
  lemma CuttingIsCounted(fat: Fat, fat': Fat, first: nat, first': nat, p: seq<nat>, n: nat, end: nat)
    requires n <= |p| && Shrunk(fat, fat', p, n) && ChainFrom(fat, first, p, end)
    requires ChainFrom(fat', first', p[..n], end) && end > 0
    ensures FreeClusters(fat') == FreeClusters(fat) + |p| - n
  {
    hide Chain, Linked;
    if p != [] { ChainIsTaken(fat, p, end); }
    if n > 0 { ChainIsTaken(fat', p[..n], end); }
    var q := p[n..];
    assert forall i :: 0 <= i < |q| ==> q[i] == p[n + i];
    ChainIsUsable(fat, first, p, end);
    assert p == p[..n] + q;
    forall c: nat | Usable(fat, c) && c !in q
      ensures fat'[c] == FREE <==> fat[c] == FREE
    {
      if c in p[..n] {
        var i :| 0 <= i < n && p[..n][i] == c;
        assert p[i] == c;
      }
    }
    TakenAreCounted(fat', fat, q);
  }

  /** A chain that grew took its new clusters from the free ones. */
  lemma GrowingIsCounted(fat: Fat, fat': Fat, first: nat, first': nat, p: seq<nat>, p': seq<nat>, end: nat)
    requires Grown(fat, fat', p, p') && ChainFrom(fat, first, p, end) && ChainFrom(fat', first', p', end) && end > 0
    ensures FreeClusters(fat) == FreeClusters(fat') + |p'| - |p|
  {
    if p != [] { ChainIsTaken(fat, p, end); }
    if p' != [] { ChainIsTaken(fat', p', end); }
    var q := p'[|p|..];
    assert forall i :: 0 <= i < |q| ==> q[i] == p'[|p| + i];
    assert p' == p + q;
    TakenAreCounted(fat, fat', q);
  }
}
