/** Sequence vocabulary shared by the kernel models: lists without repetition
    and the removal of one element from such a list. */
module Lists {

  ghost predicate NoDup<T>(s: seq<T>) {
    forall i, j :: 0 <= i < j < |s| ==> s[i] != s[j]
  }

  /** The position of x in s. */
  function IndexOf<T(==)>(s: seq<T>, x: T): (k: nat)
    requires x in s
    ensures k < |s| && s[k] == x
  {
    if s[0] == x then 0 else 1 + IndexOf(s[1..], x)
  }

  lemma IndexUnique<T>(s: seq<T>, x: T, k: nat)
    requires NoDup(s) && k < |s| && s[k] == x
    ensures IndexOf(s, x) == k
  {
  }

  /** s with x taken out; s itself when x is not in it. */
  function Without<T(==)>(s: seq<T>, x: T): (r: seq<T>)
  {
    if x in s then var k := IndexOf(s, x); s[..k] + s[k + 1..] else s
  }

  /** Where the elements of a list are once x is taken out. */
  lemma WithoutAt<T>(s: seq<T>, x: T)
    requires x in s
    ensures var k, r := IndexOf(s, x), Without(s, x);
      |r| == |s| - 1 && forall i :: 0 <= i < |r| ==> r[i] == s[if i < k then i else i + 1]
  {
    hide IndexOf;
  }

  /** Taking x out of a list without repetition leaves exactly the other elements, once each. */
  lemma WithoutKeepsTheRest<T>(s: seq<T>, x: T)
    requires NoDup(s)
    ensures NoDup(Without(s, x))
    ensures forall y :: y in Without(s, x) <==> y in s && y != x
    ensures |Without(s, x)| == if x in s then |s| - 1 else |s|
  {
    hide Without, IndexOf;
    if x in s {
      var k, r := IndexOf(s, x), Without(s, x);
      WithoutAt(s, x);
      forall y | y in s && y != x
        ensures y in r
      {
        var j :| 0 <= j < |s| && s[j] == y;
        assert r[if j < k then j else j - 1] == y;
      }
      forall y | y in r
        ensures y in s && y != x
      {
        var i :| 0 <= i < |r| && r[i] == y;
        assert s[if i < k then i else i + 1] == y;
      }
    } else {
      WithoutAbsent(s, x);
    }
  }

  lemma TakenOut<T>(ring: seq<T>, k: nat)
    requires k < |ring|
    ensures forall t :: t in ring <==> t == ring[k] || t in ring[..k] + ring[k + 1..]
  {
  }

  lemma WithoutAbsent<T>(s: seq<T>, x: T)
    requires x !in s
    ensures Without(s, x) == s
  {
  }

  /** A list without repetition is no longer than a list that has all its elements. */
  lemma {:induction false} SubsetNoLonger<T>(s: seq<T>, t: seq<T>)
    requires NoDup(s) && NoDup(t)
    requires forall x :: x in s ==> x in t
    ensures |s| <= |t|
    decreases |s|
  {
    if s != [] {
      var x := s[0];
      WithoutKeepsTheRest(t, x);
      SubsetNoLonger(s[1..], Without(t, x));
    }
  }

  /** s lists the members of S once each, and n is its cached length. */
  ghost predicate Enumerates<T>(s: seq<T>, S: set<T>, n: nat) {
    NoDup(s) && |s| == n && (forall x :: x in s ==> x in S) && (forall x :: x in S ==> x in s)
  }

  lemma EnumerateLess<T>(s: seq<T>, S: set<T>, n: nat, x: T)
    requires Enumerates(s, S, n) && x in S
    ensures n > 0 && Enumerates(Without(s, x), S - {x}, n - 1)
  {
    WithoutKeepsTheRest(s, x);
  }

  lemma EnumerateMore<T>(s: seq<T>, S: set<T>, n: nat, x: T)
    requires Enumerates(s, S, n) && x !in S
    ensures Enumerates([x] + s, S + {x}, n + 1)
  {
  }

  lemma NoDupConcat<T>(s: seq<T>, t: seq<T>)
    requires NoDup(s) && NoDup(t)
    requires forall x :: x in s ==> x !in t
    ensures NoDup(s + t)
  {
    forall i, j | 0 <= i < j < |s + t|
      ensures (s + t)[i] != (s + t)[j]
    {
      if i < |s| <= j { assert s[i] in s && t[j - |s|] in t; }
    }
  }

  lemma SubsetIsSmaller<T>(a: set<T>, b: set<T>)
    requires a <= b
    ensures |a| <= |b|
  {
    assert b == a + (b - a);
  }
}
