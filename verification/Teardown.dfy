/** Which frames hang below which in the user half of a root, and what is left once they are gone. */
module Teardown {
  import opened PageTree

  /** The frame of the given level on the way from g up to its root, g itself when it is not below that level. */
  ghost function Ancestor(w: Places, g: nat, level: nat): nat
    decreases level
  {
    if g !in w || w[g].level >= level || level == 0 then g
    else
      var a := Ancestor(w, g, level - 1);
      if a in w then w[a].parent else a
  }

  lemma {:induction false} AncestorHangs(t: Tables, w: Places, r: nat, g: nat, level: nat)
    requires Owned(t, w, r) && g in w && w[g].home == r && w[g].level <= level <= 4
    ensures var a := Ancestor(w, g, level);
      a in w && w[a].level == level && w[a].home == r && (level < 4 ==> a != r && Attached(t, w, r, a))
        && (level == 4 ==> a == r)
    decreases level
  {
    assert forall a :: a in w && w[a].home == r ==> a == r || Attached(t, w, r, a);
    if w[g].level < level {
      AncestorHangs(t, w, r, g, level - 1);
    } else if g != r {
      assert Attached(t, w, r, g);
    }
  }

  /** f and everything below it. */
  ghost function Subtree(w: Places, r: nat, f: nat): set<nat>
    requires f in w
  {
    set g | g in w && w[g].home == r && w[g].level <= w[f].level && Ancestor(w, g, w[f].level) == f
  }

  /** Everything below the first i slots of f. */
  ghost function Below(w: Places, r: nat, f: nat, i: nat): set<nat>
    requires f in w
  {
    set g | g in Subtree(w, r, f) && g != f && SlotBelow(w, f, g) < i
  }

  ghost function SlotBelow(w: Places, f: nat, g: nat): nat
    requires f in w
  {
    var a := if w[f].level > 0 then Ancestor(w, g, w[f].level - 1) else g;
    if a in w then w[a].index else 0
  }

  /** What hangs below f hangs below exactly one of its slots. */
  lemma UnderSlot(t: Tables, w: Places, r: nat, f: nat, g: nat)
    requires Owned(t, w, r) && f in t && f in w && w[f].home == r && 1 <= w[f].level <= 4
    requires g in Subtree(w, r, f) && g != f
    ensures var i := SlotBelow(w, f, g);
      i < Width(w, f) && i < |t[f]| && t[f][i].present && t[f][i].frame in w && g in Subtree(w, r, t[f][i].frame)
  {
    AncestorHangs(t, w, r, g, w[f].level - 1);
  }

  lemma OverSlot(t: Tables, w: Places, r: nat, f: nat, i: nat)
    requires Owned(t, w, r) && f in t && f in w && w[f].home == r && 1 <= w[f].level <= 4
    requires i < Width(w, f) && i < |t[f]| && t[f][i].present
    ensures var c := t[f][i].frame;
      && c in w && w[c].level == w[f].level - 1 && w[c].home == r && !t[f][i].huge && c != r
      && forall g :: g in Subtree(w, r, c) ==> g in Subtree(w, r, f) && g != f && SlotBelow(w, f, g) == i
  {
    assert Recorded(t, w, r, f, i);
  }

  /** An absent slot has nothing below it; a present one has exactly the subtree of what it points to. */
  lemma SlotByCase(t: Tables, w: Places, r: nat, f: nat, i: nat)
    requires Owned(t, w, r) && f in t && f in w && w[f].home == r && 1 <= w[f].level <= 4
    requires i < Width(w, f) && i < |t[f]|
    ensures !t[f][i].present ==> Below(w, r, f, i + 1) == Below(w, r, f, i)
    ensures t[f][i].present ==>
      var c := t[f][i].frame;
      && c in w && w[c].level == w[f].level - 1 && w[c].home == r && !t[f][i].huge && c != r
      && Subtree(w, r, c) <= Subtree(w, r, f) - {f}
      && Below(w, r, f, i + 1) == Below(w, r, f, i) + Subtree(w, r, c) && Below(w, r, f, i) !! Subtree(w, r, c)
  {
    hide Owned, Subtree, SlotBelow, Ancestor;
    forall g | g in Subtree(w, r, f) && g != f
      ensures var k := SlotBelow(w, f, g);
        k < |t[f]| && t[f][k].present && t[f][k].frame in w && g in Subtree(w, r, t[f][k].frame)
    {
      UnderSlot(t, w, r, f, g);
    }
    if t[f][i].present {
      OverSlot(t, w, r, f, i);
    }
  }

  lemma WholeSubtree(t: Tables, w: Places, r: nat, f: nat)
    requires Owned(t, w, r) && f in w && w[f].home == r && w[f].level <= 4
    ensures f in Subtree(w, r, f)
    ensures Below(w, r, f, 0) == {}
    ensures w[f].level == 0 ==> Subtree(w, r, f) == {f}
    ensures w[f].level >= 1 ==> Subtree(w, r, f) == Below(w, r, f, Width(w, f)) + {f}
    ensures f == r ==> Subtree(w, r, f) == Frames(w, r)
  {
    hide Attached, Recorded;
    var level := w[f].level;
    forall g | g in Subtree(w, r, f) && g != f && level >= 1
      ensures SlotBelow(w, f, g) < Width(w, f)
    {
      AncestorHangs(t, w, r, g, level - 1);
    }
    if f == r { WholeRoot(t, w, r); }
  }

  lemma WholeRoot(t: Tables, w: Places, r: nat)
    requires Owned(t, w, r)
    ensures Subtree(w, r, r) == Frames(w, r)
  {
    forall g | g in Frames(w, r)
      ensures g in Subtree(w, r, r)
    {
      if g != r { assert Attached(t, w, r, g); }
      AncestorHangs(t, w, r, g, 4);
    }
  }

  /** Walks from tables that stay are not affected by the tables that go. */
  lemma {:induction false} WalkInRest(t: Tables, t': Tables, w: Places, free: set<nat>, kernel: nat, g: nat,
          level: nat, va: nat)
    requires WellFormed(t', w, free, kernel) && (forall f :: f in t' ==> f in t && t'[f] == t[f])
    requires 1 <= level <= 4 && g in t' && w[g].level == level
    ensures Walk(t', g, level, va) == Walk(t, g, level, va)
    ensures Leaf(t', g, level, va) == Leaf(t, g, level, va)
    ensures Leaf(t, g, level, va).Some? ==>
      var pt := Leaf(t, g, level, va).value;
      pt in t' && t'[pt] == t[pt] && UserTables(t', g, level, va) == UserTables(t, g, level, va)
    decreases level
  {
    if level > 1 {
      var k := Index(level, va);
      assert ChildFits(t', w, kernel, g, k) && |t'[g]| == SLOTS;
      if t'[g][k].present && !t'[g][k].huge {
        WalkInRest(t, t', w, free, kernel, t'[g][k].frame, level - 1, va);
      }
    }
  }

  lemma RestIsWellFormed(t: Tables, w: Places, free: set<nat>, kernel: nat, r: nat)
    requires WellFormed(t, w, free, kernel) && Homed(w, kernel) && Owned(t, w, r) && r != kernel
    ensures var gone := Frames(w, r);
      WellFormed(t - gone, w - gone, free + gone, kernel) && Homed(w - gone, kernel)
  {
    var gone := Frames(w, r);
    var t', w' := t - gone, w - gone;
    forall f, i | f in t' && 0 <= i < SLOTS
      ensures ChildFits(t', w', kernel, f, i)
    {
      assert ChildFits(t, w, kernel, f, i);
      var c := t[f][i].frame;
      if c in gone && c != r {
        assert Attached(t, w, r, c);
      }
    }
  }

  /** Taking a root with its user half away leaves every other root and its ownership as they were. */
  lemma RestIsUnchanged(t: Tables, w: Places, free: set<nat>, kernel: nat, r: nat, s: nat)
    requires WellFormed(t, w, free, kernel) && Homed(w, kernel) && Owned(t, w, r) && r != kernel
    requires s != r && s in t && s in w && w[s].level == 4
    ensures var gone := Frames(w, r);
      && s in t - gone && s in w - gone
      && (forall va: nat :: Translate(t - gone, s, va) == Translate(t, s, va))
      && (forall va: nat :: SameAccess(t, t - gone, s, va))
      && (Owned(t, w, s) ==> Owned(t - gone, w - gone, s) && Frames(w - gone, s) == Frames(w, s))
  {
    var gone := Frames(w, r);
    var t', w' := t - gone, w - gone;
    RestIsWellFormed(t, w, free, kernel, r);
    assert s !in gone || Attached(t, w, r, s);
    forall va: nat
      ensures Translate(t', s, va) == Translate(t, s, va) && SameAccess(t, t', s, va)
    {
      WalkInRest(t, t', w', free + gone, kernel, s, 4, va);
    }
    if Owned(t, w, s) {
      RestIsOwned(t, w, r, s);
    }
  }

  lemma RestIsOwned(t: Tables, w: Places, r: nat, s: nat)
    requires Owned(t, w, r) && Owned(t, w, s) && s != r
    ensures var gone := Frames(w, r); Owned(t - gone, w - gone, s) && Frames(w - gone, s) == Frames(w, s)
  {
    var gone := Frames(w, r);
    var t', w' := t - gone, w - gone;
    forall f | f in w' && w'[f].home == s && f != s
      ensures Attached(t', w', s, f)
    {
      assert Attached(t, w, s, f);
    }
    forall p, i | p in t' && p in w' && w'[p].home == s && 0 <= i < Width(w', p) && i < |t'[p]|
      ensures Recorded(t', w', s, p, i)
    {
      assert Recorded(t, w, s, p, i);
    }
  }

  /** The table of a new address space: an empty user half and the kernel's upper half, closed to the user. */
  function UserRoot(k: seq<Entry>): (s: seq<Entry>)
    requires |k| == SLOTS
    ensures |s| == SLOTS && forall i :: 0 <= i < SLOTS ==> s[i] == if i < 256 then EMPTY else k[i].(user := false)
  {
    seq(SLOTS, (i: nat) => if i < 256 then EMPTY else if i < |k| then k[i].(user := false) else EMPTY)
  }

  lemma NewRootIsWellFormed(t: Tables, w: Places, free: set<nat>, kernel: nat, r: nat)
    requires WellFormed(t, w, free, kernel) && Homed(w, kernel) && r in free
    ensures kernel in t && |t[kernel]| == SLOTS
    ensures var t', w' := t[r := UserRoot(t[kernel])], w[r := Spot(4, r, 0, r)];
      WellFormed(t', w', free - {r}, kernel) && Homed(w', kernel) && Owned(t', w', r) && Frames(w', r) == {r}
  {
    var t', w' := t[r := UserRoot(t[kernel])], w[r := Spot(4, r, 0, r)];
    forall f, i | f in t' && 0 <= i < SLOTS
      ensures ChildFits(t', w', kernel, f, i)
    {
      assert ChildFits(t, w, kernel, if f == r then kernel else f, i);
    }
  }

  lemma NewRootChangesNothing(t: Tables, w: Places, free: set<nat>, kernel: nat, r: nat, s: nat)
    requires WellFormed(t, w, free, kernel) && Homed(w, kernel) && r in free && |t[kernel]| == SLOTS
    requires s in t && s in w && w[s].level == 4
    ensures var t', w' := t[r := UserRoot(t[kernel])], w[r := Spot(4, r, 0, r)];
      && s in w' && s != r
      && (forall va: nat :: Translate(t', s, va) == Translate(t, s, va))
      && (forall va: nat :: SameAccess(t, t', s, va))
      && (Owned(t, w, s) ==> Owned(t', w', s) && Frames(w', s) == Frames(w, s))
  {
    var t', w' := t[r := UserRoot(t[kernel])], w[r := Spot(4, r, 0, r)];
    forall va: nat
      ensures Translate(t', s, va) == Translate(t, s, va) && SameAccess(t, t', s, va)
    {
      WalkInRest(t', t, w, free, kernel, s, 4, va);
    }
    if Owned(t, w, s) {
      forall f | f in w' && w'[f].home == s && f != s
        ensures Attached(t', w', s, f)
      {
        assert Attached(t, w, s, f);
      }
      forall p, i | p in t' && p in w' && w'[p].home == s && 0 <= i < Width(w', p) && i < |t'[p]|
        ensures Recorded(t', w', s, p, i)
      {
        assert Recorded(t, w, s, p, i);
      }
    }
  }

  /** A new root maps nothing for the user and what the kernel maps above. */
  lemma NewRootMaps(t: Tables, w: Places, free: set<nat>, kernel: nat, r: nat, va: nat)
    requires WellFormed(t, w, free, kernel) && r in free && |t[kernel]| == SLOTS
    ensures var t' := t[r := UserRoot(t[kernel])];
      Translate(t', r, va) == if Index(4, va) < 256 then None else Translate(t, kernel, va)
  {
    var k := Index(4, va);
    assert ChildFits(t, w, kernel, kernel, k);
    if t[kernel][k].present && k >= 256 {
      WalkInRest(t[r := UserRoot(t[kernel])], t, w, free, kernel, t[kernel][k].frame, 3, va);
    }
  }

  /** Where the frames are once slot i of a level-1 table maps a fresh page: the page that was there has no place. */
  ghost function Replaced(t: Tables, w: Places, pt: nat, i: nat, f: nat, r: nat): Places
    requires pt in t && i < |t[pt]|
  {
    (if t[pt][i].present then w - {t[pt][i].frame} else w)[f := Spot(0, pt, i, r)]
  }

  /** An owned page whose slot is emptied leaves the tree, and nothing else changes. */
  lemma PageForgotten(t: Tables, w: Places, free: set<nat>, kernel: nat, pt: nat, i: nat, r: nat)
    requires WellFormed(t, w, free, kernel) && Homed(w, kernel) && Owned(t, w, r)
    requires pt in t && w[pt].level == 1 && w[pt].home == r && i < SLOTS && t[pt][i].present
    ensures var t', f := Put(t, pt, i, EMPTY), t[pt][i].frame;
      && f in w && w[f] == Spot(0, pt, i, r) && f !in t
      && WellFormed(t', w - {f}, free, kernel) && Homed(w - {f}, kernel)
      && Owned(t', w - {f}, r) && Frames(w - {f}, r) == Frames(w, r) - {f}
  {
    hide ChildFits, Attached;
    assert Recorded(t, w, r, pt, i);
    ForgottenKeepsShape(t, w, free, kernel, pt, i, t[pt][i].frame);
    ForgottenKeepsOwner(t, w, pt, i, r);
  }

  lemma ForgottenKeepsShape(t: Tables, w: Places, free: set<nat>, kernel: nat, pt: nat, i: nat, f: nat)
    requires WellFormed(t, w, free, kernel) && pt in t && w[pt].level == 1 && i < SLOTS && f in w && w[f].level == 0
    ensures WellFormed(Put(t, pt, i, EMPTY), w - {f}, free, kernel)
  {
    var t', w' := Put(t, pt, i, EMPTY), w - {f};
    forall g, k | g in t' && 0 <= k < SLOTS
      ensures ChildFits(t', w', kernel, g, k)
    {
      assert ChildFits(t, w, kernel, g, k);
    }
  }

  lemma ForgottenKeepsOwner(t: Tables, w: Places, pt: nat, i: nat, r: nat)
    requires Owned(t, w, r) && pt in t && pt in w && w[pt].level == 1 && w[pt].home == r && i < |t[pt]| == SLOTS
      && t[pt][i].present
    ensures var f := t[pt][i].frame; f in w && w[f] == Spot(0, pt, i, r) && Owned(Put(t, pt, i, EMPTY), w - {f}, r)
  {
    var t', f := Put(t, pt, i, EMPTY), t[pt][i].frame;
    var w' := w - {f};
    assert Recorded(t, w, r, pt, i);
    forall g | g in w' && w'[g].home == r && g != r
      ensures Attached(t', w', r, g)
    {
      assert Attached(t, w, r, g);
    }
    forall p, k | p in t' && p in w' && w'[p].home == r && 0 <= k < Width(w', p) && k < |t'[p]|
      ensures Recorded(t', w', r, p, k)
    {
      assert Recorded(t, w, r, p, k);
    }
  }

  lemma ForgottenKeepsOthers(t: Tables, w: Places, pt: nat, i: nat, f: nat, r: nat, s: nat)
    requires Owned(t, w, s) && s != r && f in w && w[f] == Spot(0, pt, i, r)
    requires pt in t && pt in w && w[pt].home == r && i < |t[pt]| && w[pt].level == 1
    ensures Owned(Put(t, pt, i, EMPTY), w - {f}, s)
  {
    var t', w' := Put(t, pt, i, EMPTY), w - {f};
    forall g | g in w' && w'[g].home == s && g != s
      ensures Attached(t', w', s, g)
    {
      assert Attached(t, w, s, g);
    }
    forall p, k | p in t' && p in w' && w'[p].home == s && 0 <= k < Width(w', p) && k < |t'[p]|
      ensures Recorded(t', w', s, p, k)
    {
      assert Recorded(t, w, s, p, k);
    }
  }

  /** A fresh page mapped at a slot of an owned level-1 table becomes part of the tree; the page that was mapped there
      is in no tree any more, though nobody gave it back. */
  lemma PageReplaced(t: Tables, w: Places, free: set<nat>, kernel: nat, pt: nat, i: nat, e: Entry, r: nat)
    requires WellFormed(t, w, free, kernel) && Homed(w, kernel) && Owned(t, w, r)
    requires pt in t && w[pt].level == 1 && w[pt].home == r && i < SLOTS
    requires e.present && !e.huge && e.frame !in w && e.frame !in free
    ensures var t', w', gone := Put(t, pt, i, e), Replaced(t, w, pt, i, e.frame,
      r), if t[pt][i].present then {t[pt][i].frame} else {};
      && WellFormed(t', w', free, kernel) && Homed(w', kernel) && Owned(t', w', r)
      && Frames(w', r) == Frames(w, r) - gone + {e.frame} && gone !! free && gone <= Frames(w, r)
      && (forall f :: f in t ==> f in w' && w'[f] == w[f])
  {
    hide WellFormed, Homed, Owned, Frames;
    TablesArePlaced(t, w, free, kernel);
    if t[pt][i].present {
      PageForgotten(t, w, free, kernel, pt, i, r);
      var t1, w1 := Put(t, pt, i, EMPTY), w - {t[pt][i].frame};
      LeafWriteKeepsShape(t1, w1, free, kernel, pt, i, e, Spot(0, pt, i, r), true);
      OwnedPageWrite(t1, w1, free, kernel, pt, i, e, r);
      RootIsHome(t1, w1, r);
      HomedMore(w1, kernel, e.frame, Spot(0, pt, i, r));
      PutTwice(t, pt, i, EMPTY, e);
      FramesHas(w, r, t[pt][i].frame);
    } else {
      LeafWriteKeepsShape(t, w, free, kernel, pt, i, e, Spot(0, pt, i, r), true);
      OwnedPageWrite(t, w, free, kernel, pt, i, e, r);
      RootIsHome(t, w, r);
      HomedMore(w, kernel, e.frame, Spot(0, pt, i, r));
    }
  }

  lemma PutTwice(t: Tables, pt: nat, i: nat, x: Entry, e: Entry)
    requires pt in t && i < |t[pt]|
    ensures Put(Put(t, pt, i, x), pt, i, e) == Put(t, pt, i, e)
  {
    assert t[pt][i := x][i := e] == t[pt][i := e];
  }

  lemma FramesHas(w: Places, r: nat, f: nat)
    ensures f in Frames(w, r) <==> f in w && w[f].home == r
  {
  }

  lemma RootIsHome(t: Tables, w: Places, r: nat)
    requires Owned(t, w, r)
    ensures r in w && w[r].home == r && r in t
  {
  }

  lemma TablesArePlaced(t: Tables, w: Places, free: set<nat>, kernel: nat)
    requires WellFormed(t, w, free, kernel)
    ensures forall f :: f in t ==> f in w && |t[f]| == SLOTS
    ensures forall f :: f in w ==> f !in free
  {
  }

  /** Replacing a page of one root leaves the other roots' ownership alone. */
  lemma PageReplacedKeepsOthers(t: Tables, w: Places, free: set<nat>, kernel: nat, pt: nat, i: nat, e: Entry, r: nat,
          s: nat)
    requires WellFormed(t, w, free, kernel) && Homed(w, kernel) && Owned(t, w, r) && s != r
    requires pt in t && w[pt].level == 1 && w[pt].home == r && i < SLOTS && e.frame !in w
    ensures var t', w' := Put(t, pt, i, e), Replaced(t, w, pt, i, e.frame, r);
      (Owned(t, w, s) ==> Owned(t', w', s)) && Frames(w', s) == Frames(w, s)
  {
    hide WellFormed, Homed, Owned, Frames;
    TablesArePlaced(t, w, free, kernel);
    if t[pt][i].present {
      PageForgotten(t, w, free, kernel, pt, i, r);
      var f := t[pt][i].frame;
      var t1, w1 := Put(t, pt, i, EMPTY), w - {f};
      FramesLess(w, f, s);
      FramesOfOthers(w1, e.frame, Spot(0, pt, i, r), s);
      if Owned(t, w, s) {
        ForgottenKeepsOthers(t, w, pt, i, f, r, s);
        PageWriteKeepsOthers(t1, w1, pt, i, e, r, s);
        PutTwice(t, pt, i, EMPTY, e);
      }
    } else {
      FramesOfOthers(w, e.frame, Spot(0, pt, i, r), s);
      if Owned(t, w, s) { PageWriteKeepsOthers(t, w, pt, i, e, r, s); }
    }
  }

  lemma FramesLess(w: Places, f: nat, s: nat)
    requires f in w && w[f].home != s
    ensures Frames(w - {f}, s) == Frames(w, s)
  {
  }

  lemma FramesOfOthers(w: Places, f: nat, spot: Spot, s: nat)
    requires f !in w && spot.home != s
    ensures Frames(w[f := spot], s) == Frames(w, s)
  {
  }

  /** Recording a page of one root leaves the other roots' ownership alone. */
  lemma PageWriteKeepsOthers(t: Tables, w: Places, pt: nat, i: nat, e: Entry, r: nat, s: nat)
    requires Owned(t, w, s) && s != r && e.frame !in w
    requires pt in t && pt in w && w[pt].home == r && i < |t[pt]| && w[pt].level == 1
    ensures Owned(Put(t, pt, i, e), w[e.frame := Spot(0, pt, i, r)], s)
  {
    var t', w' := Put(t, pt, i, e), w[e.frame := Spot(0, pt, i, r)];
    forall f | f in w' && w'[f].home == s && f != s
      ensures Attached(t', w', s, f)
    {
      assert Attached(t, w, s, f);
    }
    forall p, k | p in t' && p in w' && w'[p].home == s && 0 <= k < Width(w', p) && k < |t'[p]|
      ensures Recorded(t', w', s, p, k)
    {
      assert Recorded(t, w, s, p, k);
    }
  }
}
