/**
 The block index as a tree: blocks point to their parent and, once BuildSkip has run, to one
 farther ancestor. A block is named by its position; NONE is the null pointer.
 */
module BlockTree {
  import opened SkipHeights

  datatype Block = Block(prev: int, skip: int, height: nat)

  type Tree = seq<Block>

  const NONE := -1

  // ----- well-formed trees

  /** Parents come earlier and one level down; a block without a parent starts a chain. */
  ghost predicate Linked(t: Tree) {
    forall i :: 0 <= i < |t| ==>
      if t[i].prev == NONE then t[i].height == 0
      else 0 <= t[i].prev < i && t[i].height == t[t[i].prev].height + 1
  }

  /** The ancestor at a given height by following parents alone. */
  function Walk(t: Tree, i: nat, height: nat): (r: nat)
    requires Linked(t) && i < |t| && height <= t[i].height
    ensures r < |t| && t[r].height == height
  {
    if t[i].height == height then i else Walk(t, t[i].prev, height)
  }

  /** Every skip pointer that is set leads to the ancestor at the skip height. */
  ghost predicate Skips(t: Tree)
    requires Linked(t)
  {
    forall i :: 0 <= i < |t| && t[i].skip != NONE ==>
      t[i].height > 0 && t[i].skip == Walk(t, i, GetSkipHeight(t[i].height))
  }

  ghost predicate WellFormed(t: Tree) {
    Linked(t) && Skips(t)
  }

  /** Walking in two stages is walking. */
  lemma {:induction false} WalkWalk(t: Tree, i: nat, mid: nat, height: nat)
    requires Linked(t) && i < |t| && height <= mid <= t[i].height
    ensures Walk(t, Walk(t, i, mid), height) == Walk(t, i, height)
  {
    if t[i].height != mid {
      WalkWalk(t, t[i].prev, mid, height);
    }
  }

  lemma WalkPrev(t: Tree, i: nat, height: nat)
    requires Linked(t) && i < |t| && height < t[i].height
    ensures 0 <= t[i].prev < |t| && t[t[i].prev].height == t[i].height - 1
    ensures Walk(t, i, height) == Walk(t, t[i].prev, height)
  {}

  /** Appending blocks changes no ancestry. */
  lemma {:induction false} WalkGrows(t: Tree, u: Tree, i: nat, height: nat)
    requires Linked(t) && Linked(u) && t <= u && i < |t| && height <= t[i].height
    ensures Walk(u, i, height) == Walk(t, i, height)
  {
    assert u[i] == t[i];
    if t[i].height != height {
      WalkGrows(t, u, t[i].prev, height);
    }
  }

  /** Following a skip pointer stays on the line of descent. */
  lemma SkipStep(t: Tree, i: nat, walk: nat)
    requires WellFormed(t) && i < |t| && walk < |t| && t[walk].height <= t[i].height && t[walk].skip != NONE
    requires walk == Walk(t, i, t[walk].height)
    ensures t[walk].skip == Walk(t, i, GetSkipHeight(t[walk].height))
  {
    WalkWalk(t, i, t[walk].height, GetSkipHeight(t[walk].height));
  }

  lemma ParentStep(t: Tree, i: nat, walk: nat)
    requires Linked(t) && i < |t| && walk < |t| && 0 < t[walk].height <= t[i].height
    requires walk == Walk(t, i, t[walk].height)
    ensures t[walk].prev == Walk(t, i, t[walk].height - 1)
  {
    WalkPrev(t, walk, t[walk].height - 1);
    WalkWalk(t, i, t[walk].height, t[walk].height - 1);
  }

  // ----- the fast walk

  /** Every block with a parent has its skip pointer set. */
  ghost predicate SkipsSet(t: Tree) {
    forall i :: 0 <= i < |t| && t[i].prev != NONE ==> t[i].skip != NONE
  }

  /** Follows a skip pointer where that does not overshoot and the parent's would not do better. The
      loop runs `steps` times. */
  method GetAncestor(t: Tree, i: nat, height: int) returns (r: int, ghost steps: nat)
    requires WellFormed(t) && i < |t|
    ensures r == if 0 <= height <= t[i].height then Walk(t, i, height) else NONE
    ensures SkipsSet(t) && 0 <= height <= t[i].height ==> steps == Steps(t[i].height, height)
    ensures SkipsSet(t) ==> FewSteps(t[i].height, steps)
  {
    steps := 0;
    hide Walk;
    hide GetSkipHeight;
    hide Linked;
    hide Skips;
    hide FewSteps;
    if height > t[i].height || height < 0 {
      NoStepsAreFew(t[i].height);
      return NONE, 0;
    }
    var walk := i;
    var heightWalk := t[i].height;
    WalkSelf(t, i);
    while heightWalk > height
      invariant height <= heightWalk <= t[i].height && walk == Walk(t, i, heightWalk)
      invariant SkipsSet(t) ==> steps + Steps(heightWalk, height) == Steps(t[i].height, height)
      decreases heightWalk
    {
      WalkHasParent(t, walk);
      steps := steps + 1;
      var heightSkip := GetSkipHeight(heightWalk);
      var heightSkipPrev := GetSkipHeight(heightWalk - 1);
      if t[walk].skip != NONE
         && (heightSkip == height
             || (heightSkip > height && !(heightSkipPrev < heightSkip - 2 && heightSkipPrev >= height))) {
        SkipStep(t, i, walk);
        walk := t[walk].skip;
        heightWalk := heightSkip;
      } else {
        ParentStep(t, i, walk);
        assert t[walk].prev != NONE;
        walk := t[walk].prev;
        heightWalk := heightWalk - 1;
      }
    }
    r := walk;
    StepsAreFew(t[i].height, height);
  }

  /** The highest block that two blocks both descend from. */
  ghost predicate IsLastCommon(t: Tree, a: nat, b: nat, r: nat)
    requires Linked(t) && a < |t| && b < |t|
  {
    && r < |t| && t[r].height <= t[a].height && t[r].height <= t[b].height
    && Walk(t, a, t[r].height) == r == Walk(t, b, t[r].height)
    && forall k :: t[r].height < k <= t[a].height && k <= t[b].height ==> Walk(t, a, k) != Walk(t, b, k)
  }

  /** All blocks descend from the first. */
  ghost predicate Rooted(t: Tree) {
    forall i :: 0 < i < |t| ==> t[i].prev != NONE
  }

  method LastCommonAncestor(t: Tree, a: nat, b: nat) returns (r: nat)
    requires WellFormed(t) && Rooted(t) && a < |t| && b < |t|
    ensures IsLastCommon(t, a, b, r)
  {
    hide Walk;
    var pa: int, pb: int := a, b;
    WalkSelf(t, a);
    WalkSelf(t, b);
    ghost var steps := 0;
    if t[a].height > t[b].height {
      pa, steps := GetAncestor(t, a, t[b].height);
    } else if t[b].height > t[a].height {
      pb, steps := GetAncestor(t, b, t[a].height);
    }
    while pa != pb && pa != NONE && pb != NONE
      invariant 0 <= pa < |t| && 0 <= pb < |t|
      invariant Level(t, a, b, pa, pb)
      decreases pa
    {
      Down(t, a, b, pa, pb);
      pa := t[pa].prev;
      pb := t[pb].prev;
    }
    r := pa;
  }

  lemma ParentEarlier(t: Tree, i: nat)
    requires Linked(t) && i < |t| && t[i].height > 0
    ensures 0 <= t[i].prev < i
  {}

  lemma WalkHasParent(t: Tree, i: nat)
    requires Linked(t) && i < |t| && t[i].height > 0
    ensures t[i].prev != NONE
  {}

  lemma WalkSelf(t: Tree, i: nat)
    requires Linked(t) && i < |t|
    ensures Walk(t, i, t[i].height) == i
  {}

  /** Both cursors are at the same height, and the two lines of descent differ above it. */
  ghost predicate Level(t: Tree, a: nat, b: nat, pa: nat, pb: nat)
    requires Linked(t) && a < |t| && b < |t| && pa < |t| && pb < |t|
  {
    && t[pa].height == t[pb].height <= t[a].height && t[pa].height <= t[b].height
    && pa == Walk(t, a, t[pa].height) && pb == Walk(t, b, t[pa].height)
    && forall k :: t[pa].height < k <= t[a].height && k <= t[b].height ==> Walk(t, a, k) != Walk(t, b, k)
  }

  lemma Down(t: Tree, a: nat, b: nat, pa: nat, pb: nat)
    requires Linked(t) && Rooted(t) && a < |t| && b < |t| && pa < |t| && pb < |t| && pa != pb
    requires Level(t, a, b, pa, pb)
    ensures 0 <= t[pa].prev < pa && 0 <= t[pb].prev < |t| && Level(t, a, b, t[pa].prev, t[pb].prev)
  {
    hide Walk;
    hide Linked;
    hide Rooted;
    var h := t[pa].height;
    OneRoot(t, pa, pb);
    WalkWalk(t, a, h, h - 1);
    WalkWalk(t, b, h, h - 1);
    WalkPrev(t, pa, h - 1);
    WalkPrev(t, pb, h - 1);
    WalkSelf(t, t[pa].prev);
    WalkSelf(t, t[pb].prev);
    ParentEarlier(t, pa);
  }

  /** Two different blocks at the same height are not both the root. */
  lemma OneRoot(t: Tree, a: nat, b: nat)
    requires Linked(t) && Rooted(t) && a < |t| && b < |t| && a != b && t[a].height == t[b].height
    ensures t[a].height > 0
  {}

  // ----- growing the tree

  class BlockIndex {
    var blocks: Tree

    ghost predicate Valid()
      reads this
    {
      WellFormed(blocks) && SkipsSet(blocks)
    }

    constructor ()
      ensures Valid() && blocks == []
    {
      blocks := [];
    }

    /** Appends a block under a parent and builds its skip pointer. */
    method AddBlock(prev: int) returns (i: nat)
      requires Valid() && (prev == NONE || 0 <= prev < |blocks|)
      modifies this
      ensures Valid() && i == |old(blocks)| && |blocks| == i + 1 && old(blocks) <= blocks
      ensures blocks[i].prev == prev && (blocks[i].skip != NONE <==> prev != NONE)
    {
      i := |blocks|;
      ghost var t := blocks;
      if prev == NONE {
        blocks := blocks + [Block(NONE, NONE, 0)];
        StillWellFormed(t, blocks);
      } else {
        var height := blocks[prev].height + 1;
        var skip, steps := GetAncestor(blocks, prev, GetSkipHeight(height));
        blocks := blocks + [Block(prev, skip, height)];
        StillWellFormed(t, blocks);
      }
    }
  }

  lemma StillWellFormed(t: Tree, u: Tree)
    requires WellFormed(t) && |u| == |t| + 1 && t <= u
    requires var b := u[|t|];
      if b.prev == NONE then b.height == 0 && b.skip == NONE
      else && 0 <= b.prev < |t| && b.height == t[b.prev].height + 1
           && b.skip == Walk(t, b.prev, GetSkipHeight(b.height))
    ensures WellFormed(u)
  {
    forall i | 0 <= i < |u|
      ensures if u[i].prev == NONE then u[i].height == 0
              else 0 <= u[i].prev < i && u[i].height == u[u[i].prev].height + 1
    {
      if i < |t| {
        assert u[i] == t[i];
      }
    }
    assert Linked(u);
    forall i | 0 <= i < |u| && u[i].skip != NONE
      ensures u[i].height > 0 && u[i].skip == Walk(u, i, GetSkipHeight(u[i].height))
    {
      if i < |t| {
        assert u[i] == t[i];
        WalkGrows(t, u, i, GetSkipHeight(t[i].height));
      } else {
        WalkPrev(u, i, GetSkipHeight(u[i].height));
        WalkGrows(t, u, u[i].prev, GetSkipHeight(u[i].height));
      }
    }
  }
}
