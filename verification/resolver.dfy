/**
 * The walk down the bracket: each node takes an alliance straight from alliance selection
 * when its seed is entitled to it, and otherwise from the node below that feeds the side,
 * then reconciles its own matches.
 */
module Resolver {
  import opened Types
  import opened Seeding
  import opened Queries
  import opened Reconciler

  /** The teams of alliance number k, counted from 1; an alliance that does not exist has
      no teams. */
  function TeamsOf(alliances: seq<Roster>, k: int): Roster {
    if 1 <= k <= |alliances| then alliances[k - 1] else []
  }

  /** The roster a side takes from alliance selection: its seed's teams when the node is
      entitled to that seed, otherwise the empty roster. */
  function DirectRoster(alliances: seq<Roster>, node: Node, side: Side): Roster
    requires ValidNode(node)
  {
    if IsDirect(node, |alliances|, side) then TeamsOf(alliances, SeedNumber(node, side)) else []
  }

  /** Resolves one side of a node: its direct roster when that is known, otherwise the
      winner of the node below that feeds the side. */
  function Resolve(st: Store, alliances: seq<Roster>, rng: Shuffler, node: Node, side: Side): (out: Step)
    requires ValidNode(node)
    ensures out.store.nextId >= st.nextId
    ensures out.result == Err(TooFewAlliances) ==> |alliances| < 2
    decreases 16 - node.round, 0
  {
    var direct := DirectRoster(alliances, node, side);
    if Known(direct) then Step(st, Ok(direct)) else Build(st, alliances, rng, Child(node, side))
  }

  /** Resolves the alliances of a node and reconciles its matches; red is resolved before
      blue, and the first error ends the walk with the store as written so far. A node
      with neither alliance known is left alone. The result is the node's winning
      alliance, or the empty roster while it is undecided. */
  function Build(st: Store, alliances: seq<Roster>, rng: Shuffler, node: Node): (out: Step)
    requires 1 <= node.round && 1 <= node.group <= node.round
    ensures out.store.nextId >= st.nextId
    ensures out.result == Err(TooFewAlliances) <==> |alliances| < 2
    ensures |alliances| >= 2 && !SupportedRound(node.round) ==>
              out == Step(st, Err(UnsupportedDepth(2 * node.round)))
    decreases 16 - node.round, 1
  {
    if |alliances| < 2 then Step(st, Err(TooFewAlliances))
    else if !SupportedRound(node.round) then Step(st, Err(UnsupportedDepth(2 * node.round)))
    else
      var r := Resolve(st, alliances, rng, node, Red);
      if r.result.Err? then r
      else
        var b := Resolve(r.store, alliances, rng, node, Blue);
        if b.result.Err? then b
        else if !Known(r.result.value) && !Known(b.result.value) then Step(b.store, Ok([]))
        else
          ReconcileKeepsOthers(b.store, node, r.result.value, b.result.value, rng);
          Reconcile(b.store, node, r.result.value, b.result.value, rng)
  }

  /** Every alliance has at least one team. */
  predicate AllKnown(alliances: seq<Roster>) {
    forall k :: 0 <= k < |alliances| ==> Known(alliances[k])
  }

  /** In a node whose seeds both name alliances, a side's direct roster is known exactly
      when the seeding rule lets the side take its seed from alliance selection, and it is
      then that seed's roster. */
  lemma DirectRosterKnown(alliances: seq<Roster>, node: Node, side: Side)
    requires ValidNode(node) && AllKnown(alliances) && SeedNumber(node, Blue) <= |alliances|
    ensures Known(DirectRoster(alliances, node, side)) <==> IsDirect(node, |alliances|, side)
    ensures IsDirect(node, |alliances|, side) ==>
              && 1 <= SeedNumber(node, side) <= |alliances|
              && DirectRoster(alliances, node, side) == TeamsOf(alliances, SeedNumber(node, side))
  {
    if IsDirect(node, |alliances|, side) {
      DirectSeedExists(node, |alliances|, side);
    }
  }

  /** The walk follows the seeding rule: a side of a node whose seeds both name alliances
      takes its seed's roster, writing nothing, exactly when the rule calls it direct;
      otherwise it is the winner of the child that feeds it, and above the eighthfinals
      that child's seeds again both name alliances. */
  lemma ResolveFollowsSeeding(st: Store, alliances: seq<Roster>, rng: Shuffler, node: Node, side: Side)
    requires ValidNode(node) && AllKnown(alliances) && SeedNumber(node, Blue) <= |alliances|
    ensures IsDirect(node, |alliances|, side) ==>
              Resolve(st, alliances, rng, node, side) == Step(st, Ok(TeamsOf(alliances, SeedNumber(node, side))))
    ensures !IsDirect(node, |alliances|, side) ==>
              Resolve(st, alliances, rng, node, side) == Build(st, alliances, rng, Child(node, side))
    ensures !IsDirect(node, |alliances|, side) && node.round < 8 ==>
              SeedNumber(Child(node, side), Blue) <= |alliances|
  {
    DirectRosterKnown(alliances, node, side);
    if !IsDirect(node, |alliances|, side) && node.round < 8 {
      ChildPlayed(node, |alliances|, side);
    }
  }

  /** More than sixteen alliances need a round below the eighthfinals, which has no name:
      the walk from the final fails on depth 32 before writing anything. */
  lemma TooManyAlliances(st: Store, alliances: seq<Roster>, rng: Shuffler)
    requires |alliances| >= 17
    ensures Build(st, alliances, rng, Node(1, 1)) == Step(st, Err(UnsupportedDepth(32)))
  {
    var n := |alliances|;
    var e := Step(st, Err(UnsupportedDepth(32)));
    assert Build(st, alliances, rng, Node(16, 1)) == e;
    assert Build(st, alliances, rng, Node(16, 2)) == e;
    assert SeedNumber(Node(8, 1), Red) == 1 && SeedNumber(Node(8, 1), Blue) == 16 by {
      assert SeedSlots(Node(8, 1)) == (0, 1);
    }
    assert !IsDirect(Node(8, 1), n, Blue);
    assert Build(st, alliances, rng, Node(8, 1)) == e;
    assert !IsDirect(Node(4, 1), n, Red) && !IsDirect(Node(2, 1), n, Red) && !IsDirect(Node(1, 1), n, Red);
    assert Build(st, alliances, rng, Node(4, 1)) == e;
    assert Build(st, alliances, rng, Node(2, 1)) == e;
  }

  /** With 2 to 16 alliances, none of them empty, the walk from a played node never asks
      for a round that has no name: every eighthfinal side comes from selection. */
  lemma {:induction false} DepthBound(st: Store, alliances: seq<Roster>, rng: Shuffler, node: Node)
    requires 2 <= |alliances| <= 16 && AllKnown(alliances)
    requires ValidNode(node) && SeedNumber(node, Blue) <= |alliances|
    ensures !(Build(st, alliances, rng, node).result.Err? && Build(st, alliances, rng, node).result.error.UnsupportedDepth?)
    decreases 16 - node.round, 1
  {
    SideDepthBound(st, alliances, rng, node, Red);
    SideDepthBound(Resolve(st, alliances, rng, node, Red).store, alliances, rng, node, Blue);
  }

  lemma {:induction false} SideDepthBound(st: Store, alliances: seq<Roster>, rng: Shuffler, node: Node, side: Side)
    requires 2 <= |alliances| <= 16 && AllKnown(alliances)
    requires ValidNode(node) && SeedNumber(node, Blue) <= |alliances|
    ensures !(Resolve(st, alliances, rng, node, side).result.Err?
              && Resolve(st, alliances, rng, node, side).result.error.UnsupportedDepth?)
    decreases 16 - node.round, 0
  {
    var n := |alliances|;
    if IsDirect(node, n, side) {
      DirectSeedExists(node, n, side);
    } else {
      if node.round == 8 {
        EighthfinalsAreDirect(node, n, side);
      }
      ChildPlayed(node, n, side);
      DepthBound(st, alliances, rng, Child(node, side));
    }
  }

  /** The root corollary: from the final, 2 to 16 non-empty alliances never hit the depth
      error. */
  lemma RootDepthBound(st: Store, alliances: seq<Roster>, rng: Shuffler)
    requires 2 <= |alliances| <= 16 && AllKnown(alliances)
    ensures !(Build(st, alliances, rng, Node(1, 1)).result.Err?
              && Build(st, alliances, rng, Node(1, 1)).result.error.UnsupportedDepth?)
  {
    assert SeedSlots(Node(1, 1)) == (0, 8);
    DepthBound(st, alliances, rng, Node(1, 1));
  }

  /** A roster that belongs to one of the seeds of a node's sub-bracket. */
  predicate FromBlock(alliances: seq<Roster>, node: Node, r: Roster)
    requires ValidNode(node)
  {
    exists i :: 0 <= i < |Block(node)| && r == TeamsOf(alliances, Block(node)[i])
  }

  /** The sub-bracket of a child lies inside its parent's. */
  lemma ChildBlockWithin(alliances: seq<Roster>, node: Node, side: Side, r: Roster)
    requires ValidNode(node) && node.round < 8 && FromBlock(alliances, Child(node, side), r)
    ensures FromBlock(alliances, node, r)
  {
    var c := Child(node, side);
    var i :| 0 <= i < |Block(c)| && r == TeamsOf(alliances, Block(c)[i]);
    BlockSplit(node);
    var j := InHalf(Block(Child(node, Red)), Block(Child(node, Blue)), side == Red, i);
    assert Block(node)[j] == Block(c)[i];
  }

  /** Where an entry of either half of a concatenation sits in the whole. */
  lemma InHalf(left: seq<int>, right: seq<int>, first: bool, i: int) returns (j: int)
    requires 0 <= i < if first then |left| else |right|
    ensures 0 <= j < |left + right|
    ensures (left + right)[j] == if first then left[i] else right[i]
  {
    j := if first then i else |left| + i;
  }

  /** A decided node's winner is the alliance of one of the seeds of its sub-bracket:
      no alliance reaches a node from outside the part of the bracket below it. */
  lemma {:induction false} WinnerFromBlock(st: Store, alliances: seq<Roster>, rng: Shuffler, node: Node)
    requires ValidNode(node)
    ensures var out := Build(st, alliances, rng, node);
            out.result.Ok? && Known(out.result.value) ==> FromBlock(alliances, node, out.result.value)
    decreases 16 - node.round, 1
  {
    SideFromBlock(st, alliances, rng, node, Red);
    SideFromBlock(Resolve(st, alliances, rng, node, Red).store, alliances, rng, node, Blue);
  }

  lemma {:induction false} SideFromBlock(st: Store, alliances: seq<Roster>, rng: Shuffler, node: Node, side: Side)
    requires ValidNode(node)
    ensures var out := Resolve(st, alliances, rng, node, side);
            out.result.Ok? && Known(out.result.value) ==> FromBlock(alliances, node, out.result.value)
    decreases 16 - node.round, 0
  {
    SeedsInBlock(node);
    var direct := DirectRoster(alliances, node, side);
    if Known(direct) {
      var i := if side == Red then 0 else Width(node.round) / 2;
      assert direct == TeamsOf(alliances, Block(node)[i]);
    } else if node.round < 8 {
      WinnerFromBlock(st, alliances, rng, Child(node, side));
      var v := Build(st, alliances, rng, Child(node, side)).result;
      if v.Ok? && Known(v.value) {
        ChildBlockWithin(alliances, node, side, v.value);
      }
    }
  }
}
