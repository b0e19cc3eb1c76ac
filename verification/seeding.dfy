/**
 * Seed mapping of the bracket: which alliance numbers a node pairs, and which of them come
 * straight from alliance selection rather than from a lower round.
 */
module Seeding {
  import opened Types

  /** Standard seeding order of a 16-slot bracket: consecutive pairs meet first. */
  const Matchups: seq<int> := [1, 16, 8, 9, 4, 13, 5, 12, 2, 15, 7, 10, 3, 14, 6, 11]

  /** The depths that have a round name: final, semifinal, quarterfinal, eighthfinal. */
  predicate SupportedRound(round: int) {
    round == 1 || round == 2 || round == 4 || round == 8
  }

  predicate ValidNode(node: Node) {
    SupportedRound(node.round) && 1 <= node.group <= node.round
  }

  /** The round part of a match's display name: F, SF1-SF2, QF1-QF4 or EF1-EF8. */
  function RoundLabel(node: Node): string
    requires ValidNode(node)
  {
    var name := if node.round == 1 then "F" else if node.round == 2 then "SF"
                else if node.round == 4 then "QF" else "EF";
    if node.round == 1 then name else name + [('0' as int + node.group) as char]
  }

  /** Distinct nodes get distinct labels, so display names never collide across nodes. */
  lemma LabelsDistinct(a: Node, b: Node)
    requires ValidNode(a) && ValidNode(b) && a != b
    ensures RoundLabel(a) != RoundLabel(b)
  {
    var la, lb := RoundLabel(a), RoundLabel(b);
    if a.round == 1 || b.round == 1 {
      assert |la| != |lb|;
    } else if a.round == b.round {
      assert la[|la| - 1] != lb[|lb| - 1];
    } else {
      assert la[0] != lb[0];
    }
  }

  /** Reads a round label back: "F", or a round prefix followed by a group digit that
      lies inside the round. */
  function ParseLabel(name: string): Option<Node> {
    if name == "F" then Some(Node(1, 1))
    else if |name| == 3 && '1' <= name[2] <= '8' then
      var prefix := name[..2];
      var round := if prefix == "SF" then 2 else if prefix == "QF" then 4 else if prefix == "EF" then 8 else 0;
      var group := name[2] as int - '0' as int;
      if round != 0 && group <= round then Some(Node(round, group)) else None
    else None
  }

  /** The label of a node names that node and no other: reading it back gives the node,
      and every label that reads back is the label of the node it reads as. */
  lemma LabelRoundTrip(node: Node, name: string)
    requires ValidNode(node)
    ensures ParseLabel(RoundLabel(node)) == Some(node)
    ensures ParseLabel(name) == Some(node) ==> name == RoundLabel(node)
  {
    var l := RoundLabel(node);
    if node.round != 1 {
      assert l[2] as int - '0' as int == node.group;
    }
    if ParseLabel(name) == Some(node) && name != "F" {
      assert name == name[..2] + [name[2]];
    }
  }

  /** The width of a node's block of the seeding table: the table length over the round. */
  function Width(round: int): (f: int)
    requires SupportedRound(round)
    ensures f == if round == 1 then 16 else if round == 2 then 8 else if round == 4 then 4 else 2
  {
    |Matchups| / round
  }

  /** Where a node's block starts in the seeding table: (group - 1) * width. */
  function Start(node: Node): int
    requires ValidNode(node)
  {
    (node.group - 1) * Width(node.round)
  }

  /** A node's block lies inside the table. */
  lemma StartBounds(node: Node)
    requires ValidNode(node)
    ensures 0 <= Start(node) && Start(node) + Width(node.round) <= |Matchups|
  {
    if node.round == 1 {
    } else if node.round == 2 {
    } else if node.round == 4 {
    } else {
    }
  }

  /** Positions in the seeding table of a node's red and blue candidates: both inside the
      node's own block, red first. */
  function SeedSlots(node: Node): (slots: (int, int))
    requires ValidNode(node)
    ensures 0 <= Start(node) <= slots.0 < slots.1 < Start(node) + Width(node.round) <= |Matchups|
  {
    StartBounds(node);
    (Start(node), Start(node) + Width(node.round) / 2)
  }

  /** The alliance number a node's side would hold if it came from alliance selection. */
  function SeedNumber(node: Node, side: Side): int
    requires ValidNode(node)
  {
    var slots := SeedSlots(node);
    if side == Red then Matchups[slots.0] else Matchups[slots.1]
  }

  /** Whether a node takes this side straight from alliance selection, given n alliances:
      only when n < 4 * round, and only for seeds numbered at most 4 * round - n. */
  predicate IsDirect(node: Node, n: int, side: Side)
    requires ValidNode(node)
  {
    n < 4 * node.round && SeedNumber(node, side) <= 4 * node.round - n
  }

  /** The node one round down that feeds a side: (2r, 2g-1) for red, (2r, 2g) for blue. */
  function Child(node: Node, side: Side): (c: Node)
    requires ValidNode(node)
    ensures c.round == 2 * node.round && 1 <= c.group <= c.round
    ensures node.round < 8 ==> ValidNode(c)
  {
    if side == Red then Node(2 * node.round, 2 * node.group - 1)
    else Node(2 * node.round, 2 * node.group)
  }

  /** Every node of round r pairs one of the r best seeds (red) with its mirror among the
      next r (blue): red + blue == 2 * r + 1, the seeds that can still be alive after
      log2(r) more rounds. */
  lemma StandardPairing(node: Node)
    requires ValidNode(node)
    ensures 1 <= SeedNumber(node, Red) <= node.round < SeedNumber(node, Blue) <= 2 * node.round
    ensures SeedNumber(node, Red) + SeedNumber(node, Blue) == 2 * node.round + 1
  {
    if node.round == 1 {
      assert SeedSlots(node) == (0, 8);
    } else if node.round == 2 {
      SemifinalPairing(node);
    } else if node.round == 4 {
      QuarterfinalPairing(node);
    } else {
      EighthfinalPairing(node);
    }
  }

  lemma SemifinalPairing(node: Node)
    requires ValidNode(node) && node.round == 2
    ensures SeedNumber(node, Red) == node.group && SeedNumber(node, Blue) == 5 - node.group
  {
    if node.group == 1 {
      assert SeedSlots(node) == (0, 4);
    } else {
      assert SeedSlots(node) == (8, 12);
    }
  }

  lemma QuarterfinalPairing(node: Node)
    requires ValidNode(node) && node.round == 4
    ensures 1 <= SeedNumber(node, Red) <= 4 && SeedNumber(node, Blue) == 9 - SeedNumber(node, Red)
  {
    var g := node.group;
    if g == 1 {
      assert SeedSlots(node) == (0, 2);
    } else if g == 2 {
      assert SeedSlots(node) == (4, 6);
    } else if g == 3 {
      assert SeedSlots(node) == (8, 10);
    } else {
      assert SeedSlots(node) == (12, 14);
    }
  }

  lemma EighthfinalPairing(node: Node)
    requires ValidNode(node) && node.round == 8
    ensures 1 <= SeedNumber(node, Red) <= 8 && SeedNumber(node, Blue) == 17 - SeedNumber(node, Red)
  {
    var i := SeedSlots(node).0;
    assert SeedSlots(node).1 == i + 1;
    assert i == 0 || i == 2 || i == 4 || i == 6 || i == 8 || i == 10 || i == 12 || i == 14;
  }

  /** The table is consistent across rounds: the red seed of a node is the red seed of its
      red child, and its blue seed is the red seed of its blue child, so the top seed of
      each sub-bracket is the one expected to come out of it. */
  lemma SubtreeTopSeeds(node: Node)
    requires ValidNode(node) && node.round < 8
    ensures SeedNumber(Child(node, Red), Red) == SeedNumber(node, Red)
    ensures SeedNumber(Child(node, Blue), Red) == SeedNumber(node, Blue)
  {
    ChildStarts(node);
  }

  /** The red child's block starts where the node's does, the blue child's halfway. */
  lemma ChildStarts(node: Node)
    requires ValidNode(node) && node.round < 8
    ensures Width(Child(node, Red).round) == Width(node.round) / 2
    ensures Start(Child(node, Red)) == Start(node)
    ensures Start(Child(node, Blue)) == Start(node) + Width(node.round) / 2
    ensures Start(Child(node, Blue)) + Width(Child(node, Blue).round) == Start(node) + Width(node.round)
  {
    if node.round == 1 {
    } else if node.round == 2 {
    } else {
    }
  }

  /** Eight alliances: the final and semifinals wait for lower rounds, and the four
      quarterfinals pair 1 v 8, 4 v 5, 2 v 7 and 3 v 6, all straight from selection. */
  lemma EightAlliancePairings()
    ensures !IsDirect(Node(1, 1), 8, Red) && !IsDirect(Node(1, 1), 8, Blue)
    ensures forall g :: 1 <= g <= 2 ==> !IsDirect(Node(2, g), 8, Red) && !IsDirect(Node(2, g), 8, Blue)
    ensures SeedNumber(Node(4, 1), Red) == 1 && SeedNumber(Node(4, 1), Blue) == 8
    ensures SeedNumber(Node(4, 2), Red) == 4 && SeedNumber(Node(4, 2), Blue) == 5
    ensures SeedNumber(Node(4, 3), Red) == 2 && SeedNumber(Node(4, 3), Blue) == 7
    ensures SeedNumber(Node(4, 4), Red) == 3 && SeedNumber(Node(4, 4), Blue) == 6
    ensures forall g, side :: 1 <= g <= 4 ==> IsDirect(Node(4, g), 8, side)
  {
    forall g, side | 1 <= g <= 4
      ensures IsDirect(Node(4, g), 8, side)
    {
      StandardPairing(Node(4, g));
    }
  }

  /** With at most 16 alliances every eighthfinal side is direct, so the walk never asks
      for the unsupported round 16 when every roster is non-empty. */
  lemma EighthfinalsAreDirect(node: Node, n: int, side: Side)
    requires ValidNode(node) && node.round == 8 && n <= 16
    ensures IsDirect(node, n, side)
  {
    StandardPairing(node);
  }

  /** The alliance numbers the walk from `node` takes from selection, in walk order,
      assuming every roster it fetches is non-empty. This is the reference definition of
      the seeding rule that `Resolver.Build` follows one node at a time
      (`Resolver.ResolveFollowsSeeding`); it fetches nothing and creates no match. */
  function Entrants(node: Node, n: int): seq<int>
    requires ValidNode(node)
    decreases 16 - node.round
  {
    var red := IsDirect(node, n, Red);
    var blue := IsDirect(node, n, Blue);
    (if red then [SeedNumber(node, Red)] else [])
    + (if blue then [SeedNumber(node, Blue)] else [])
    + (if red || node.round == 8 then [] else Entrants(Child(node, Red), n))
    + (if blue || node.round == 8 then [] else Entrants(Child(node, Blue), n))
  }

  /** The seeds of the sub-bracket under a node: its block of the seeding table. */
  function Block(node: Node): (b: seq<int>)
    requires ValidNode(node)
    ensures |b| == Width(node.round)
  {
    StartBounds(node);
    Matchups[Start(node) .. Start(node) + Width(node.round)]
  }

  /** The seeds of `s` that name an existing alliance when there are n of them. */
  function Below(s: seq<int>, n: int): seq<int> {
    if |s| == 0 then [] else (if s[0] <= n then [s[0]] else []) + Below(s[1..], n)
  }

  lemma {:induction false} BelowCount(s: seq<int>, n: int, v: int)
    ensures multiset(Below(s, n))[v] == if v <= n then multiset(s)[v] else 0
  {
    if |s| != 0 {
      BelowCount(s[1..], n, v);
      assert s == [s[0]] + s[1..];
    }
  }

  lemma BelowCons(x: int, s: seq<int>, n: int)
    ensures Below([x] + s, n) == (if x <= n then [x] else []) + Below(s, n)
  {
    assert ([x] + s)[1..] == s;
  }

  lemma {:induction false} BelowConcat(a: seq<int>, b: seq<int>, n: int)
    ensures Below(a + b, n) == Below(a, n) + Below(b, n)
  {
    if |a| != 0 {
      assert a + b == [a[0]] + (a[1..] + b);
      assert a == [a[0]] + a[1..];
      BelowCons(a[0], a[1..] + b, n);
      BelowCons(a[0], a[1..], n);
      BelowConcat(a[1..], b, n);
    } else {
      assert a + b == b;
    }
  }

  /** A node's block is its red child's block followed by its blue child's. */
  lemma BlockSplit(node: Node)
    requires ValidNode(node) && node.round < 8
    ensures Block(node) == Block(Child(node, Red)) + Block(Child(node, Blue))
  {
    ChildStarts(node);
    StartBounds(node);
    var a, w := Start(node), Width(node.round);
    SliceSplit(Matchups, a, a + w / 2, a + w);
  }

  lemma SliceSplit(s: seq<int>, lo: int, mid: int, hi: int)
    requires 0 <= lo <= mid <= hi <= |s|
    ensures s[lo..hi] == s[lo..mid] + s[mid..hi]
  {
  }

  /** The red seed heads a node's block, and every other seed in it is at least the blue
      seed: red and blue are the two best seeds of the sub-bracket. */
  lemma {:induction false} BlockShape(node: Node)
    requires ValidNode(node)
    ensures Block(node)[0] == SeedNumber(node, Red)
    ensures forall i :: 0 < i < |Block(node)| ==> Block(node)[i] >= SeedNumber(node, Blue)
    decreases 8 - node.round
  {
    StartBounds(node);
    assert Block(node)[0] == Matchups[Start(node)];
    if node.round == 8 {
      assert Block(node)[1] == Matchups[Start(node) + 1];
    } else {
      BlockShape(Child(node, Red));
      BlockShape(Child(node, Blue));
      HalvesAboveBlue(node);
    }
  }

  /** The step of BlockShape: when each child's block has the shape, the entries after the
      parent's red seed are all at least its blue seed. */
  lemma HalvesAboveBlue(node: Node)
    requires ValidNode(node) && node.round < 8
    requires Block(Child(node, Red))[0] == SeedNumber(Child(node, Red), Red)
    requires Block(Child(node, Blue))[0] == SeedNumber(Child(node, Blue), Red)
    requires forall i :: 0 < i < |Block(Child(node, Red))| ==>
               Block(Child(node, Red))[i] >= SeedNumber(Child(node, Red), Blue)
    requires forall i :: 0 < i < |Block(Child(node, Blue))| ==>
               Block(Child(node, Blue))[i] >= SeedNumber(Child(node, Blue), Blue)
    ensures forall i :: 0 < i < |Block(node)| ==> Block(node)[i] >= SeedNumber(node, Blue)
  {
    var left, right := Child(node, Red), Child(node, Blue);
    var b, l, r := Block(node), Block(left), Block(right);
    BlockSplit(node);
    SubtreeTopSeeds(node);
    StandardPairing(node);
    StandardPairing(left);
    StandardPairing(right);
    forall i | 0 < i < |b|
      ensures b[i] >= SeedNumber(node, Blue)
    {
      if i < |l| {
        assert b[i] == l[i];
      } else {
        assert b[i] == r[i - |l|];
      }
    }
  }

  /** The final's block is the whole table. */
  lemma FinalBlock()
    ensures Block(Node(1, 1)) == Matchups
  {
    assert Block(Node(1, 1)) == Matchups[0..16];
  }

  /** A node is played once both its seeds exist; the walk then fetches exactly the
      existing seeds of the node's sub-bracket, each once. */
  lemma {:induction false} EntrantsOfPlayedNode(node: Node, n: int)
    requires ValidNode(node) && SeedNumber(node, Blue) <= n <= 16
    ensures multiset(Entrants(node, n)) == multiset(Below(Block(node), n))
    decreases 16 - node.round
  {
    if node.round == 8 {
      EighthfinalEntrants(node, n);
    } else {
      var left, right := Child(node, Red), Child(node, Blue);
      BlockSplit(node);
      BelowConcat(Block(left), Block(right), n);
      EntrantsBySide(node, n);
      SideEntrants(node, n, Red);
      SideEntrants(node, n, Blue);
    }
  }

  /** The two seeds of a node open the two halves of its block. */
  lemma SeedsInBlock(node: Node)
    requires ValidNode(node)
    ensures Block(node)[0] == SeedNumber(node, Red)
    ensures Block(node)[Width(node.round) / 2] == SeedNumber(node, Blue)
  {
    StartBounds(node);
  }

  /** A side that is not direct is fed by a played child: both of the child's seeds exist. */
  lemma ChildPlayed(node: Node, n: int, side: Side)
    requires ValidNode(node) && node.round < 8 && !IsDirect(node, n, side)
    ensures SeedNumber(Child(node, side), Blue) <= n
  {
    StandardPairing(node);
    StandardPairing(Child(node, side));
    SubtreeTopSeeds(node);
  }

  /** In a played node a direct side's seed names an existing alliance. */
  lemma DirectSeedExists(node: Node, n: int, side: Side)
    requires ValidNode(node) && SeedNumber(node, Blue) <= n && IsDirect(node, n, side)
    ensures 1 <= SeedNumber(node, side) <= n
  {
    StandardPairing(node);
  }

  /** Above the eighthfinals a side comes straight from alliance selection exactly when its
      seed has a bye: the opponent it would meet one round down, its mirror seed in the
      child that feeds the side, is not an alliance. */
  lemma DirectIsBye(node: Node, n: int, side: Side)
    requires ValidNode(node) && node.round < 8
    ensures IsDirect(node, n, side) <==> SeedNumber(Child(node, side), Blue) > n
  {
    var c := Child(node, side);
    StandardPairing(node);
    StandardPairing(c);
    SubtreeTopSeeds(node);
    assert SeedNumber(c, Red) == SeedNumber(node, side);
  }

  /** What the walk from a node above the eighthfinals takes for one side: the side's seed
      when it is direct, otherwise everything the walk from the child below takes. */
  function SidePart(node: Node, n: int, side: Side): seq<int>
    requires ValidNode(node) && node.round < 8
  {
    if IsDirect(node, n, side) then [SeedNumber(node, side)] else Entrants(Child(node, side), n)
  }

  /** Up to order, the walk from a node is what it takes for red and for blue. */
  lemma EntrantsBySide(node: Node, n: int)
    requires ValidNode(node) && node.round < 8
    ensures multiset(Entrants(node, n)) == multiset(SidePart(node, n, Red)) + multiset(SidePart(node, n, Blue))
  {
    var red, blue := IsDirect(node, n, Red), IsDirect(node, n, Blue);
    Regroup(red, blue, SeedNumber(node, Red), SeedNumber(node, Blue),
            Entrants(Child(node, Red), n), Entrants(Child(node, Blue), n));
  }

  /** The walk lists both direct seeds first and both deeper walks after; each side's part
      is its direct seed or its deeper walk, so regrouping by side keeps the multiset. */
  lemma Regroup(red: bool, blue: bool, x: int, y: int, c: seq<int>, d: seq<int>)
    ensures multiset((if red then [x] else []) + (if blue then [y] else [])
                     + (if red then [] else c) + (if blue then [] else d))
            == multiset(if red then [x] else c) + multiset(if blue then [y] else d)
  {
  }

  lemma EighthfinalEntrants(node: Node, n: int)
    requires ValidNode(node) && node.round == 8 && SeedNumber(node, Blue) <= n <= 16
    ensures multiset(Entrants(node, n)) == multiset(Below(Block(node), n))
  {
    var red, blue := SeedNumber(node, Red), SeedNumber(node, Blue);
    EighthfinalPairing(node);
    EighthfinalsAreDirect(node, n, Red);
    EighthfinalsAreDirect(node, n, Blue);
    assert Entrants(node, n) == [red, blue];
    assert Block(node) == [red, blue];
    BelowCons(red, [blue], n);
    BelowCons(blue, [], n);
  }

  /** What one side of a played node contributes: its seed when direct, otherwise the walk
      of its child; either way the existing seeds of the child's block. */
  lemma {:induction false} SideEntrants(node: Node, n: int, side: Side)
    requires ValidNode(node) && node.round < 8 && SeedNumber(node, Blue) <= n <= 16
    ensures multiset(SidePart(node, n, side)) == multiset(Below(Block(Child(node, side)), n))
    decreases 16 - node.round, 0
  {
    if IsDirect(node, n, side) {
      DirectSide(node, n, side);
    } else {
      var c := Child(node, side);
      ChildPlayed(node, n, side);
      EntrantsOfPlayedNode(c, n);
    }
  }

  /** A direct side's child block holds its seed first and only seeds beyond n after it. */
  lemma DirectSide(node: Node, n: int, side: Side)
    requires ValidNode(node) && node.round < 8 && SeedNumber(node, Blue) <= n
    requires IsDirect(node, n, side)
    ensures Below(Block(Child(node, side)), n) == [SeedNumber(node, side)]
  {
    var c := Child(node, side);
    StandardPairing(node);
    StandardPairing(c);
    SubtreeTopSeeds(node);
    BlockShape(c);
    var b := Block(c);
    assert b[0] == SeedNumber(node, side) <= n;
    forall i | 0 <= i < |b[1..]|
      ensures b[1..][i] > n
    {
      assert b[1..][i] == b[i + 1];
    }
    AllAbove(b[1..], n);
    assert b == [b[0]] + b[1..];
    BelowCons(b[0], b[1..], n);
  }

  lemma {:induction false} AllAbove(s: seq<int>, n: int)
    requires forall i :: 0 <= i < |s| ==> s[i] > n
    ensures Below(s, n) == []
  {
    if |s| != 0 {
      AllAbove(s[1..], n);
    }
  }

  predicate Distinct(s: seq<int>) {
    forall i, j :: 0 <= i < j < |s| ==> s[i] != s[j]
  }

  lemma {:induction false} DistinctMultiplicity(s: seq<int>, v: int)
    requires Distinct(s)
    ensures multiset(s)[v] == if v in s then 1 else 0
  {
    if |s| != 0 {
      assert s == [s[0]] + s[1..];
      DistinctMultiplicity(s[1..], v);
    }
  }

  lemma MatchupsDistinct()
    ensures Distinct(Matchups)
  {
  }

  lemma MatchupsRange(v: int)
    ensures v in Matchups <==> 1 <= v <= 16
  {
  }

  /** The seeding table lists every seed 1..16 exactly once. */
  lemma MatchupsIsPermutation(v: int)
    ensures multiset(Matchups)[v] == if 1 <= v <= 16 then 1 else 0
  {
    MatchupsDistinct();
    MatchupsRange(v);
    DistinctMultiplicity(Matchups, v);
  }

  /** For 2 to 16 alliances the walk from the final takes every alliance 1..n from
      selection exactly once, and never an alliance number outside 1..n. */
  lemma EveryAllianceEntersOnce(n: int)
    requires 2 <= n <= 16
    ensures forall v :: multiset(Entrants(Node(1, 1), n))[v] == if 1 <= v <= n then 1 else 0
  {
    var root := Node(1, 1);
    assert SeedSlots(root) == (0, 8);
    EntrantsOfPlayedNode(root, n);
    FinalBlock();
    forall v
      ensures multiset(Below(Matchups, n))[v] == if 1 <= v <= n then 1 else 0
    {
      SeedsBelowCount(n, v);
    }
  }

  /** Of the seeds 1..16, those at most n are exactly 1..n, each once. */
  lemma SeedsBelowCount(n: int, v: int)
    requires n <= 16
    ensures multiset(Below(Matchups, n))[v] == if 1 <= v <= n then 1 else 0
  {
    BelowCount(Matchups, n, v);
    MatchupsIsPermutation(v);
  }
}
