/**
 * Building blocks on single matches: the alliance membership test, the slot shuffle, match
 * creation and the repair of team slots that do not belong to a node's alliance.
 */
module MatchOps {
  import opened Types
  import opened Seeding

  /** Whether a team belongs to an alliance, by a linear scan of the roster. */
  function TeamInAlliance(team: TeamId, alliance: Roster): (found: bool)
    ensures found <==> team in alliance
  {
    |alliance| > 0 && (alliance[0] == team || TeamInAlliance(team, alliance[1..]))
  }

  /** Whether all three slots of a side hold teams of the alliance (the check the
      reconciler performs before deciding to reshuffle a side). */
  predicate SideFits(t: Trio, alliance: Roster) {
    TeamInAlliance(t.first, alliance) && TeamInAlliance(t.second, alliance)
    && TeamInAlliance(t.third, alliance)
  }

  /** Places the alliance's first three teams into the slots in the order the permutation
      draws. The roster must have three teams: with fewer the source indexes past its end. */
  function Shuffle(alliance: Roster, p: Perm): (t: Trio)
    requires |alliance| >= 3
    ensures Teams(t) == multiset(alliance[..3])
  {
    PermutedTeams(alliance, p);
    Trio(alliance[p.first], alliance[p.second], alliance[p.third])
  }

  lemma PermutedTeams(alliance: Roster, p: Perm)
    requires |alliance| >= 3
    ensures Teams(Trio(alliance[p.first], alliance[p.second], alliance[p.third])) == multiset(alliance[..3])
  {
    var x, y, z := alliance[0], alliance[1], alliance[2];
    var t := Trio(alliance[p.first], alliance[p.second], alliance[p.third]);
    assert alliance[..3] == [x, y, z];
    assert multiset(alliance[..3]) == multiset{x, y, z};
    if p == Trio(0, 1, 2) {
      assert t == Trio(x, y, z);
    } else if p == Trio(0, 2, 1) {
      assert t == Trio(x, z, y);
      SwapLast(x, y, z);
    } else if p == Trio(1, 0, 2) {
      assert t == Trio(y, x, z);
      SwapFirst(x, y, z);
    } else if p == Trio(1, 2, 0) {
      assert t == Trio(y, z, x);
      SwapLast(y, x, z);
      SwapFirst(x, y, z);
    } else if p == Trio(2, 0, 1) {
      assert t == Trio(z, x, y);
      SwapFirst(x, z, y);
      SwapLast(x, y, z);
    } else {
      assert p == Trio(2, 1, 0);
      assert t == Trio(z, y, x);
      SwapFirst(y, z, x);
      SwapLast(y, x, z);
      SwapFirst(x, y, z);
    }
  }

  lemma SwapFirst(a: TeamId, b: TeamId, c: TeamId)
    ensures multiset{b, a, c} == multiset{a, b, c}
  {
  }

  lemma SwapLast(a: TeamId, b: TeamId, c: TeamId)
    ensures multiset{a, c, b} == multiset{a, b, c}
  {
  }

  /** A new unplayed match for an instance of a node, both sides freshly shuffled. */
  function NewMatch(node: Node, instance: int, red: Roster, blue: Roster, rng: Shuffler, id: int): (m: Match)
    requires ValidNode(node) && |red| >= 3 && |blue| >= 3
    ensures InNode(m, node) && !IsComplete(m)
    ensures m.id == id && m.instance == instance && m.roundName == RoundLabel(node)
    ensures Teams(m.red) == multiset(red[..3]) && Teams(m.blue) == multiset(blue[..3])
  {
    Match(id, Elimination, RoundLabel(node), node.round, node.group, instance,
          Shuffle(red, rng(id, Red)), Shuffle(blue, rng(id, Blue)), "", "", 0)
  }

  /** Whether a side's slots should be reshuffled: its alliance is known and some slot
      holds a team outside it. */
  predicate NeedsRepair(t: Trio, alliance: Roster) {
    Known(alliance) && !(t.first in alliance && t.second in alliance && t.third in alliance)
  }

  /** Repairs the team slots of one match against the node's alliances. Red is checked
      first; blue is checked only when red needs no repair. Reshuffling a side whose
      alliance has fewer than three teams fails with IndexPanic. */
  function Repair(m: Match, red: Roster, blue: Roster, rng: Shuffler): (r: Result<Match>)
    ensures r.Err? ==> r.error == IndexPanic
    ensures r.Ok? ==> r.value.(red := m.red, blue := m.blue) == m
  {
    if Known(red) && !SideFits(m.red, red) then
      if |red| < 3 then Err(IndexPanic) else Ok(m.(red := Shuffle(red, rng(m.id, Red))))
    else if Known(blue) && !SideFits(m.blue, blue) then
      if |blue| < 3 then Err(IndexPanic) else Ok(m.(blue := Shuffle(blue, rng(m.id, Blue))))
    else
      Ok(m)
  }

  lemma SideFitsIsMembership(t: Trio, alliance: Roster)
    ensures SideFits(t, alliance) <==> (t.first in alliance && t.second in alliance && t.third in alliance)
  {
  }

  /** Repair fails exactly when the side it has to reshuffle has fewer than three teams. */
  lemma RepairFailsIff(m: Match, red: Roster, blue: Roster, rng: Shuffler)
    ensures Repair(m, red, blue, rng).Err? <==>
              (NeedsRepair(m.red, red) && |red| < 3)
              || (!NeedsRepair(m.red, red) && NeedsRepair(m.blue, blue) && |blue| < 3)
  {
    SideFitsIsMembership(m.red, red);
    SideFitsIsMembership(m.blue, blue);
  }

  /** Slot repair touches at most one side: red when it holds a team outside a known red
      alliance, otherwise blue when the same holds of blue, otherwise nothing. The side it
      touches ends up holding the alliance's first three teams in some order. */
  lemma RepairTouchesOneSide(m: Match, red: Roster, blue: Roster, rng: Shuffler)
    requires Repair(m, red, blue, rng).Ok?
    ensures Repair(m, red, blue, rng).value.red == m.red || Repair(m, red, blue, rng).value.blue == m.blue
    ensures NeedsRepair(m.red, red) ==>
              && Repair(m, red, blue, rng).value.blue == m.blue
              && Teams(Repair(m, red, blue, rng).value.red) == multiset(red[..3])
    ensures !NeedsRepair(m.red, red) && NeedsRepair(m.blue, blue) ==>
              && Repair(m, red, blue, rng).value.red == m.red
              && Teams(Repair(m, red, blue, rng).value.blue) == multiset(blue[..3])
    ensures !NeedsRepair(m.red, red) && !NeedsRepair(m.blue, blue) ==>
              Repair(m, red, blue, rng).value == m
  {
    SideFitsIsMembership(m.red, red);
    SideFitsIsMembership(m.blue, blue);
  }

  /** After a successful repair the first side that needed it fits its alliance. */
  lemma RepairFixesFirstMismatch(m: Match, red: Roster, blue: Roster, rng: Shuffler)
    requires Repair(m, red, blue, rng).Ok?
    ensures !NeedsRepair(Repair(m, red, blue, rng).value.red, red)
    ensures !NeedsRepair(m.red, red) ==> !NeedsRepair(Repair(m, red, blue, rng).value.blue, blue)
  {
    SideFitsIsMembership(m.red, red);
    SideFitsIsMembership(m.blue, blue);
    if NeedsRepair(m.red, red) {
      var t := Shuffle(red, rng(m.id, Red));
      assert Repair(m, red, blue, rng).value.red == t;
      TrioInRoster(t, red);
    } else if NeedsRepair(m.blue, blue) {
      var t := Shuffle(blue, rng(m.id, Blue));
      assert Repair(m, red, blue, rng).value == m.(blue := t);
      TrioInRoster(t, blue);
    }
  }

  lemma TrioInRoster(t: Trio, alliance: Roster)
    requires |alliance| >= 3 && Teams(t) == multiset(alliance[..3])
    ensures t.first in alliance && t.second in alliance && t.third in alliance
  {
    var s := alliance[..3];
    assert t.first in Teams(t) && t.second in Teams(t) && t.third in Teams(t);
    assert t.first in s && t.second in s && t.third in s;
    assert s[0] == alliance[0] && s[1] == alliance[1] && s[2] == alliance[2];
  }
}
