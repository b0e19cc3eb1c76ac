/**
 * Reconciliation of one bracket node: repair the team slots of its matches, tally the
 * results, and then either declare the winner and delete the unplayed matches, top the
 * node up to three primary matches, replay its ties, or leave it waiting.
 */
module Reconciler {
  import opened Types
  import opened Seeding
  import opened MatchOps
  import opened Queries

  /** Three placeholder slots, used for a side whose alliance is not known yet. */
  const Placeholders: Roster := [0, 0, 0]

  /** The state of the store after the repair pass, and the error that stopped it. */
  datatype ScanOut = ScanOut(ms: seq<Match>, failure: Option<Error>)

  /** A node match the repair pass gets past: its repair succeeds and, if it is complete,
      it carries a valid winner marker. */
  predicate Acceptable(m: Match, red: Roster, blue: Roster, rng: Shuffler) {
    Repair(m, red, blue, rng).Ok? && (IsComplete(m) ==> ValidWinner(m.winner))
  }

  /** The loop over a node's matches: each one is repaired and saved in place, then its
      winner marker is checked; the first failure stops the pass, keeping the saves made
      so far. Records of other nodes are left alone. */
  function RepairAll(ms: seq<Match>, node: Node, red: Roster, blue: Roster, rng: Shuffler): (out: ScanOut)
    ensures SameOutcomes(out.ms, ms)
    ensures forall i :: 0 <= i < |ms| && !InNode(ms[i], node) ==> out.ms[i] == ms[i]
    ensures out.failure.Some? ==> out.failure.value.InvalidWinner? || out.failure.value == IndexPanic
  {
    if |ms| == 0 then ScanOut([], None)
    else
      var m := ms[0];
      if !InNode(m, node) then
        var rest := RepairAll(ms[1..], node, red, blue, rng);
        ScanOut([m] + rest.ms, rest.failure)
      else
        match Repair(m, red, blue, rng)
        case Err(e) => ScanOut(ms, Some(e))
        case Ok(fixed) =>
          if IsComplete(fixed) && !ValidWinner(fixed.winner) then
            ScanOut([fixed] + ms[1..], Some(InvalidWinner(fixed.id, fixed.winner)))
          else
            var rest := RepairAll(ms[1..], node, red, blue, rng);
            ScanOut([fixed] + rest.ms, rest.failure)
  }

  /** Every match of the node in `ms` is acceptable. */
  predicate AllAcceptable(ms: seq<Match>, node: Node, red: Roster, blue: Roster, rng: Shuffler) {
    forall i :: 0 <= i < |ms| && InNode(ms[i], node) ==> Acceptable(ms[i], red, blue, rng)
  }

  lemma AllAcceptableCons(ms: seq<Match>, node: Node, red: Roster, blue: Roster, rng: Shuffler)
    requires |ms| != 0
    ensures AllAcceptable(ms, node, red, blue, rng) <==>
              (InNode(ms[0], node) ==> Acceptable(ms[0], red, blue, rng))
              && AllAcceptable(ms[1..], node, red, blue, rng)
  {
    if (InNode(ms[0], node) ==> Acceptable(ms[0], red, blue, rng)) && AllAcceptable(ms[1..], node, red, blue, rng) {
      forall i | 1 <= i < |ms| && InNode(ms[i], node)
        ensures Acceptable(ms[i], red, blue, rng)
      {
        assert ms[i] == ms[1..][i - 1];
      }
    }
  }

  /** The pass gets through iff every node match is acceptable. */
  lemma {:induction false} RepairAllSucceeds(ms: seq<Match>, node: Node, red: Roster, blue: Roster, rng: Shuffler)
    ensures RepairAll(ms, node, red, blue, rng).failure.None? <==> AllAcceptable(ms, node, red, blue, rng)
  {
    if |ms| != 0 {
      RepairAllSucceeds(ms[1..], node, red, blue, rng);
      AllAcceptableCons(ms, node, red, blue, rng);
    }
  }

  /** When the pass gets through, every node match is replaced by its repair. */
  lemma {:induction false} RepairAllRepairs(ms: seq<Match>, node: Node, red: Roster, blue: Roster, rng: Shuffler)
    requires RepairAll(ms, node, red, blue, rng).failure.None?
    ensures forall i :: 0 <= i < |ms| && InNode(ms[i], node) ==>
              Repair(ms[i], red, blue, rng) == Ok(RepairAll(ms, node, red, blue, rng).ms[i])
  {
    if |ms| != 0 {
      var out := RepairAll(ms, node, red, blue, rng);
      var rest := RepairAll(ms[1..], node, red, blue, rng);
      assert rest.failure.None? && out.ms[1..] == rest.ms;
      RepairAllRepairs(ms[1..], node, red, blue, rng);
      forall i | 1 <= i < |ms| && InNode(ms[i], node)
        ensures Repair(ms[i], red, blue, rng) == Ok(out.ms[i])
      {
        assert ms[i] == ms[1..][i - 1] && out.ms[i] == rest.ms[i - 1];
      }
    }
  }

  /** What the pass leaves at a position it has reached: a node match whose repair
      succeeds is saved repaired, anything else stays as it was. */
  function Repaired(m: Match, node: Node, red: Roster, blue: Roster, rng: Shuffler): Match {
    if InNode(m, node) && Repair(m, red, blue, rng).Ok? then Repair(m, red, blue, rng).value else m
  }

  /** The error a node match the pass cannot get past stops it with: the panic of its
      repair, or else its invalid winner marker. */
  function FailureOf(m: Match, red: Roster, blue: Roster, rng: Shuffler): Error {
    if Repair(m, red, blue, rng).Err? then Repair(m, red, blue, rng).error
    else InvalidWinner(m.id, m.winner)
  }

  /** Position k holds the first node match of `ms` that is not acceptable. */
  predicate FirstFailure(ms: seq<Match>, node: Node, red: Roster, blue: Roster, rng: Shuffler, k: int) {
    && 0 <= k < |ms| && InNode(ms[k], node) && !Acceptable(ms[k], red, blue, rng)
    && forall j :: 0 <= j < k && InNode(ms[j], node) ==> Acceptable(ms[j], red, blue, rng)
  }

  /** The pass stopped at position k: the first node match that is not acceptable, with
      its error. Every record up to it is saved as repaired (the failing match too, when
      only its marker is wrong), and every record after it is left as it was. */
  predicate StopsAt(ms: seq<Match>, out: ScanOut, node: Node, red: Roster, blue: Roster, rng: Shuffler, k: int) {
    && FirstFailure(ms, node, red, blue, rng, k)
    && |out.ms| == |ms|
    && out.failure == Some(FailureOf(ms[k], red, blue, rng))
    && (forall j :: 0 <= j <= k ==> out.ms[j] == Repaired(ms[j], node, red, blue, rng))
    && (forall j :: k < j < |ms| ==> out.ms[j] == ms[j])
  }

  /** When some node match is not acceptable, the pass stops at the first one. */
  lemma {:induction false} RepairAllStops(ms: seq<Match>, node: Node, red: Roster, blue: Roster, rng: Shuffler)
    requires !AllAcceptable(ms, node, red, blue, rng)
    ensures exists k :: StopsAt(ms, RepairAll(ms, node, red, blue, rng), node, red, blue, rng, k)
  {
    AllAcceptableCons(ms, node, red, blue, rng);
    if InNode(ms[0], node) && !Acceptable(ms[0], red, blue, rng) {
      StopsAtHead(ms, node, red, blue, rng);
    } else {
      RepairAllStops(ms[1..], node, red, blue, rng);
      var k :| StopsAt(ms[1..], RepairAll(ms[1..], node, red, blue, rng), node, red, blue, rng, k);
      RepairAllHead(ms, node, red, blue, rng);
      StopsLater(ms, RepairAll(ms, node, red, blue, rng), RepairAll(ms[1..], node, red, blue, rng),
                 node, red, blue, rng, k);
    }
  }

  lemma StopsAtHead(ms: seq<Match>, node: Node, red: Roster, blue: Roster, rng: Shuffler)
    requires |ms| > 0 && InNode(ms[0], node) && !Acceptable(ms[0], red, blue, rng)
    ensures StopsAt(ms, RepairAll(ms, node, red, blue, rng), node, red, blue, rng, 0)
  {
    var out := RepairAll(ms, node, red, blue, rng);
    assert out.ms[0] == Repaired(ms[0], node, red, blue, rng);
    assert out.ms[1..] == ms[1..];
    forall j | 0 < j < |ms|
      ensures out.ms[j] == ms[j]
    {
      assert out.ms[j] == out.ms[1..][j - 1];
    }
  }

  /** A first record the pass gets past is saved as repaired, and the pass goes on. */
  lemma RepairAllHead(ms: seq<Match>, node: Node, red: Roster, blue: Roster, rng: Shuffler)
    requires |ms| > 0 && (InNode(ms[0], node) ==> Acceptable(ms[0], red, blue, rng))
    ensures var rest := RepairAll(ms[1..], node, red, blue, rng);
            RepairAll(ms, node, red, blue, rng)
              == ScanOut([Repaired(ms[0], node, red, blue, rng)] + rest.ms, rest.failure)
  {
  }

  lemma StopsLater(ms: seq<Match>, out: ScanOut, rest: ScanOut, node: Node, red: Roster, blue: Roster,
                   rng: Shuffler, k: int)
    requires |ms| > 0 && (InNode(ms[0], node) ==> Acceptable(ms[0], red, blue, rng))
    requires out == ScanOut([Repaired(ms[0], node, red, blue, rng)] + rest.ms, rest.failure)
    requires StopsAt(ms[1..], rest, node, red, blue, rng, k)
    ensures StopsAt(ms, out, node, red, blue, rng, k + 1)
  {
    forall j | 0 <= j < k + 1 && InNode(ms[j], node)
      ensures Acceptable(ms[j], red, blue, rng)
    {
      if j > 0 {
        assert ms[j] == ms[1..][j - 1];
      }
    }
    assert ms[k + 1] == ms[1..][k];
    forall j | 0 <= j <= k + 1
      ensures out.ms[j] == Repaired(ms[j], node, red, blue, rng)
    {
      if j > 0 {
        assert ms[j] == ms[1..][j - 1] && out.ms[j] == rest.ms[j - 1];
      }
    }
    forall j | k + 1 < j < |ms|
      ensures out.ms[j] == ms[j]
    {
      assert ms[j] == ms[1..][j - 1] && out.ms[j] == rest.ms[j - 1];
    }
  }

  /** A completed match of the node whose winner marker is not R, B or T, as named by an
      InvalidWinner error. */
  predicate Offends(m: Match, node: Node, e: Error)
    requires e.InvalidWinner?
  {
    InNode(m, node) && IsComplete(m) && m.id == e.matchId && m.winner == e.winner
    && !ValidWinner(m.winner)
  }

  /** An InvalidWinner failure names a completed node match whose marker is not R, B or T. */
  lemma {:induction false} InvalidWinnerIsGenuine(ms: seq<Match>, node: Node, red: Roster, blue: Roster, rng: Shuffler)
    requires RepairAll(ms, node, red, blue, rng).failure.Some?
    requires RepairAll(ms, node, red, blue, rng).failure.value.InvalidWinner?
    ensures exists i :: 0 <= i < |ms| && Offends(ms[i], node, RepairAll(ms, node, red, blue, rng).failure.value)
  {
    var e := RepairAll(ms, node, red, blue, rng).failure.value;
    var m := ms[0];
    var r := Repair(m, red, blue, rng);
    if InNode(m, node) && r.Ok? && IsComplete(r.value) && !ValidWinner(r.value.winner) {
      assert SameOutcome(r.value, m);
      assert Offends(m, node, e);
    } else {
      assert RepairAll(ms[1..], node, red, blue, rng).failure == Some(e) by {
        if InNode(m, node) {
          assert r.Ok?;
        }
      }
      InvalidWinnerIsGenuine(ms[1..], node, red, blue, rng);
      var i :| 0 <= i < |ms[1..]| && Offends(ms[1..][i], node, e);
      assert Offends(ms[i + 1], node, e);
    }
  }

  /** Fills an unknown side with placeholders before creating matches; red is padded in
      preference to blue, as in the source. At most one side changes, only an unknown one
      changes, and red is known afterwards, blue too when red was known before. */
  function Pad(red: Roster, blue: Roster): (sides: (Roster, Roster))
    ensures sides.0 == red || sides.1 == blue
    ensures sides.0 != red ==> !Known(red) && sides.0 == Placeholders
    ensures sides.1 != blue ==> !Known(blue) && sides.1 == Placeholders
    ensures Known(sides.0) && (Known(red) ==> Known(sides.1))
  {
    if !Known(red) then (Placeholders, blue)
    else if !Known(blue) then (red, Placeholders)
    else (red, blue)
  }

  /** A freshly created unplayed match of the node: the given instance and id, and each
      side holding the first three teams of its alliance in some order. */
  predicate IsNewMatch(m: Match, node: Node, instance: int, id: int, red: Roster, blue: Roster)
    requires |red| >= 3 && |blue| >= 3
  {
    && InNode(m, node) && !IsComplete(m) && m.instance == instance && m.id == id
    && Teams(m.red) == multiset(red[..3]) && Teams(m.blue) == multiset(blue[..3])
  }

  /** The primary matches of instances k..3 of a node, created with consecutive ids from
      `id`; none when k is past 3. */
  function Primaries(node: Node, k: int, red: Roster, blue: Roster, rng: Shuffler, id: int): (ms: seq<Match>)
    requires ValidNode(node) && k >= 1 && |red| >= 3 && |blue| >= 3
    ensures |ms| == if k <= 3 then 4 - k else 0
    ensures forall j :: 0 <= j < |ms| ==> IsNewMatch(ms[j], node, k + j, id + j, red, blue)
    decreases 4 - k
  {
    if k > 3 then []
    else
      var head := NewMatch(node, k, red, blue, rng, id);
      var tail := Primaries(node, k + 1, red, blue, rng, id + 1);
      assert IsNewMatch(head, node, k, id, red, blue);
      [head] + tail
  }

  /** A replay of a tied match: a new unplayed instance with the tie's exact slots. */
  function ReplayOf(node: Node, instance: int, tie: Match, id: int): (m: Match)
    requires ValidNode(node)
    ensures InNode(m, node) && !IsComplete(m) && m.instance == instance && m.id == id
    ensures m.red == tie.red && m.blue == tie.blue
  {
    Match(id, Elimination, RoundLabel(node), node.round, node.group, instance,
          tie.red, tie.blue, "", "", 0)
  }

  /** One replay per tie, numbered from `next` on, with consecutive ids from `id`. */
  function TieReplays(node: Node, next: int, ties: seq<Match>, id: int): (ms: seq<Match>)
    requires ValidNode(node)
    decreases |ties|
    ensures |ms| == |ties|
    ensures forall i :: 0 <= i < |ms| ==>
              && InNode(ms[i], node) && !IsComplete(ms[i])
              && ms[i].instance == next + i && ms[i].id == id + i
              && ms[i].red == ties[i].red && ms[i].blue == ties[i].blue
  {
    if |ties| == 0 then []
    else [ReplayOf(node, next, ties[0], id)] + TieReplays(node, next + 1, ties[1..], id + 1)
  }

  /** Replays every tie of the node once no match of it is left unplayed; the replays are
      numbered after the node's existing matches. */
  function ReplayTies(st: Store, node: Node, nm: seq<Match>): (st': Store)
    requires ValidNode(node)
    ensures |Unplayed(nm)| > 0 ==> st' == st
    ensures |Unplayed(nm)| == 0 ==>
              && |st'.matches| == |st.matches| + |Ties(nm)|
              && st'.matches[..|st.matches|] == st.matches
              && st'.nextId == st.nextId + |Ties(nm)|
              && forall i :: 0 <= i < |Ties(nm)| ==>
                   && InNode(st'.matches[|st.matches| + i], node)
                   && !IsComplete(st'.matches[|st.matches| + i])
                   && st'.matches[|st.matches| + i].id == st.nextId + i
                   && st'.matches[|st.matches| + i].instance == |nm| + 1 + i
                   && st'.matches[|st.matches| + i].red == Ties(nm)[i].red
                   && st'.matches[|st.matches| + i].blue == Ties(nm)[i].blue
  {
    if |Unplayed(nm)| == 0 then Insert(st, TieReplays(node, |nm| + 1, Ties(nm), st.nextId))
    else st
  }

  /** Whether the node must be topped up to three primary matches: it has none, or it has
      neither ties nor unplayed matches. */
  predicate NeedsTopUp(nm: seq<Match>) {
    |nm| == 0 || (|Ties(nm)| == 0 && |Unplayed(nm)| == 0)
  }

  /** A node is topped up exactly when every match it has is complete and none is a tie;
      in particular when it has no match at all. */
  lemma NeedsTopUpIffDecisive(nm: seq<Match>)
    ensures NeedsTopUp(nm) <==> forall i :: 0 <= i < |nm| ==> IsComplete(nm[i]) && nm[i].winner != "T"
  {
    if forall i :: 0 <= i < |nm| ==> IsComplete(nm[i]) && nm[i].winner != "T" {
      FilterNone(nm, m => !IsComplete(m));
      FilterNone(nm, m => IsComplete(m) && m.winner == "T");
    }
    if NeedsTopUp(nm) {
      forall i | 0 <= i < |nm|
        ensures IsComplete(nm[i]) && nm[i].winner != "T"
      {
        assert nm[i] in nm;
      }
    }
  }

  /** Creates the primary matches of the instances after the node's `count` existing ones,
      up to 3. The unknown side (red first) is filled with placeholders; a side with fewer
      than three teams is an error and nothing is written. */
  function TopUp(st: Store, node: Node, count: nat, red: Roster, blue: Roster, rng: Shuffler): (out: Step)
    requires ValidNode(node)
    ensures var sides := Pad(red, blue);
            && (out.result.Err? <==> |sides.0| < 3 || |sides.1| < 3)
            && (out.result.Err? ==> out == Step(st, Err(RosterTooSmall)))
    ensures var sides := Pad(red, blue);
            out.result.Ok? ==>
              && |sides.0| >= 3 && |sides.1| >= 3
              && out.result.value == []
              && |out.store.matches| == |st.matches| + Missing(count)
              && out.store.matches[..|st.matches|] == st.matches
              && out.store.nextId == st.nextId + Missing(count)
              && var created := out.store.matches[|st.matches|..];
                 forall j :: 0 <= j < |created| ==>
                   IsNewMatch(created[j], node, count + 1 + j, st.nextId + j, sides.0, sides.1)
  {
    var sides := Pad(red, blue);
    if |sides.0| < 3 || |sides.1| < 3 then Step(st, Err(RosterTooSmall))
    else Step(Insert(st, Primaries(node, count + 1, sides.0, sides.1, rng, st.nextId)), Ok([]))
  }

  /** The decisions taken on a store whose node matches have been repaired and checked. */
  function Settle(st: Store, node: Node, red: Roster, blue: Roster, rng: Shuffler): (out: Step)
    requires ValidNode(node)
    ensures out.result.Ok? ==> out.result.value in {red, blue, []}
  {
    var nm := NodeMatches(st.matches, node);
    var redWins, blueWins := Wins(nm, "R"), Wins(nm, "B");
    if redWins == 2 || blueWins == 2 then
      Step(st.(matches := DropUnplayed(st.matches, node)), Ok(if redWins == 2 then red else blue))
    else if NeedsTopUp(nm) then
      var up := TopUp(st, node, |nm|, red, blue, rng);
      if up.result.Err? then up else Step(ReplayTies(up.store, node, nm), Ok([]))
    else
      Step(ReplayTies(st, node, nm), Ok([]))
  }

  /** Reconciles the matches of one node against its red and blue alliances (either may be
      unknown). The result is the winning alliance, or the empty roster while the node is
      undecided. */
  function Reconcile(st: Store, node: Node, red: Roster, blue: Roster, rng: Shuffler): (out: Step)
    requires ValidNode(node)
    ensures out.result.Err? ==>
              out.result.error.InvalidWinner? || out.result.error in {RosterTooSmall, IndexPanic}
    ensures out.result.Ok? ==> out.result.value in {red, blue, []}
  {
    var scan := RepairAll(st.matches, node, red, blue, rng);
    if scan.failure.Some? then Step(st.(matches := scan.ms), Err(scan.failure.value))
    else Settle(st.(matches := scan.ms), node, red, blue, rng)
  }

  /** The number of primary matches a top-up creates for a node that has `count` matches. */
  function Missing(count: nat): nat {
    if count < 3 then 3 - count else 0
  }

  /** A node one of whose alliances has exactly two wins: that alliance is the result (red
      when both have two), the node's unplayed matches are deleted, its completed ones and
      the rest of the store stay, and nothing is created. */
  lemma SettleWinner(st: Store, node: Node, red: Roster, blue: Roster, rng: Shuffler)
    requires ValidNode(node)
    requires Wins(NodeMatches(st.matches, node), "R") == 2 || Wins(NodeMatches(st.matches, node), "B") == 2
    ensures Settle(st, node, red, blue, rng).result
              == Ok(if Wins(NodeMatches(st.matches, node), "R") == 2 then red else blue)
    ensures NodeMatches(Settle(st, node, red, blue, rng).store.matches, node)
              == Played(NodeMatches(st.matches, node))
    ensures Others(Settle(st, node, red, blue, rng).store.matches, node) == Others(st.matches, node)
    ensures Settle(st, node, red, blue, rng).store.nextId == st.nextId
  {
    DropUnplayedEffect(st.matches, node);
  }

  /** A node without a winner that has no matches, or neither ties nor unplayed matches,
      is topped up, and nothing else happens: having no ties, it has nothing to replay. */
  lemma SettleTopUp(st: Store, node: Node, red: Roster, blue: Roster, rng: Shuffler)
    requires ValidNode(node)
    requires Wins(NodeMatches(st.matches, node), "R") != 2 && Wins(NodeMatches(st.matches, node), "B") != 2
    requires NeedsTopUp(NodeMatches(st.matches, node))
    ensures Settle(st, node, red, blue, rng) == TopUp(st, node, |NodeMatches(st.matches, node)|, red, blue, rng)
  {
    var nm := NodeMatches(st.matches, node);
    assert Ties(nm) == [] && |Unplayed(nm)| == 0;
  }

  /** A node without a winner whose matches are all played but some tied gets one replay
      per tie, numbered after its existing matches, each with the tie's exact slots. */
  lemma SettleReplays(st: Store, node: Node, red: Roster, blue: Roster, rng: Shuffler)
    requires ValidNode(node)
    requires Wins(NodeMatches(st.matches, node), "R") != 2 && Wins(NodeMatches(st.matches, node), "B") != 2
    requires !NeedsTopUp(NodeMatches(st.matches, node)) && |Unplayed(NodeMatches(st.matches, node))| == 0
    ensures var ties := Ties(NodeMatches(st.matches, node));
            var out := Settle(st, node, red, blue, rng);
            && |ties| > 0
            && out.result == Ok([])
            && |out.store.matches| == |st.matches| + |ties|
            && out.store.matches[..|st.matches|] == st.matches
            && out.store.nextId == st.nextId + |ties|
    ensures var nm := NodeMatches(st.matches, node);
            var ties := Ties(nm);
            var out := Settle(st, node, red, blue, rng);
            |out.store.matches| >= |st.matches| &&
            var created := out.store.matches[|st.matches|..];
            forall i :: 0 <= i < |created| ==>
              && i < |ties|
              && InNode(created[i], node) && !IsComplete(created[i])
              && created[i].instance == |nm| + 1 + i && created[i].id == st.nextId + i
              && created[i].red == ties[i].red && created[i].blue == ties[i].blue
  {
    var nm := NodeMatches(st.matches, node);
    assert Settle(st, node, red, blue, rng)
             == Step(Insert(st, TieReplays(node, |nm| + 1, Ties(nm), st.nextId)), Ok([]));
  }

  /** A node without a winner that still has unplayed matches is left as it is. */
  lemma SettleWaits(st: Store, node: Node, red: Roster, blue: Roster, rng: Shuffler)
    requires ValidNode(node)
    requires Wins(NodeMatches(st.matches, node), "R") != 2 && Wins(NodeMatches(st.matches, node), "B") != 2
    requires |Unplayed(NodeMatches(st.matches, node))| > 0
    ensures Settle(st, node, red, blue, rng) == Step(st, Ok([]))
  {
    var nm := NodeMatches(st.matches, node);
    assert |nm| > 0 by {
      var u := Unplayed(nm);
      assert u[0] in nm;
    }
  }

  /** The repair pass leaves the records of other nodes exactly as they were. */
  lemma {:induction false} RepairAllKeepsOthers(ms: seq<Match>, node: Node, red: Roster, blue: Roster, rng: Shuffler)
    ensures Others(RepairAll(ms, node, red, blue, rng).ms, node) == Others(ms, node)
  {
    var out := RepairAll(ms, node, red, blue, rng);
    if |ms| != 0 && out.ms != ms {
      var m := ms[0];
      assert out.ms[0] == m || InNode(out.ms[0], node) by {
        if InNode(m, node) {
          assert SameOutcome(out.ms[0], m);
        }
      }
      assert out.ms[1..] == ms[1..] || out.ms[1..] == RepairAll(ms[1..], node, red, blue, rng).ms;
      RepairAllKeepsOthers(ms[1..], node, red, blue, rng);
    }
  }

  /** When every node match passes the repair pass, reconciliation takes its decision on
      the repaired store: every node match is replaced by its repair, the rest of the store
      stays, and the node's matches keep their results, tallies, ties and unplayed ones. */
  lemma ReconcileDecides(st: Store, node: Node, red: Roster, blue: Roster, rng: Shuffler)
    requires ValidNode(node) && AllAcceptable(st.matches, node, red, blue, rng)
    ensures var scanned := st.(matches := RepairAll(st.matches, node, red, blue, rng).ms);
            Reconcile(st, node, red, blue, rng) == Settle(scanned, node, red, blue, rng)
    ensures var scanned := RepairAll(st.matches, node, red, blue, rng).ms;
            && |scanned| == |st.matches|
            && (forall i :: 0 <= i < |st.matches| && InNode(st.matches[i], node) ==>
                  Repair(st.matches[i], red, blue, rng) == Ok(scanned[i]))
            && Others(scanned, node) == Others(st.matches, node)
    ensures var nm, nm' := NodeMatches(st.matches, node), NodeMatches(RepairAll(st.matches, node, red, blue, rng).ms, node);
            && SameOutcomes(nm', nm)
            && (forall w :: Wins(nm', w) == Wins(nm, w))
            && SameOutcomes(Ties(nm'), Ties(nm))
            && |Unplayed(nm')| == |Unplayed(nm)|
  {
    RepairAllSucceeds(st.matches, node, red, blue, rng);
    RepairAllRepairs(st.matches, node, red, blue, rng);
    RepairAllKeepsOthers(st.matches, node, red, blue, rng);
    SameTallies(RepairAll(st.matches, node, red, blue, rng).ms, st.matches, node);
  }

  /** When some node match does not pass the repair pass, reconciliation fails with the
      error of the first such match; the slots saved up to it stay saved, the records
      after it are untouched, and nothing is created or deleted. An InvalidWinner error
      names a completed node match whose marker is not R, B or T. */
  lemma ReconcileFails(st: Store, node: Node, red: Roster, blue: Roster, rng: Shuffler)
    requires ValidNode(node) && !AllAcceptable(st.matches, node, red, blue, rng)
    ensures var out := Reconcile(st, node, red, blue, rng);
            && out.result.Err?
            && (out.result.error.InvalidWinner? || out.result.error == IndexPanic)
            && out.store.nextId == st.nextId
            && SameOutcomes(out.store.matches, st.matches)
            && Others(out.store.matches, node) == Others(st.matches, node)
    ensures var out := Reconcile(st, node, red, blue, rng);
            out.result.Err? && out.result.error.InvalidWinner? ==>
              exists i :: 0 <= i < |st.matches| && Offends(st.matches[i], node, out.result.error)
    ensures var out := Reconcile(st, node, red, blue, rng);
            exists k :: && FirstFailure(st.matches, node, red, blue, rng, k)
                        && 0 <= k < |st.matches| && |out.store.matches| == |st.matches|
                        && out.result == Err(FailureOf(st.matches[k], red, blue, rng))
                        && (forall j :: 0 <= j <= k ==>
                              out.store.matches[j] == Repaired(st.matches[j], node, red, blue, rng))
                        && (forall j :: k < j < |st.matches| ==> out.store.matches[j] == st.matches[j])
  {
    RepairAllStops(st.matches, node, red, blue, rng);
    RepairAllSucceeds(st.matches, node, red, blue, rng);
    RepairAllKeepsOthers(st.matches, node, red, blue, rng);
    if RepairAll(st.matches, node, red, blue, rng).failure.value.InvalidWinner? {
      InvalidWinnerIsGenuine(st.matches, node, red, blue, rng);
    }
  }

  /** Appending unplayed matches of the node to the store: the node's list grows by them,
      its unplayed list grows by them, and its tallies, its ties and the rest of the store
      stay as they were. */
  lemma AppendedToNode(st: Store, after: Store, node: Node)
    requires |after.matches| >= |st.matches| && after.matches[..|st.matches|] == st.matches
    requires var created := after.matches[|st.matches|..];
             forall i :: 0 <= i < |created| ==> InNode(created[i], node) && !IsComplete(created[i])
    ensures var created := after.matches[|st.matches|..];
            var nm := NodeMatches(st.matches, node);
            && NodeMatches(after.matches, node) == nm + created
            && Others(after.matches, node) == Others(st.matches, node)
            && (forall w :: Wins(nm + created, w) == Wins(nm, w))
            && Ties(nm + created) == Ties(nm)
            && Unplayed(nm + created) == Unplayed(nm) + created
  {
    var created := after.matches[|st.matches|..];
    assert after.matches == st.matches + created;
    InsertIntoNode(st, created, node);
    AppendUnplayed(NodeMatches(st.matches, node), created);
  }

  /** A topped-up node ends with at least three matches: exactly three when it had fewer. */
  lemma TopUpFills(st: Store, node: Node, red: Roster, blue: Roster, rng: Shuffler)
    requires ValidNode(node)
    ensures var count := |NodeMatches(st.matches, node)|;
            var out := TopUp(st, node, count, red, blue, rng);
            out.result.Ok? ==> |NodeMatches(out.store.matches, node)| == if count < 3 then 3 else count
  {
    var count := |NodeMatches(st.matches, node)|;
    var out := TopUp(st, node, count, red, blue, rng);
    if out.result.Ok? {
      NewMatchesAreUnplayed(st, node, count, red, blue, rng);
      FilledByAppend(st, out.store, node);
    }
  }

  /** Appending the missing number of unplayed matches of a node brings it to three. */
  lemma FilledByAppend(st: Store, after: Store, node: Node)
    requires |after.matches| == |st.matches| + Missing(|NodeMatches(st.matches, node)|)
    requires after.matches[..|st.matches|] == st.matches
    requires var created := after.matches[|st.matches|..];
             forall i :: 0 <= i < |created| ==> InNode(created[i], node) && !IsComplete(created[i])
    ensures var count := |NodeMatches(st.matches, node)|;
            |NodeMatches(after.matches, node)| == if count < 3 then 3 else count
  {
    AppendedToNode(st, after, node);
  }

  /** What a successful top-up creates are unplayed matches of the node. */
  lemma NewMatchesAreUnplayed(st: Store, node: Node, count: nat, red: Roster, blue: Roster, rng: Shuffler)
    requires ValidNode(node)
    ensures var out := TopUp(st, node, count, red, blue, rng);
            out.result.Ok? ==>
              && |out.store.matches| == |st.matches| + Missing(count)
              && out.store.matches[..|st.matches|] == st.matches
              && var created := out.store.matches[|st.matches|..];
                 forall i :: 0 <= i < |created| ==> InNode(created[i], node) && !IsComplete(created[i])
  {
    var sides := Pad(red, blue);
    var out := TopUp(st, node, count, red, blue, rng);
    if out.result.Ok? {
      var created := out.store.matches[|st.matches|..];
      forall i | 0 <= i < |created|
        ensures InNode(created[i], node) && !IsComplete(created[i])
      {
        assert IsNewMatch(created[i], node, count + 1 + i, st.nextId + i, sides.0, sides.1);
      }
    }
  }

  /** A node in which reconciliation has nothing to create: it has a winner, or unplayed
      matches, or at least three matches and no tie. */
  predicate Quiet(nm: seq<Match>) {
    || Wins(nm, "R") == 2 || Wins(nm, "B") == 2
    || |Unplayed(nm)| > 0
    || (|nm| >= 3 && |Ties(nm)| == 0)
  }

  /** Settling a quiet node creates no match. */
  lemma SettleQuietCreatesNothing(st: Store, node: Node, red: Roster, blue: Roster, rng: Shuffler)
    requires ValidNode(node) && Quiet(NodeMatches(st.matches, node))
    ensures Settle(st, node, red, blue, rng).store.nextId == st.nextId
  {
    var nm := NodeMatches(st.matches, node);
    if Wins(nm, "R") == 2 || Wins(nm, "B") == 2 {
      SettleWinner(st, node, red, blue, rng);
    } else if |Unplayed(nm)| > 0 {
      SettleWaits(st, node, red, blue, rng);
    } else {
      SettleTopUp(st, node, red, blue, rng);
    }
  }

  /** A successful settlement leaves the node quiet. */
  lemma SettleLeavesQuiet(st: Store, node: Node, red: Roster, blue: Roster, rng: Shuffler)
    requires ValidNode(node)
    ensures var out := Settle(st, node, red, blue, rng);
            out.result.Ok? ==> Quiet(NodeMatches(out.store.matches, node))
  {
    var nm := NodeMatches(st.matches, node);
    if Wins(nm, "R") == 2 || Wins(nm, "B") == 2 {
      SettleWinner(st, node, red, blue, rng);
      DropUnplayedEffect(st.matches, node);
    } else if |Unplayed(nm)| > 0 {
      SettleWaits(st, node, red, blue, rng);
    } else if NeedsTopUp(nm) {
      SettleTopUp(st, node, red, blue, rng);
      QuietAfterTopUp(st, node, red, blue, rng);
    } else {
      QuietAfterReplays(st, node, red, blue, rng);
    }
  }

  lemma QuietAfterTopUp(st: Store, node: Node, red: Roster, blue: Roster, rng: Shuffler)
    requires ValidNode(node) && NeedsTopUp(NodeMatches(st.matches, node))
    ensures var out := TopUp(st, node, |NodeMatches(st.matches, node)|, red, blue, rng);
            out.result.Ok? ==> Quiet(NodeMatches(out.store.matches, node))
  {
    var nm := NodeMatches(st.matches, node);
    var out := TopUp(st, node, |nm|, red, blue, rng);
    if out.result.Ok? {
      NewMatchesAreUnplayed(st, node, |nm|, red, blue, rng);
      QuietByAppend(st, out.store, node);
    }
  }

  /** A node that needed topping up is quiet once the missing unplayed matches are appended. */
  lemma QuietByAppend(st: Store, after: Store, node: Node)
    requires NeedsTopUp(NodeMatches(st.matches, node))
    requires |after.matches| == |st.matches| + Missing(|NodeMatches(st.matches, node)|)
    requires after.matches[..|st.matches|] == st.matches
    requires var created := after.matches[|st.matches|..];
             forall i :: 0 <= i < |created| ==> InNode(created[i], node) && !IsComplete(created[i])
    ensures Quiet(NodeMatches(after.matches, node))
  {
    var nm := NodeMatches(st.matches, node);
    AppendedToNode(st, after, node);
    var created := after.matches[|st.matches|..];
    if |created| > 0 {
      assert created[0] in Unplayed(nm + created);
    } else {
      assert nm + created == nm;
    }
  }

  lemma QuietAfterReplays(st: Store, node: Node, red: Roster, blue: Roster, rng: Shuffler)
    requires ValidNode(node)
    requires Wins(NodeMatches(st.matches, node), "R") != 2 && Wins(NodeMatches(st.matches, node), "B") != 2
    requires !NeedsTopUp(NodeMatches(st.matches, node)) && |Unplayed(NodeMatches(st.matches, node))| == 0
    ensures Quiet(NodeMatches(Settle(st, node, red, blue, rng).store.matches, node))
  {
    var nm := NodeMatches(st.matches, node);
    var after := Settle(st, node, red, blue, rng).store;
    SettleReplays(st, node, red, blue, rng);
    AppendedToNode(st, after, node);
    var created := after.matches[|st.matches|..];
    assert created[0] in Unplayed(nm + created);
  }

  /** Two snapshots that differ only in team slots are equally quiet. */
  lemma QuietSameOutcomes(a: seq<Match>, b: seq<Match>, node: Node)
    requires SameOutcomes(a, b)
    ensures Quiet(NodeMatches(a, node)) == Quiet(NodeMatches(b, node))
  {
    SameTallies(a, b, node);
  }

  /** Reconciliation settles a node: reconciling again the store a successful
      reconciliation left creates no further match, whatever permutations the second
      call draws. */
  lemma ReconcileSettles(st: Store, node: Node, red: Roster, blue: Roster, rng: Shuffler, rng2: Shuffler)
    requires ValidNode(node)
    ensures var out := Reconcile(st, node, red, blue, rng);
            out.result.Ok? ==> Reconcile(out.store, node, red, blue, rng2).store.nextId == out.store.nextId
  {
    if Reconcile(st, node, red, blue, rng).result.Ok? {
      if !AllAcceptable(st.matches, node, red, blue, rng) {
        ReconcileFails(st, node, red, blue, rng);
        assert false;
      }
      ReconcileDecides(st, node, red, blue, rng);
      var scanned := st.(matches := RepairAll(st.matches, node, red, blue, rng).ms);
      SettleLeavesQuiet(scanned, node, red, blue, rng);
      var st1 := Reconcile(st, node, red, blue, rng).store;
      if AllAcceptable(st1.matches, node, red, blue, rng2) {
        ReconcileDecides(st1, node, red, blue, rng2);
        var rescanned := st1.(matches := RepairAll(st1.matches, node, red, blue, rng2).ms);
        QuietSameOutcomes(rescanned.matches, st1.matches, node);
        SettleQuietCreatesNothing(rescanned, node, red, blue, rng2);
      } else {
        ReconcileFails(st1, node, red, blue, rng2);
      }
    }
  }

  /** Settling a node leaves the rest of the store alone and never takes an id back. */
  lemma SettleKeepsOthers(st: Store, node: Node, red: Roster, blue: Roster, rng: Shuffler)
    requires ValidNode(node)
    ensures Others(Settle(st, node, red, blue, rng).store.matches, node) == Others(st.matches, node)
    ensures Settle(st, node, red, blue, rng).store.nextId >= st.nextId
  {
    var nm := NodeMatches(st.matches, node);
    var after := Settle(st, node, red, blue, rng).store;
    if Wins(nm, "R") == 2 || Wins(nm, "B") == 2 {
      SettleWinner(st, node, red, blue, rng);
    } else if |Unplayed(nm)| > 0 {
      SettleWaits(st, node, red, blue, rng);
    } else if NeedsTopUp(nm) {
      SettleTopUp(st, node, red, blue, rng);
      if TopUp(st, node, |nm|, red, blue, rng).result.Ok? {
        NewMatchesAreUnplayed(st, node, |nm|, red, blue, rng);
        AppendedToNode(st, after, node);
      }
    } else {
      SettleReplays(st, node, red, blue, rng);
      AppendedToNode(st, after, node);
    }
  }

  /** Reconciling a node never touches a record of another node and never takes an id
      back, whatever its outcome. */
  lemma ReconcileKeepsOthers(st: Store, node: Node, red: Roster, blue: Roster, rng: Shuffler)
    requires ValidNode(node)
    ensures Others(Reconcile(st, node, red, blue, rng).store.matches, node) == Others(st.matches, node)
    ensures Reconcile(st, node, red, blue, rng).store.nextId >= st.nextId
  {
    if AllAcceptable(st.matches, node, red, blue, rng) {
      ReconcileDecides(st, node, red, blue, rng);
      SettleKeepsOthers(st.(matches := RepairAll(st.matches, node, red, blue, rng).ms), node, red, blue, rng);
    } else {
      ReconcileFails(st, node, red, blue, rng);
    }
  }
}
