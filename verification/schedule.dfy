/**
 * Kick-off times for the elimination matches still to be played, and the top-level update
 * that rebuilds the bracket from the final down and then renumbers the schedule.
 */
module Schedule {
  import opened Types
  import opened Seeding
  import opened Resolver

  /** Seconds between consecutive elimination matches. */
  const Spacing: int := 600

  /** A match the schedule still has to place: an elimination match not yet complete. */
  predicate Pending(m: Match) {
    m.kind == Elimination && !IsComplete(m)
  }

  /** How many matches of `ms` are pending. */
  function PendingCount(ms: seq<Match>): nat {
    if |ms| == 0 then 0
    else PendingCount(ms[..|ms| - 1]) + (if Pending(ms[|ms| - 1]) then 1 else 0)
  }

  /** The record at position i once the schedule is renumbered from `start`: a pending
      match is placed after every pending match before it, the others keep their time. */
  function Scheduled(ms: seq<Match>, start: int, i: int): Match
    requires 0 <= i < |ms|
  {
    if Pending(ms[i]) then ms[i].(time := start + Spacing * PendingCount(ms[..i])) else ms[i]
  }

  /** Walks the matches in list order with a running index, placing each pending match at
      `start + 600 * index`. Only times change, and completed matches keep theirs. */
  method AssignTimes(ms: seq<Match>, start: int) returns (r: seq<Match>)
    ensures |r| == |ms|
    ensures forall i :: 0 <= i < |ms| ==> r[i] == Scheduled(ms, start, i)
    ensures forall i :: 0 <= i < |ms| ==> r[i].(time := ms[i].time) == ms[i]
    ensures forall i :: 0 <= i < |ms| && !Pending(ms[i]) ==> r[i] == ms[i]
  {
    r := [];
    var index := 0;
    for i := 0 to |ms|
      invariant |r| == i
      invariant index == PendingCount(ms[..i])
      invariant forall j :: 0 <= j < i ==> r[j] == Scheduled(ms, start, j)
    {
      assert ms[..i + 1][..i] == ms[..i];
      var m := ms[i];
      if Pending(m) {
        m := m.(time := start + index * Spacing);
        index := index + 1;
      }
      r := r + [m];
    }
  }

  /** Counting pending matches over a longer prefix counts at least as many, and one more
      for every pending match the longer prefix adds. */
  lemma {:induction false} PendingCountGrows(ms: seq<Match>, i: int, j: int)
    requires 0 <= i <= j <= |ms|
    ensures PendingCount(ms[..i]) <= PendingCount(ms[..j])
    ensures i < j && Pending(ms[i]) ==> PendingCount(ms[..i]) < PendingCount(ms[..j])
    decreases j - i
  {
    if i < j {
      PendingCountGrows(ms, i, j - 1);
      assert ms[..j][..j - 1] == ms[..j - 1];
      if i == j - 1 {
        assert ms[..j][j - 1] == ms[i];
      }
    }
  }

  /** A prefix with no pending match counts zero. */
  lemma {:induction false} NoPendingCountsZero(ms: seq<Match>)
    requires forall k :: 0 <= k < |ms| ==> !Pending(ms[k])
    ensures PendingCount(ms) == 0
  {
    if |ms| != 0 {
      NoPendingCountsZero(ms[..|ms| - 1]);
    }
  }

  /** The first pending match starts the schedule. */
  lemma FirstAtStart(ms: seq<Match>, start: int, i: int)
    requires 0 <= i < |ms| && Pending(ms[i])
    requires forall k :: 0 <= k < i ==> !Pending(ms[k])
    ensures Scheduled(ms, start, i).time == start
  {
    NoPendingCountsZero(ms[..i]);
  }

  /** Pending matches are scheduled in list order, at least 600 seconds apart. */
  lemma TimesIncrease(ms: seq<Match>, start: int, i: int, j: int)
    requires 0 <= i < j < |ms| && Pending(ms[i]) && Pending(ms[j])
    ensures Scheduled(ms, start, i).time + Spacing <= Scheduled(ms, start, j).time
  {
    PendingCountGrows(ms, i, j);
  }

  /** Two pending matches with none pending between them are exactly 600 seconds apart. */
  lemma {:induction false} NextIsSpaced(ms: seq<Match>, start: int, i: int, j: int)
    requires 0 <= i < j < |ms| && Pending(ms[i]) && Pending(ms[j])
    requires forall k :: i < k < j ==> !Pending(ms[k])
    ensures Scheduled(ms, start, j).time == Scheduled(ms, start, i).time + Spacing
  {
    SkipsNonPending(ms, i + 1, j);
    assert ms[..i + 1][..i] == ms[..i];
  }

  /** Matches that are not pending do not move the count. */
  lemma {:induction false} SkipsNonPending(ms: seq<Match>, i: int, j: int)
    requires 0 < i <= j <= |ms|
    requires forall k :: i <= k < j ==> !Pending(ms[k])
    ensures PendingCount(ms[..j]) == PendingCount(ms[..i])
    decreases j - i
  {
    if i < j {
      SkipsNonPending(ms, i, j - 1);
      assert ms[..j][..j - 1] == ms[..j - 1];
    }
  }

  /** Two lists that agree on which positions are pending count alike on every prefix. */
  lemma {:induction false} SamePendingCount(a: seq<Match>, b: seq<Match>)
    requires |a| == |b| && forall k :: 0 <= k < |a| ==> Pending(a[k]) == Pending(b[k])
    ensures PendingCount(a) == PendingCount(b)
  {
    if |a| != 0 {
      SamePendingCount(a[..|a| - 1], b[..|b| - 1]);
    }
  }

  /** Renumbering an already renumbered schedule from the same start changes nothing. */
  lemma AssignTimesIdempotent(ms: seq<Match>, r: seq<Match>, start: int)
    requires |r| == |ms| && forall i :: 0 <= i < |ms| ==> r[i] == Scheduled(ms, start, i)
    ensures forall i :: 0 <= i < |r| ==> Scheduled(r, start, i) == r[i]
  {
    forall i | 0 <= i < |r|
      ensures Scheduled(r, start, i) == r[i]
    {
      SamePendingCount(r[..i], ms[..i]);
    }
  }

  /** One call of the bracket update: resolve the bracket from the final down, then
      renumber the kick-off times of every pending match. An error ends the update with
      the store as the walk left it and no times assigned. */
  method UpdateEliminationSchedule(st: Store, alliances: seq<Roster>, rng: Shuffler, start: int)
    returns (st': Store, winner: Result<Roster>)
    ensures var built := Build(st, alliances, rng, Node(1, 1));
            && winner == built.result
            && (winner.Err? ==> st' == built.store)
            && (winner.Ok? ==> && st'.nextId == built.store.nextId
                               && |st'.matches| == |built.store.matches|
                               && forall i :: 0 <= i < |st'.matches| ==>
                                    st'.matches[i] == Scheduled(built.store.matches, start, i))
    ensures winner == Err(TooFewAlliances) <==> |alliances| < 2
    ensures |alliances| >= 17 ==> st' == st && winner == Err(UnsupportedDepth(32))
    ensures 2 <= |alliances| <= 16 && AllKnown(alliances) ==> !(winner.Err? && winner.error.UnsupportedDepth?)
    ensures winner.Ok? && Known(winner.value) ==>
              exists k :: 0 <= k < |alliances| && winner.value == alliances[k]
  {
    var built := Build(st, alliances, rng, Node(1, 1));
    if |alliances| >= 17 {
      TooManyAlliances(st, alliances, rng);
    } else if 2 <= |alliances| && AllKnown(alliances) {
      RootDepthBound(st, alliances, rng);
    }
    winner := built.result;
    if winner.Err? {
      st' := built.store;
      return;
    }
    WinnerIsAnAlliance(st, alliances, rng);
    var timed := AssignTimes(built.store.matches, start);
    st' := Store(timed, built.store.nextId);
  }

  /** The winner of the final is the roster of one of the alliances. */
  lemma WinnerIsAnAlliance(st: Store, alliances: seq<Roster>, rng: Shuffler)
    ensures var w := Build(st, alliances, rng, Node(1, 1)).result;
            w.Ok? && Known(w.value) ==> exists k :: 0 <= k < |alliances| && w.value == alliances[k]
  {
    var root := Node(1, 1);
    var out := Build(st, alliances, rng, root).result;
    if out.Ok? && Known(out.value) {
      var w := out.value;
      WinnerFromBlock(st, alliances, rng, root);
      var i :| 0 <= i < |Block(root)| && w == TeamsOf(alliances, Block(root)[i]);
      var seed := Block(root)[i];
      assert 1 <= seed <= |alliances|;
      assert w == alliances[seed - 1];
    }
  }
}
