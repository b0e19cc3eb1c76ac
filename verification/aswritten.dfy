/**
 * The node decisions exactly as the reconcile loop writes them, under the loop-variable
 * semantics of Go before version 1.22: `for _, match := range matches` declares one
 * variable that every iteration overwrites, so each `&match` the loop stores (into the
 * unplayed list and the tie list) points to that one variable, which after the loop holds
 * the node's last match. The rest of the model uses the intended behaviour; most lemmas
 * here exhibit inputs on which the two differ. The last two, `TieReplayedAgain` and
 * `ThreeWinsStall`, are instead concrete inputs for `Reconciler.Settle`, with the intended
 * slot copying, on which the code departs from the intended rules of the bracket.
 */
module AsWritten {
  import opened Types
  import opened Seeding
  import opened MatchOps
  import opened Queries
  import opened Reconciler

  /** The match every stored pointer refers to once the loop has finished. */
  function LastOf(nm: seq<Match>): Match
    requires |nm| > 0
  {
    nm[|nm| - 1]
  }

  /** Deletion of a won node's unplayed matches as written: one delete per unplayed match,
      each of the record the aliased pointer names, the node's last match. */
  function DropUnplayedAsWritten(ms: seq<Match>, node: Node): (r: seq<Match>)
    ensures |Unplayed(NodeMatches(ms, node))| == 0 ==> r == ms
    ensures |Unplayed(NodeMatches(ms, node))| > 0 ==>
              var last := LastOf(NodeMatches(ms, node));
              && (forall i :: 0 <= i < |r| ==> r[i] in ms && !(InNode(r[i], node) && r[i].id == last.id))
              && (forall m :: m in ms && !(InNode(m, node) && m.id == last.id) ==> m in r)
  {
    var nm := NodeMatches(ms, node);
    if |Unplayed(nm)| == 0 then ms
    else
      Filter(ms, OtherThan(node, LastOf(nm).id))
  }

  /** Keeps every record except the node's record with the given id. */
  function OtherThan(node: Node, id: int): Match -> bool {
    m => !(InNode(m, node) && m.id == id)
  }

  /** One tie replay as written: the match is first built by createMatch, whose shuffles
      index the first three teams of each roster (past the end of one with fewer than
      three), and then its slots are overwritten with those of the match the aliased tie
      pointer names. */
  function ReplayAsWritten(node: Node, instance: int, nm: seq<Match>, red: Roster, blue: Roster,
                           id: int): (r: Result<Match>)
    requires ValidNode(node) && |nm| > 0
    ensures r.Err? <==> |red| < 3 || |blue| < 3
    ensures r.Err? ==> r.error == IndexPanic
    ensures r.Ok? ==> r.value.red == LastOf(nm).red && r.value.blue == LastOf(nm).blue
  {
    if |red| < 3 || |blue| < 3 then Err(IndexPanic)
    else
      var last := LastOf(nm);
      Ok(Match(id, Elimination, RoundLabel(node), node.round, node.group, instance,
               last.red, last.blue, "", "", 0))
  }

  /** The replays of `count` ties as written, numbered from `next` with consecutive ids:
      every replay takes the slots of the node's last match, and the replays fail, with a
      panic, exactly when there is one to make and a roster has fewer than three teams. */
  function TieReplaysAsWritten(node: Node, next: int, count: nat, nm: seq<Match>, red: Roster,
                               blue: Roster, id: int): (r: Result<seq<Match>>)
    requires ValidNode(node) && |nm| > 0
    ensures r.Err? <==> count > 0 && (|red| < 3 || |blue| < 3)
    ensures r.Err? ==> r.error == IndexPanic
    ensures r.Ok? ==> |r.value| == count
    ensures r.Ok? ==> forall i :: 0 <= i < |r.value| ==>
                        r.value[i].red == LastOf(nm).red && r.value[i].blue == LastOf(nm).blue
    decreases count
  {
    if count == 0 then Ok([])
    else
      var head := ReplayAsWritten(node, next, nm, red, blue, id);
      if head.Err? then Err(head.error)
      else
        var tail := TieReplaysAsWritten(node, next + 1, count - 1, nm, red, blue, id + 1);
        if tail.Err? then tail else Ok([head.value] + tail.value)
  }

  /** The first semifinal, where the examples below take place. */
  const Semi: Node := Node(2, 1)

  /** A completed instance of the semifinal with the given winner marker and red slots. */
  function Completed(id: int, winner: string, red: Trio): Match {
    Match(id, Elimination, "SF1", 2, 1, id, red, Trio(4, 5, 6), Complete, winner, 0)
  }

  function Waiting(id: int): Match {
    Match(id, Elimination, "SF1", 2, 1, id, Trio(1, 2, 3), Trio(4, 5, 6), "", "", 0)
  }

  lemma FilterTwo(a: Match, b: Match, keep: Match -> bool)
    ensures Filter([a, b], keep) == (if keep(a) then [a] else []) + (if keep(b) then [b] else [])
  {
    assert [a, b][1..] == [b];
    assert [b][1..] == [];
  }

  lemma FilterThree(a: Match, b: Match, c: Match, keep: Match -> bool)
    ensures Filter([a, b, c], keep) == (if keep(a) then [a] else []) + Filter([b, c], keep)
  {
    assert [a, b, c][1..] == [b, c];
  }

  lemma MarkersDiffer()
    ensures "R" != "T" && "R" != "B" && "" != Complete
  {
    assert "R"[0] != "T"[0] && "R"[0] != "B"[0];
    assert |""| != |Complete|;
  }

  /** A semifinal whose first instance is still unplayed while the other two were won by
      red: as written, the delete removes the last match, a completed red win, and keeps
      the unplayed one. The intended deletion keeps both wins (Queries.DropUnplayedEffect). */
  lemma DeletesCompletedWin()
    ensures var ms := [Waiting(1), Completed(2, "R", Trio(1, 2, 3)), Completed(3, "R", Trio(1, 2, 3))];
            var after := DropUnplayedAsWritten(ms, Semi);
            && Wins(NodeMatches(ms, Semi), "R") == 2
            && after == [Waiting(1), Completed(2, "R", Trio(1, 2, 3))]
            && Wins(NodeMatches(after, Semi), "R") == 1
            && |Unplayed(NodeMatches(after, Semi))| == 1
            && DropUnplayed(ms, Semi) == [Completed(2, "R", Trio(1, 2, 3)), Completed(3, "R", Trio(1, 2, 3))]
  {
    var w1, p2, p3 := Waiting(1), Completed(2, "R", Trio(1, 2, 3)), Completed(3, "R", Trio(1, 2, 3));
    WonSemifinal(w1, p2, p3);
    AfterAliasedDelete(w1, p2, p3);
    AfterIntendedDelete(w1, p2, p3);
  }

  lemma WonSemifinal(w1: Match, p2: Match, p3: Match)
    requires w1 == Waiting(1) && p2 == Completed(2, "R", Trio(1, 2, 3)) && p3 == Completed(3, "R", Trio(1, 2, 3))
    ensures NodeMatches([w1, p2, p3], Semi) == [w1, p2, p3]
    ensures Unplayed([w1, p2, p3]) == [w1]
    ensures Wins([w1, p2, p3], "R") == 2
  {
    AllInSemi(w1, p2, p3);
    OnlyFirstUnplayed(w1, p2, p3);
    TwoRedWins(w1, p2, p3);
  }

  lemma AllInSemi(w1: Match, p2: Match, p3: Match)
    requires w1 == Waiting(1) && p2 == Completed(2, "R", Trio(1, 2, 3)) && p3 == Completed(3, "R", Trio(1, 2, 3))
    ensures NodeMatches([w1, p2, p3], Semi) == [w1, p2, p3]
  {
    FilterThree(w1, p2, p3, m => InNode(m, Semi));
    FilterTwo(p2, p3, m => InNode(m, Semi));
  }

  lemma OnlyFirstUnplayed(w1: Match, p2: Match, p3: Match)
    requires w1 == Waiting(1) && p2 == Completed(2, "R", Trio(1, 2, 3)) && p3 == Completed(3, "R", Trio(1, 2, 3))
    ensures Unplayed([w1, p2, p3]) == [w1]
  {
    MarkersDiffer();
    FilterThree(w1, p2, p3, m => !IsComplete(m));
    FilterTwo(p2, p3, m => !IsComplete(m));
  }

  lemma TwoRedWins(w1: Match, p2: Match, p3: Match)
    requires w1 == Waiting(1) && p2 == Completed(2, "R", Trio(1, 2, 3)) && p3 == Completed(3, "R", Trio(1, 2, 3))
    ensures Wins([w1, p2, p3], "R") == 2
  {
    MarkersDiffer();
    FilterThree(w1, p2, p3, m => IsComplete(m) && m.winner == "R");
    FilterTwo(p2, p3, m => IsComplete(m) && m.winner == "R");
  }

  lemma AfterAliasedDelete(w1: Match, p2: Match, p3: Match)
    requires w1 == Waiting(1) && p2 == Completed(2, "R", Trio(1, 2, 3)) && p3 == Completed(3, "R", Trio(1, 2, 3))
    ensures DropUnplayedAsWritten([w1, p2, p3], Semi) == [w1, p2]
    ensures NodeMatches([w1, p2], Semi) == [w1, p2]
    ensures Wins([w1, p2], "R") == 1 && Unplayed([w1, p2]) == [w1]
  {
    LastMatchDeleted(w1, p2, p3);
    LeftBehind(w1, p2);
  }

  lemma LastMatchDeleted(w1: Match, p2: Match, p3: Match)
    requires w1 == Waiting(1) && p2 == Completed(2, "R", Trio(1, 2, 3)) && p3 == Completed(3, "R", Trio(1, 2, 3))
    ensures DropUnplayedAsWritten([w1, p2, p3], Semi) == [w1, p2]
  {
    AllInSemi(w1, p2, p3);
    OnlyFirstUnplayed(w1, p2, p3);
    assert LastOf(NodeMatches([w1, p2, p3], Semi)) == p3;
    FilterThree(w1, p2, p3, OtherThan(Semi, 3));
    FilterTwo(p2, p3, OtherThan(Semi, 3));
  }

  lemma LeftBehind(w1: Match, p2: Match)
    requires w1 == Waiting(1) && p2 == Completed(2, "R", Trio(1, 2, 3))
    ensures NodeMatches([w1, p2], Semi) == [w1, p2]
    ensures Wins([w1, p2], "R") == 1 && Unplayed([w1, p2]) == [w1]
  {
    MarkersDiffer();
    FilterTwo(w1, p2, m => InNode(m, Semi));
    FilterTwo(w1, p2, m => !IsComplete(m));
    FilterTwo(w1, p2, m => IsComplete(m) && m.winner == "R");
  }

  lemma AfterIntendedDelete(w1: Match, p2: Match, p3: Match)
    requires w1 == Waiting(1) && p2 == Completed(2, "R", Trio(1, 2, 3)) && p3 == Completed(3, "R", Trio(1, 2, 3))
    ensures DropUnplayed([w1, p2, p3], Semi) == [p2, p3]
  {
    MarkersDiffer();
    FilterThree(w1, p2, p3, m => !(InNode(m, Semi) && !IsComplete(m)));
    FilterTwo(p2, p3, m => !(InNode(m, Semi) && !IsComplete(m)));
  }

  /** A semifinal with a tie (red slots 1, 2, 3) followed by a red win (red slots 2, 1, 3)
      and nothing unplayed: as written, the replay of the tie takes the slot order of the
      red win. The intended replay keeps the tie's order (Reconciler.SettleReplays). */
  lemma ReplayCopiesLastMatch()
    ensures var nm := [Completed(1, "T", Trio(1, 2, 3)), Completed(2, "R", Trio(2, 1, 3))];
            var replays := TieReplaysAsWritten(Semi, 3, |Ties(nm)|, nm, [1, 2, 3], [4, 5, 6], 3);
            && |Ties(nm)| == 1 && |Unplayed(nm)| == 0 && !NeedsTopUp(nm)
            && replays.Ok? && |replays.value| == 1
            && replays.value[0].red == Trio(2, 1, 3) != Ties(nm)[0].red
  {
    var t1, r2 := Completed(1, "T", Trio(1, 2, 3)), Completed(2, "R", Trio(2, 1, 3));
    var nm := [t1, r2];
    MarkersDiffer();
    FilterTwo(t1, r2, m => IsComplete(m) && m.winner == "T");
    FilterTwo(t1, r2, m => !IsComplete(m));
  }

  /** A semifinal whose red side has become unknown again (a result below it was revised)
      while its matches are all played and one is tied: as written, replaying the tie
      shuffles the empty red roster and panics. The intended replay copies the tie's slots
      and succeeds whatever the rosters (Reconciler.SettleReplays). */
  lemma ReplayPanicsOnUnknownSide()
    ensures var nm := [Completed(1, "T", Trio(1, 2, 3)), Completed(2, "R", Trio(1, 2, 3))];
            && |Ties(nm)| == 1 && |Unplayed(nm)| == 0 && !NeedsTopUp(nm)
            && TieReplaysAsWritten(Semi, 3, |Ties(nm)|, nm, [], [4, 5, 6], 3) == Err(IndexPanic)
  {
    var t1, r2 := Completed(1, "T", Trio(1, 2, 3)), Completed(2, "R", Trio(1, 2, 3));
    var nm := [t1, r2];
    MarkersDiffer();
    FilterTwo(t1, r2, m => IsComplete(m) && m.winner == "T");
    FilterTwo(t1, r2, m => !IsComplete(m));
  }

  lemma FilterFour(a: Match, b: Match, c: Match, d: Match, keep: Match -> bool)
    ensures Filter([a, b, c, d], keep) == (if keep(a) then [a] else []) + Filter([b, c, d], keep)
  {
    assert [a, b, c, d][1..] == [b, c, d];
  }

  /** The four instances of a semifinal whose first instance tied, whose next two were won
      by red and by blue, and whose fourth instance, the replay of the first, tied again. */
  predicate TiedTwice(t1: Match, r2: Match, b3: Match, t4: Match) {
    && t1 == Completed(1, "T", Trio(1, 2, 3)) && r2 == Completed(2, "R", Trio(1, 2, 3))
    && b3 == Completed(3, "B", Trio(1, 2, 3)) && t4 == Completed(4, "T", Trio(3, 2, 1))
  }

  lemma TiedTwiceInSemi(t1: Match, r2: Match, b3: Match, t4: Match)
    requires TiedTwice(t1, r2, b3, t4)
    ensures NodeMatches([t1, r2, b3, t4], Semi) == [t1, r2, b3, t4]
  {
    FilterFour(t1, r2, b3, t4, m => InNode(m, Semi));
    FilterThree(r2, b3, t4, m => InNode(m, Semi));
    FilterTwo(b3, t4, m => InNode(m, Semi));
  }

  lemma TiedTwiceTies(t1: Match, r2: Match, b3: Match, t4: Match)
    requires TiedTwice(t1, r2, b3, t4)
    ensures Ties([t1, r2, b3, t4]) == [t1, t4]
  {
    MarkersDiffer();
    assert "B"[0] != "T"[0];
    FilterFour(t1, r2, b3, t4, m => IsComplete(m) && m.winner == "T");
    FilterThree(r2, b3, t4, m => IsComplete(m) && m.winner == "T");
    FilterTwo(b3, t4, m => IsComplete(m) && m.winner == "T");
  }

  lemma TiedTwicePlayed(t1: Match, r2: Match, b3: Match, t4: Match)
    requires TiedTwice(t1, r2, b3, t4)
    ensures Unplayed([t1, r2, b3, t4]) == []
  {
    FilterFour(t1, r2, b3, t4, m => !IsComplete(m));
    FilterThree(r2, b3, t4, m => !IsComplete(m));
    FilterTwo(b3, t4, m => !IsComplete(m));
  }

  lemma TiedTwiceRedWins(t1: Match, r2: Match, b3: Match, t4: Match)
    requires TiedTwice(t1, r2, b3, t4)
    ensures Wins([t1, r2, b3, t4], "R") == 1
  {
    MarkersDiffer();
    FilterFour(t1, r2, b3, t4, m => IsComplete(m) && m.winner == "R");
    FilterThree(r2, b3, t4, m => IsComplete(m) && m.winner == "R");
    FilterTwo(b3, t4, m => IsComplete(m) && m.winner == "R");
  }

  lemma TiedTwiceBlueWins(t1: Match, r2: Match, b3: Match, t4: Match)
    requires TiedTwice(t1, r2, b3, t4)
    ensures Wins([t1, r2, b3, t4], "B") == 1
  {
    MarkersDiffer();
    assert "B"[0] != "T"[0];
    FilterFour(t1, r2, b3, t4, m => IsComplete(m) && m.winner == "B");
    FilterThree(r2, b3, t4, m => IsComplete(m) && m.winner == "B");
    FilterTwo(b3, t4, m => IsComplete(m) && m.winner == "B");
  }

  /** Every completed tie is replayed each time the node runs out of unplayed matches,
      also a tie that was replayed before. This is stated for `Reconciler.Settle`, which
      copies each tie's own slots; as written, both replays would copy the slots of
      instance 4. Here instance 4 already replays the tied
      instance 1 and tied again: the next step creates two replays, instance 5 copying
      the tie of instance 1 a second time and instance 6 copying the tie of instance 4. */
  lemma TieReplayedAgain(rng: Shuffler)
    ensures var st := Store([Completed(1, "T", Trio(1, 2, 3)), Completed(2, "R", Trio(1, 2, 3)),
                             Completed(3, "B", Trio(1, 2, 3)), Completed(4, "T", Trio(3, 2, 1))], 5);
            var out := Settle(st, Semi, [1, 2, 3], [4, 5, 6], rng);
            && out.result == Ok([])
            && |out.store.matches| == 6
            && out.store.matches[4].instance == 5 && out.store.matches[4].red == Trio(1, 2, 3)
            && out.store.matches[5].instance == 6 && out.store.matches[5].red == Trio(3, 2, 1)
  {
    var t1, r2 := Completed(1, "T", Trio(1, 2, 3)), Completed(2, "R", Trio(1, 2, 3));
    var b3, t4 := Completed(3, "B", Trio(1, 2, 3)), Completed(4, "T", Trio(3, 2, 1));
    var st := Store([t1, r2, b3, t4], 5);
    TiedTwiceInSemi(t1, r2, b3, t4);
    TiedTwiceTies(t1, r2, b3, t4);
    TiedTwicePlayed(t1, r2, b3, t4);
    TiedTwiceRedWins(t1, r2, b3, t4);
    TiedTwiceBlueWins(t1, r2, b3, t4);
    var nm := NodeMatches(st.matches, Semi);
    assert nm == [t1, r2, b3, t4];
    assert Settle(st, Semi, [1, 2, 3], [4, 5, 6], rng) == Step(ReplayTies(st, Semi, nm), Ok([]));
    var after := ReplayTies(st, Semi, nm);
    assert after.matches[4].instance == 5 && after.matches[4].red == Ties(nm)[0].red;
    assert after.matches[5].instance == 6 && after.matches[5].red == Ties(nm)[1].red;
  }

  /** Three instances of a semifinal, all won by red. */
  predicate SweptByRed(r1: Match, r2: Match, r3: Match) {
    r1 == Completed(1, "R", Trio(1, 2, 3)) && r2 == Completed(2, "R", Trio(1, 2, 3)) && r3 == Completed(3, "R", Trio(1, 2, 3))
  }

  lemma SweptInSemi(r1: Match, r2: Match, r3: Match)
    requires SweptByRed(r1, r2, r3)
    ensures NodeMatches([r1, r2, r3], Semi) == [r1, r2, r3]
  {
    FilterThree(r1, r2, r3, m => InNode(m, Semi));
    FilterTwo(r2, r3, m => InNode(m, Semi));
  }

  lemma SweptTallies(r1: Match, r2: Match, r3: Match)
    requires SweptByRed(r1, r2, r3)
    ensures Wins([r1, r2, r3], "R") == 3 && Wins([r1, r2, r3], "B") == 0
  {
    MarkersDiffer();
    FilterThree(r1, r2, r3, m => IsComplete(m) && m.winner == "R");
    FilterTwo(r2, r3, m => IsComplete(m) && m.winner == "R");
    FilterThree(r1, r2, r3, m => IsComplete(m) && m.winner == "B");
    FilterTwo(r2, r3, m => IsComplete(m) && m.winner == "B");
  }

  lemma SweptQuiet(r1: Match, r2: Match, r3: Match)
    requires SweptByRed(r1, r2, r3)
    ensures Ties([r1, r2, r3]) == [] && Unplayed([r1, r2, r3]) == []
  {
    MarkersDiffer();
    FilterThree(r1, r2, r3, m => IsComplete(m) && m.winner == "T");
    FilterTwo(r2, r3, m => IsComplete(m) && m.winner == "T");
    FilterThree(r1, r2, r3, m => !IsComplete(m));
    FilterTwo(r2, r3, m => !IsComplete(m));
  }

  /** A semifinal whose three instances all went to red, as after a revised result: with
      three wins neither side has exactly two, nothing is unplayed or tied, and the node
      already has three matches, so the step creates nothing and reports no winner. The
      node stays undecided on every later call. */
  lemma ThreeWinsStall(rng: Shuffler)
    ensures var st := Store([Completed(1, "R", Trio(1, 2, 3)), Completed(2, "R", Trio(1, 2, 3)),
                             Completed(3, "R", Trio(1, 2, 3))], 4);
            && Wins(NodeMatches(st.matches, Semi), "R") == 3
            && Settle(st, Semi, [1, 2, 3], [4, 5, 6], rng) == Step(st, Ok([]))
  {
    var r1, r2, r3 := Completed(1, "R", Trio(1, 2, 3)), Completed(2, "R", Trio(1, 2, 3)), Completed(3, "R", Trio(1, 2, 3));
    var st := Store([r1, r2, r3], 4);
    SweptInSemi(r1, r2, r3);
    SweptTallies(r1, r2, r3);
    SweptQuiet(r1, r2, r3);
    SettleTopUp(st, Semi, [1, 2, 3], [4, 5, 6], rng);
    assert st.matches + [] == st.matches;
  }
}
