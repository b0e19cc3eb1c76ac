/**
 * Queries over the match store: the order-preserving selections the reconciler and the
 * scheduler read (a node's matches, completed ones, ties, unplayed ones) and the facts
 * that connect them.
 */
module Queries {
  import opened Types

  /** The records of `ms` that `keep` selects, in store order. */
  function Filter(ms: seq<Match>, keep: Match -> bool): (r: seq<Match>)
    ensures |r| <= |ms|
    ensures forall i :: 0 <= i < |r| ==> keep(r[i]) && r[i] in ms
    ensures forall m :: m in ms && keep(m) ==> m in r
  {
    if |ms| == 0 then []
    else (if keep(ms[0]) then [ms[0]] else []) + Filter(ms[1..], keep)
  }

  lemma {:induction false} FilterConcat(a: seq<Match>, b: seq<Match>, keep: Match -> bool)
    ensures Filter(a + b, keep) == Filter(a, keep) + Filter(b, keep)
  {
    if |a| == 0 {
      assert a + b == b;
    } else {
      assert (a + b)[0] == a[0];
      assert (a + b)[1..] == a[1..] + b;
      FilterConcat(a[1..], b, keep);
    }
  }

  /** Filters that select the same records give the same result. */
  lemma {:induction false} FilterNest(ms: seq<Match>, p: Match -> bool, q: Match -> bool,
                                      p': Match -> bool, q': Match -> bool)
    requires forall m :: (p(m) && q(m)) == (p'(m) && q'(m))
    ensures Filter(Filter(ms, p), q) == Filter(Filter(ms, p'), q')
  {
    if |ms| != 0 {
      FilterNest(ms[1..], p, q, p', q');
      var head := if p(ms[0]) then [ms[0]] else [];
      FilterConcat(head, Filter(ms[1..], p), q);
      var head' := if p'(ms[0]) then [ms[0]] else [];
      FilterConcat(head', Filter(ms[1..], p'), q');
    }
  }

  /** A filter that selects nothing of `ms` yields nothing. */
  lemma {:induction false} FilterNone(ms: seq<Match>, keep: Match -> bool)
    requires forall i :: 0 <= i < |ms| ==> !keep(ms[i])
    ensures Filter(ms, keep) == []
  {
    if |ms| != 0 {
      FilterNone(ms[1..], keep);
    }
  }

  /** A filter that selects all of `ms` yields `ms`. */
  lemma {:induction false} FilterAll(ms: seq<Match>, keep: Match -> bool)
    requires forall i :: 0 <= i < |ms| ==> keep(ms[i])
    ensures Filter(ms, keep) == ms
  {
    if |ms| != 0 {
      FilterAll(ms[1..], keep);
      assert ms == [ms[0]] + ms[1..];
    }
  }

  /** Two records that differ at most in their team slots. */
  predicate SameOutcome(a: Match, b: Match) {
    a.(red := b.red, blue := b.blue) == b
  }

  /** Pointwise SameOutcome of two equally long store snapshots. */
  predicate SameOutcomes(a: seq<Match>, b: seq<Match>) {
    |a| == |b| && forall i :: 0 <= i < |a| ==> SameOutcome(a[i], b[i])
  }

  /** A filter that ignores team slots selects corresponding records of two snapshots
      that differ only in slots. */
  lemma {:induction false} FilterSameOutcomes(a: seq<Match>, b: seq<Match>, keep: Match -> bool)
    requires SameOutcomes(a, b)
    requires forall x, y :: SameOutcome(x, y) ==> keep(x) == keep(y)
    ensures SameOutcomes(Filter(a, keep), Filter(b, keep))
  {
    if |a| != 0 {
      FilterSameOutcomes(a[1..], b[1..], keep);
    }
  }

  function NodeMatches(ms: seq<Match>, node: Node): seq<Match> {
    Filter(ms, m => InNode(m, node))
  }

  /** Everything in the store that does not belong to the node. */
  function Others(ms: seq<Match>, node: Node): seq<Match> {
    Filter(ms, m => !InNode(m, node))
  }

  function Played(ms: seq<Match>): seq<Match> {
    Filter(ms, m => IsComplete(m))
  }

  function Unplayed(ms: seq<Match>): seq<Match> {
    Filter(ms, m => !IsComplete(m))
  }

  function Ties(ms: seq<Match>): seq<Match> {
    Filter(ms, m => IsComplete(m) && m.winner == "T")
  }

  /** The number of completed matches carrying the winner marker `w`. */
  function Wins(ms: seq<Match>, w: string): nat {
    |Filter(ms, m => IsComplete(m) && m.winner == w)|
  }

  /** Deleting every unplayed match of a node. */
  function DropUnplayed(ms: seq<Match>, node: Node): seq<Match> {
    Filter(ms, m => !(InNode(m, node) && !IsComplete(m)))
  }

  /** Deleting a node's unplayed matches leaves exactly its completed ones, leaves the
      rest of the store alone, and changes no tally. */
  lemma DropUnplayedEffect(ms: seq<Match>, node: Node)
    ensures NodeMatches(DropUnplayed(ms, node), node) == Played(NodeMatches(ms, node))
    ensures Others(DropUnplayed(ms, node), node) == Others(ms, node)
    ensures Unplayed(NodeMatches(DropUnplayed(ms, node), node)) == []
    ensures forall w :: Wins(NodeMatches(DropUnplayed(ms, node), node), w) == Wins(NodeMatches(ms, node), w)
  {
    FilterNest(ms, m => !(InNode(m, node) && !IsComplete(m)), m => InNode(m, node),
               m => InNode(m, node), m => IsComplete(m));
    FilterNest(ms, m => !(InNode(m, node) && !IsComplete(m)), m => !InNode(m, node),
               m => true, m => !InNode(m, node));
    FilterAll(ms, m => true);
    var played := Played(NodeMatches(ms, node));
    FilterNone(played, m => !IsComplete(m));
    forall w
      ensures Wins(played, w) == Wins(NodeMatches(ms, node), w)
    {
      FilterNest(NodeMatches(ms, node), m => IsComplete(m), m => IsComplete(m) && m.winner == w,
                 m => true, m => IsComplete(m) && m.winner == w);
      FilterAll(NodeMatches(ms, node), m => true);
    }
  }

  /** Creating matches extends each selection by the selection of the created ones. */
  lemma InsertEffect(st: Store, created: seq<Match>, node: Node)
    ensures NodeMatches(Insert(st, created).matches, node)
            == NodeMatches(st.matches, node) + NodeMatches(created, node)
    ensures Others(Insert(st, created).matches, node) == Others(st.matches, node) + Others(created, node)
  {
    FilterConcat(st.matches, created, m => InNode(m, node));
    FilterConcat(st.matches, created, m => !InNode(m, node));
  }

  /** Two snapshots that differ only in team slots have the same node matches up to
      slots, and therefore the same tallies, ties, unplayed and completed matches. */
  lemma SameTallies(a: seq<Match>, b: seq<Match>, node: Node)
    requires SameOutcomes(a, b)
    ensures SameOutcomes(NodeMatches(a, node), NodeMatches(b, node))
    ensures forall w :: Wins(NodeMatches(a, node), w) == Wins(NodeMatches(b, node), w)
    ensures SameOutcomes(Ties(NodeMatches(a, node)), Ties(NodeMatches(b, node)))
    ensures |Unplayed(NodeMatches(a, node))| == |Unplayed(NodeMatches(b, node))|
    ensures SameOutcomes(Played(NodeMatches(a, node)), Played(NodeMatches(b, node)))
  {
    var na, nb := NodeMatches(a, node), NodeMatches(b, node);
    FilterSameOutcomes(a, b, m => InNode(m, node));
    forall w
      ensures Wins(na, w) == Wins(nb, w)
    {
      FilterSameOutcomes(na, nb, m => IsComplete(m) && m.winner == w);
    }
    FilterSameOutcomes(na, nb, m => IsComplete(m) && m.winner == "T");
    FilterSameOutcomes(na, nb, m => !IsComplete(m));
    FilterSameOutcomes(na, nb, m => IsComplete(m));
  }

  /** Creating matches of the node extends its list by them and leaves the rest alone. */
  lemma InsertIntoNode(st: Store, created: seq<Match>, node: Node)
    requires forall i :: 0 <= i < |created| ==> InNode(created[i], node)
    ensures NodeMatches(Insert(st, created).matches, node) == NodeMatches(st.matches, node) + created
    ensures Others(Insert(st, created).matches, node) == Others(st.matches, node)
  {
    InsertEffect(st, created, node);
    FilterAll(created, m => InNode(m, node));
    FilterNone(created, m => !InNode(m, node));
  }

  /** Appending unplayed matches to a list adds them to its unplayed matches and changes
      no tally and no tie. */
  lemma AppendUnplayed(nm: seq<Match>, created: seq<Match>)
    requires forall i :: 0 <= i < |created| ==> !IsComplete(created[i])
    ensures forall w :: Wins(nm + created, w) == Wins(nm, w)
    ensures Ties(nm + created) == Ties(nm)
    ensures Unplayed(nm + created) == Unplayed(nm) + created
  {
    forall w
      ensures Wins(nm + created, w) == Wins(nm, w)
    {
      FilterConcat(nm, created, m => IsComplete(m) && m.winner == w);
      FilterNone(created, m => IsComplete(m) && m.winner == w);
    }
    FilterConcat(nm, created, m => IsComplete(m) && m.winner == "T");
    FilterNone(created, m => IsComplete(m) && m.winner == "T");
    FilterConcat(nm, created, m => !IsComplete(m));
    FilterAll(created, m => !IsComplete(m));
  }
}
