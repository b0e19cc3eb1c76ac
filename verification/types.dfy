/**
 * Records of the elimination bracket: team slots, matches, bracket nodes, errors and the
 * in-memory match store that stands in for the database.
 */
module Types {

  /** A team number; 0 is the empty placeholder slot. */
  type TeamId = int

  /** An alliance roster in pick order. The empty roster means "not known yet": the
      bracket walk uses it to signal a side whose alliance is still undetermined. */
  type Roster = seq<TeamId>

  predicate Known(r: Roster) {
    |r| != 0
  }

  /** The three team slots of one side of a match (Red1..Red3 or Blue1..Blue3). */
  datatype Trio = Trio(first: TeamId, second: TeamId, third: TeamId)

  /** The teams a side occupies, ignoring slot order. */
  function Teams(t: Trio): multiset<TeamId> {
    multiset{t.first, t.second, t.third}
  }

  /** A permutation of {0, 1, 2}, as drawn by one call of the shuffle. */
  predicate IsPerm(p: Trio) {
    && 0 <= p.first < 3 && 0 <= p.second < 3 && 0 <= p.third < 3
    && p.first != p.second && p.second != p.third && p.first != p.third
  }

  type Perm = p: Trio | IsPerm(p) witness Trio(0, 1, 2)

  datatype Side = Red | Blue

  /** The source of randomness: the permutation drawn when one side of the match with the
      given id is shuffled. Every property is proved for every shuffler. */
  type Shuffler = (int, Side) -> Perm

  const Elimination: string := "elimination"
  const Complete: string := "complete"

  /** A persisted match. `roundName` and `instance` together form the display name. */
  datatype Match = Match(
    id: int,
    kind: string,
    roundName: string,
    round: int,
    group: int,
    instance: int,
    red: Trio,
    blue: Trio,
    status: string,
    winner: string,
    time: int)

  /** A position in the bracket: round 1 is the final, 2 the semifinals, and so on. */
  datatype Node = Node(round: int, group: int)

  predicate InNode(m: Match, node: Node) {
    m.kind == Elimination && m.round == node.round && m.group == node.group
  }

  predicate IsComplete(m: Match) {
    m.status == Complete
  }

  /** The winner markers a completed match may carry: red, blue or tie. */
  predicate ValidWinner(w: string) {
    w == "R" || w == "B" || w == "T"
  }

  datatype Error =
    | TooFewAlliances
    | UnsupportedDepth(depth: int)
    | InvalidWinner(matchId: int, winner: string)
    | RosterTooSmall
    | IndexPanic

  datatype Option<T> = None | Some(value: T)

  datatype Result<T> = Ok(value: T) | Err(error: Error)

  /** The match table in query order, and the id the next created match receives. */
  datatype Store = Store(matches: seq<Match>, nextId: int)

  /** What an operation leaves behind: the store as it was written (also on failure, since
      the database keeps every write made before the error) and its result. */
  datatype Step = Step(store: Store, result: Result<Roster>)

  /** Creating matches: they are appended and receive consecutive fresh ids. */
  function Insert(st: Store, created: seq<Match>): (st': Store)
    ensures |st'.matches| == |st.matches| + |created|
    ensures st'.matches[..|st.matches|] == st.matches
    ensures st'.matches[|st.matches|..] == created
    ensures st'.nextId == st.nextId + |created|
  {
    Store(st.matches + created, st.nextId + |created|)
  }
}
