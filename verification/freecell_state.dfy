/** The FreeCell game state: four foundation counters, the set of free-cell
    cards and the set of tableau piles; its goal test, heuristic, hash key,
    the combinator that assembles its successor list, and the problem the
    A* engine searches. */
module FreeCell {
  import opened Wrappers
  import opened Cards
  import opened Piles
  import opened Search

  /** foundations[i] is the highest rank placed on the foundation of suit
      Suits[i], 0 when it is empty. Free cells and tableau are sets, so
      equality ignores their order; within a pile order matters. */
  datatype State = State(foundations: seq<int>, freecells: set<Card>, tableau: set<Pile>)

  /** A (state, move, cost) successor triple; moves are display strings. */
  type Successor = Step<State, string>

  /** The state dealt from rows of cards, each row one pile listed bottom
      to top. Identical rows give one pile, as in a set. */
  function Initial(deal: seq<seq<Card>>): (s: State)
    ensures s.foundations == [0, 0, 0, 0] && s.freecells == {}
    ensures forall row :: row in deal ==> Pile(row) in s.tableau
    ensures forall pile :: pile in s.tableau ==> pile.cards in deal
    ensures Heuristic(s) == DeckSize && !IsGoal(s)
  {
    State([0, 0, 0, 0], {}, set row | row in deal :: Pile(row))
  }

  /** Every foundation counter is at the King. */
  predicate IsGoal(s: State)
  {
    s.foundations == [MaxRank, MaxRank, MaxRank, MaxRank]
  }

  /** The goal test holds exactly when there are four counters, all 13. */
  lemma GoalIffAllKings(s: State)
    ensures IsGoal(s) <==> |s.foundations| == 4 && forall i :: 0 <= i < 4 ==> s.foundations[i] == MaxRank
  {
    if |s.foundations| == 4 && forall i :: 0 <= i < 4 ==> s.foundations[i] == MaxRank {
      assert s.foundations == [MaxRank, MaxRank, MaxRank, MaxRank];
    }
  }

  function Sum(xs: seq<int>): int {
    if |xs| == 0 then 0 else xs[0] + Sum(xs[1..])
  }

  lemma SumOfFour(xs: seq<int>)
    requires |xs| == 4
    ensures Sum(xs) == xs[0] + xs[1] + xs[2] + xs[3]
  {
    assert Sum(xs[3..]) == xs[3] + Sum(xs[4..]);
    assert Sum(xs[2..]) == xs[2] + Sum(xs[3..]);
    assert Sum(xs[1..]) == xs[1] + Sum(xs[2..]);
  }

  /** Four counters, each between 0 and the King. */
  predicate CountersInRange(s: State) {
    |s.foundations| == 4 && forall i :: 0 <= i < 4 ==> 0 <= s.foundations[i] <= MaxRank
  }

  /** The number of cards not yet on a foundation. */
  function Heuristic(s: State): (h: int)
    ensures |s.foundations| == 4 ==>
      h == DeckSize - (s.foundations[0] + s.foundations[1] + s.foundations[2] + s.foundations[3])
    ensures CountersInRange(s) ==> 0 <= h <= DeckSize
    ensures CountersInRange(s) ==> (h == 0 <==> IsGoal(s))
  {
    if |s.foundations| == 4 then SumOfFour(s.foundations); GoalIffAllKings(s); DeckSize - Sum(s.foundations)
    else DeckSize - Sum(s.foundations)
  }

  /** Placing one more card on a foundation lowers the heuristic by one. */
  lemma FoundationStepLowersHeuristic(s: State, i: int)
    requires |s.foundations| == 4 && 0 <= i < 4
    ensures Heuristic(s.(foundations := s.foundations[i := s.foundations[i] + 1])) == Heuristic(s) - 1
  {
    var f' := s.foundations[i := s.foundations[i] + 1];
    SumOfFour(s.foundations);
    SumOfFour(f');
  }

  // ---------------------------------------------------------------------
  // Hash key
  // ---------------------------------------------------------------------

  /** Every pile of the tableau has a string. */
  predicate AllNamed(t: set<Pile>) {
    forall pile :: pile in t ==> ToStr(pile).Some?
  }

  /** The strings of the tableau's piles. */
  function PileKeys(t: set<Pile>): set<string> {
    set pile | pile in t && ToStr(pile).Some? :: ToStr(pile).value
  }

  /** The hash key: free cells, foundations and the set of pile strings. */
  function Key(s: State): (set<Card>, seq<int>, set<string>) {
    (s.freecells, s.foundations, PileKeys(s.tableau))
  }

  /** The hash key determines the state: two states with named cards and
      equal keys are equal, so hashing agrees with equality. */
  lemma KeyInjective(s: State, s': State)
    requires AllNamed(s.tableau) && AllNamed(s'.tableau)
    requires Key(s) == Key(s')
    ensures s == s'
  {
    forall pile | pile in s.tableau ensures pile in s'.tableau {
      assert ToStr(pile).value in PileKeys(s'.tableau);
      var other :| other in s'.tableau && ToStr(other).Some? && ToStr(other).value == ToStr(pile).value;
      ToStrInjective(pile, other);
    }
    forall pile | pile in s'.tableau ensures pile in s.tableau {
      assert ToStr(pile).value in PileKeys(s.tableau);
      var other :| other in s.tableau && ToStr(other).Some? && ToStr(other).value == ToStr(pile).value;
      ToStrInjective(pile, other);
    }
  }

  /** Dealing the same rows in another order gives the same state. */
  lemma DealOrderIrrelevant(deal: seq<seq<Card>>, deal': seq<seq<Card>>)
    requires forall row :: row in deal <==> row in deal'
    ensures Initial(deal) == Initial(deal')
  {
    assert Initial(deal).tableau == Initial(deal').tableau;
  }

  // ---------------------------------------------------------------------
  // Successors
  // ---------------------------------------------------------------------

  /** The outputs of the move generators for one state: an optional forced
      move and the six move-category lists. */
  datatype MoveSources = MoveSources(
    trivial: Option<Successor>,
    tableauToFoundations: seq<Successor>,
    foundationsToTableau: seq<Successor>,
    tableauMoves: seq<Successor>,
    tableauToFree: seq<Successor>,
    freeToTableau: seq<Successor>,
    freeToFoundations: seq<Successor>)

  /** The generators as the repository defines them: no forced move and
      every category empty. */
  function StubSources(s: State): MoveSources {
    MoveSources(None, [], [], [], [], [], [])
  }

  /** A forced move is the only successor; otherwise the six categories are
      listed one after another in a fixed order. */
  function NextStates(g: MoveSources): (r: seq<Successor>)
    ensures g.trivial.Some? ==> r == [g.trivial.value]
    ensures g.trivial.None? ==>
      var a, b, c := |g.tableauToFoundations|, |g.foundationsToTableau|, |g.tableauMoves|;
      var d, e, f := |g.tableauToFree|, |g.freeToTableau|, |g.freeToFoundations|;
      && |r| == a + b + c + d + e + f
      && r[..a] == g.tableauToFoundations
      && r[a..a + b] == g.foundationsToTableau
      && r[a + b..a + b + c] == g.tableauMoves
      && r[a + b + c..a + b + c + d] == g.tableauToFree
      && r[a + b + c + d..a + b + c + d + e] == g.freeToTableau
      && r[a + b + c + d + e..] == g.freeToFoundations
    ensures g.trivial.None? ==> forall x ::
      x in r <==> (x in g.tableauToFoundations || x in g.foundationsToTableau
                   || x in g.tableauMoves || x in g.tableauToFree
                   || x in g.freeToTableau || x in g.freeToFoundations)
  {
    if g.trivial.Some? then [g.trivial.value]
    else
      g.tableauToFoundations + g.foundationsToTableau + g.tableauMoves
        + g.tableauToFree + g.freeToTableau + g.freeToFoundations
  }

  /** With the generators as defined, no state has a successor. */
  lemma StubsHaveNoSuccessors(s: State)
    ensures NextStates(StubSources(s)) == []
  {
  }

  // ---------------------------------------------------------------------
  // The search problem
  // ---------------------------------------------------------------------

  /** The FreeCell problem: every capability delegates to the state. */
  function FreeCellProblem(deal: seq<seq<Card>>, gens: State -> MoveSources): (p: Problem<State, string>)
    ensures p.initial == Initial(deal)
    ensures forall s :: p.isGoal(s) == IsGoal(s) && p.heuristic(s) == Heuristic(s)
    ensures forall s :: p.next(s) == NextStates(gens(s))
    ensures forall s :: CountersInRange(s) ==>
      0 <= p.heuristic(s) <= DeckSize && (p.heuristic(s) == 0 <==> p.isGoal(s))
  {
    Problem(Initial(deal), IsGoal, s => NextStates(gens(s)), Heuristic)
  }

  /** With the generators as defined, only the empty path exists, and it
      does not end at a goal. */
  lemma NoStubPathReachesGoal(deal: seq<seq<Card>>)
    ensures var p := FreeCellProblem(deal, StubSources);
      forall steps :: ValidPath(p, steps) ==> |steps| == 0 && !p.isGoal(Final(p, steps))
  {
  }

  /** Solving a dealt game as the repository stands: the initial state is
      not a goal and has no successors, so the search reports no solution. */
  method SolveDeal(deal: seq<seq<Card>>) returns (r: Option<seq<string>>)
    ensures r == None
  {
    var p := FreeCellProblem(deal, StubSources);
    r := AStar(p, {p.initial});
    NoStubPathReachesGoal(deal);
  }
}
