# FreeCell state and A* search — a Dafny model

This project models the core of a small FreeCell solver written in Python 2:

- the **card layer** (`Card` and its name table `_CardMap`): a card is a
  (rank, suit) pair of integers; the 52 pairs with rank 1..13 and suit 0..3
  have two-character names (`A23456789TJQK` then `HDCS`); parsing upper-cases
  its input and looks it up in the inverse table; a card is red when its suit
  index is below 2;
- the **pile** (`Pile`): a stack of cards, bottom first, compared by its card
  list and hashed by the concatenation of its card names;
- the **game state** (`FreeCellState`): four foundation counters, a set of
  free-cell cards and a set of tableau piles; its goal test, its heuristic
  (52 minus the counter sum), its hash key, and the combinator `next_states`
  that either returns the single forced ("trivial") move or concatenates six
  move-category lists in a fixed order; and `FreeCellProblem`, which delegates
  every capability to the state;
- the **generic A\* engine** (`search.py`): search nodes with an accumulated
  path cost, a fringe from which a node of least path-cost-plus-heuristic is
  popped, a closed set of expanded states, and move-sequence reconstruction by
  walking parent links and reversing.

Modules: `Wrappers` (Option), `Cards`, `Piles`, `FreeCell` (state, successor
combinator, problem) and `Search` (the engine, generic in the state type `S`
and the move type `M`).

The engine is modelled over an abstract problem: `Problem(initial, isGoal,
next, heuristic)` with `next` returning (state, move, cost) steps. One loop
iteration is the pure function `Search.SearchStep` on a configuration (fringe,
closed set); `Search.AStar` runs it to completion. `AStar` is proved
- sound: a returned move sequence is the moves of a path of the problem from
  the initial state to a goal state (an initial goal state yields `[]`);
- complete on exhaustion: it returns None only when the fringe is empty, and
  then no path of the problem reaches a goal;
- terminating, given a finite set of states that holds the initial state and
  is closed under successors; the measure is (number of unexpanded states of
  that set, fringe size), ordered lexicographically.

The six move generators and the forced-move finder are unimplemented in the
repository (they return `[]` and `None`). The model keeps their outputs as an
input (`FreeCell.MoveSources`), so the combinator can be stated for any
generator output, and also models them as written (`FreeCell.StubSources`):
with those, no state has a successor and solving any deal reports no solution
(`FreeCell.SolveDeal`).

The model follows the code where it is looser than a FreeCell solver is usually described:
- the fringe's order among equal priorities is unspecified in the code (Python
  2 falls back to comparing node objects); the model pops the first node of
  least priority, and only minimality is relied on;
- the tableau is a plain set of piles, with no bound of 8 piles and no
  "one pile per top card" invariant, and free cells are an unbounded set;
- dealt rows are read bottom to top (the first card of a row is pushed
  first), although the command-line help text says "from top to bottom".

## Model

| member | source | states |
|---|---|---|
| Cards.Name | freecell.py:49-61 | a pair has a name exactly when it is one of the 52 table pairs; the name is a rank symbol followed by a suit symbol |
| Cards.NamesDistinct | freecell.py:49-61 | every name is two characters and two table cards with the same name are the same card, so the table is a bijection |
| Cards.FromStr | freecell.py:66-72 | a parsed card is a table card whose name is the upper-cased input; parsing fails exactly when no table card has that name |
| Cards.RoundTrip | freecell.py:87-111 | parsing the name of any of the 52 cards gives the card back |
| Cards.CaseInsensitive | freecell.py:66-72 | parsing a string and parsing its upper-case form give the same result |
| Cards.ParseSucceedsIffNamed | freecell.py:66-72 | parsing succeeds iff the upper-cased input is the name of some table card |
| Cards.IsRed | freecell.py:106-108 | a table card is red iff its suit is hearts or diamonds, i.e. iff the second character of its name is H or D (the flag is set from `suit < 2` at line 84) |
| Piles.Push | freecell.py:20-21 | after a push the pile is non-empty and its top is the pushed card |
| Piles.Empty | freecell.py:23-25 | a pile is empty exactly when its string is empty |
| Piles.Top | freecell.py:30-32 | the top is absent exactly when the pile is empty, and is a card of the pile otherwise |
| Piles.Pop | freecell.py:27-28 | popping fails exactly on an empty pile; otherwise it returns the top card and a pile one shorter onto which pushing that card restores the original |
| Piles.PushThenPop | freecell.py:20-28 | pop after push returns the pushed card and the previous pile |
| Piles.ToStr | freecell.py:34-35 | a pile's string is twice as long as the pile and its characters 2i, 2i+1 are the name of the i-th card from the bottom |
| Piles.ToStrDefined | freecell.py:34-35 | a pile has a string exactly when every card in it has a name |
| Piles.ToStrInjective | freecell.py:34-41 | equal pile strings imply equal piles, so hashing by the string is consistent with list equality |
| FreeCell.Initial | freecell.py:126-141 | the dealt state has empty foundations and free cells, one pile per distinct row, heuristic 52, and is not a goal |
| FreeCell.GoalIffAllKings | freecell.py:143-145 | the goal test holds iff there are four foundation counters and all are 13 |
| FreeCell.Heuristic | freecell.py:147-149 | with four counters it is 52 minus their sum, the number of cards off the foundations; with counters in 0..13 it lies in 0..52 and is 0 iff the state is a goal |
| FreeCell.FoundationStepLowersHeuristic | freecell.py:147-149 | raising one foundation counter by one lowers the heuristic by exactly one |
| FreeCell.KeyInjective | freecell.py:193-203 | when every pile of both tableaus has a name (otherwise the hash raises KeyError), two states whose hash keys (free cells, foundations, set of pile strings) agree are equal, so the hash agrees with equality |
| FreeCell.DealOrderIrrelevant | freecell.py:200-203 | dealing the same rows in another order gives an equal state: tableau equality ignores pile order |
| FreeCell.NextStates | freecell.py:205-219 | a forced move is the only successor; otherwise the successor list is the six category lists in order tableau-to-foundation, foundation-to-tableau, within tableau, tableau-to-free, free-to-tableau, free-to-foundation, and contains exactly their elements |
| FreeCell.StubsHaveNoSuccessors | freecell.py:151-191 | with the generators as written no state has a successor |
| FreeCell.FreeCellProblem | freecell.py:222-237 | the problem starts at the dealt state, and its goal test, successors and heuristic are the state's own; for states whose four counters lie in 0..13 its heuristic is non-negative, at most 52, and 0 exactly on goal states |
| FreeCell.NoStubPathReachesGoal | freecell.py:151-237 | with the generators as written the only path is the empty one, which ends at a non-goal state |
| FreeCell.SolveDeal | freecell.py:222-237 | searching any dealt game with the generators as written returns no solution |
| Search.UniformCost | search.py:62-66 | a problem that does not override the heuristic estimates 0, so a node's priority is its path cost |
| Search.PriorityOfDerived | search.py:36-38 | a built node's priority is the sum of the step costs from the root plus the heuristic estimate of its state; the root's is the estimate alone |
| Search.Extend | search.py:22-25 | a child node's path cost is its parent's plus the step cost, and it sits one link deeper |
| Search.DerivedIsPath | search.py:8-38 | a node the search builds describes a path of the problem from the initial state to its state; its moves are its move sequence and its path cost is the sum of the step costs (0 at the root) |
| Search.Reverse | search.py:113 | the reversal has the same length and holds the elements in the opposite order |
| Search.MoveSequence | search.py:107-113 | walking the parent links and reversing yields the moves from the root to the node in order, one per link; the root yields the empty sequence |
| Search.MinIndex | search.py:97-101 | the chosen fringe node has the least priority (path cost plus heuristic) of all fringe nodes, and no earlier node has the same priority |
| Search.PopMin | search.py:97-101 | pop removes exactly one node, which has least priority; the rest of the fringe is unchanged as a multiset |
| Search.Children | search.py:135-138 | one child per successor of the parent's state, in order, whose state, move and cost increment are that successor's |
| Search.SearchStep | search.py:124-138 | an iteration reports exhaustion iff the fringe is empty; stops at a popped goal node of least priority; otherwise closes the popped state (the closed set only grows, by at most that state), drops the node without pushing if the state was closed, and else pushes exactly its children |
| Search.StepPreserves | search.py:120-138 | an iteration keeps the loop invariant (fringe nodes built from successor steps, no closed goal, successors of closed states closed or on the fringe) and decreases (unexpanded states, fringe size) |
| Search.PathsStayIn | search.py:124-126 | every valid path of the problem ends inside any set that holds the initial state and contains all successors of its states (used for the closed set once the fringe is empty) |
| Search.AStar | search.py:116-145 | a returned move sequence is that of a path from the initial state to a goal; an initial goal yields []; None means no path reaches a goal; the search terminates on a finite state space |

## Left out

- Reading the deal from a CSV file (freecell.py:136-141): file I/O; the model builds the state from a sequence of card rows.
- `main`, argument parsing and printing (freecell.py:239-258): command-line plumbing; it also names the undefined `FreeCell` at line 252.
- The bodies of the six move generators and of `_trivial_next_state` (freecell.py:151-191): they are unimplemented stubs returning `[]` and `None`; the model takes their outputs as an input and models the stubs as written. No FreeCell move rules are invented, so the heuristic's change under individual moves is not stated.
- Concrete Python hash integers (freecell.py:37-38, 116-117, 193-198): only the hash keys are modelled, with lemmas that equal keys imply equal values.
- `Card.__deepcopy__` and object aliasing (freecell.py:119-120): Dafny values are immutable.
- Locking inside `Queue.PriorityQueue` (search.py:3, 95): single-threaded use; the fringe is a sequence with least-priority extraction.
- Tie-breaking among nodes of equal priority (search.py:98): arbitrary in the code.
- The abstract `_Fringe` base class raising `NotImplementedError` (search.py:69-88), and the abstract `Problem` methods raising it (search.py:47-60): the model's problem is a record of total functions.
- Search.AStar: requires a finite set of states closed under successors; on an infinite state space the code may loop forever, which a terminating method cannot express.
- Cards.UpperChar: upper-casing is ASCII only, as for Python 2 byte strings; Unicode case mappings are not modelled.
