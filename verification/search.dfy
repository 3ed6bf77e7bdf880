/** A generic A* graph search: search nodes with accumulated path cost, a
    fringe ordered by path cost plus heuristic, a closed set of expanded
    states, and move-sequence reconstruction through parent links. */
module Search {
  import opened Wrappers

  /** One (next state, move, cost) triple of a successor list. */
  datatype Step<S, M> = Step(state: S, move: M, cost: int)

  /** What a searchable problem supplies: its initial state, a goal test, the
      successor list of a state and a heuristic estimate. */
  datatype Problem<!S, M> = Problem(
    initial: S,
    isGoal: S -> bool,
    next: S -> seq<Step<S, M>>,
    heuristic: S -> int)

  /** A problem that does not override the heuristic; its estimate is 0
      everywhere, so A* orders the fringe by path cost alone. */
  function NewProblem<S, M>(initial: S, isGoal: S -> bool, next: S -> seq<Step<S, M>>): (p: Problem<S, M>)
  {
    Problem(initial, isGoal, next, _ => 0)
  }

  /** Without a heuristic, a node's priority is its path cost. */
  lemma UniformCost<S, M>(initial: S, isGoal: S -> bool, next: S -> seq<Step<S, M>>, n: Node<S, M>)
    ensures NewProblem(initial, isGoal, next).heuristic(n.state) == 0
    ensures Priority(NewProblem(initial, isGoal, next), n) == n.Cost()
  {
  }

  // ---------------------------------------------------------------------
  // Search nodes
  // ---------------------------------------------------------------------

  /** A search node: the root wraps the initial state; every other node
      records its parent, the move that produced it and the accumulated
      path cost. */
  datatype Node<S, M> =
    | Root(state: S)
    | Child(parent: Node<S, M>, state: S, move: M, pathCost: int)
  {
    /** The accumulated path cost; 0 at the root. */
    function Cost(): int {
      if Root? then 0 else pathCost
    }
  }

  /** The node for one successor of parent: its cost is the parent's cost
      plus the step's cost. */
  function Extend<S, M>(parent: Node<S, M>, st: Step<S, M>): (r: Node<S, M>)
    ensures r.Child? && r.parent == parent && StepOf(r) == st
    ensures r.Cost() == parent.Cost() + st.cost
    ensures Depth(r) == Depth(parent) + 1
  {
    Child(parent, st.state, st.move, parent.Cost() + st.cost)
  }

  /** The estimated total cost of a node: path cost plus heuristic. */
  function Priority<S, M>(p: Problem<S, M>, n: Node<S, M>): int {
    n.Cost() + p.heuristic(n.state)
  }

  /** The priority of a node the search builds is the sum of the step costs
      from the root plus the heuristic estimate of its state. */
  lemma PriorityOfDerived<S, M>(p: Problem<S, M>, n: Node<S, M>)
    requires Derived(p, n)
    ensures Priority(p, n) == SumCosts(StepsOf(n)) + p.heuristic(n.state)
    ensures n.Root? ==> Priority(p, n) == p.heuristic(p.initial)
  {
    DerivedIsPath(p, n);
  }

  /** The number of parent links from a node to the root. */
  function Depth<S, M>(n: Node<S, M>): nat {
    match n
    case Root(_) => 0
    case Child(q, _, _, _) => Depth(q) + 1
  }

  /** The step that produced a non-root node, with the cost recovered as
      the difference of accumulated costs. */
  function StepOf<S, M>(n: Node<S, M>): Step<S, M>
    requires n.Child?
  {
    Step(n.state, n.move, n.pathCost - n.parent.Cost())
  }

  /** The steps from the root to a node, root side first. */
  function StepsOf<S, M>(n: Node<S, M>): (r: seq<Step<S, M>>)
    ensures |r| == Depth(n)
  {
    match n
    case Root(_) => []
    case Child(q, _, _, _) => StepsOf(q) + [StepOf(n)]
  }

  /** The moves from the root to a node, root side first. */
  function MoveSeq<S, M>(n: Node<S, M>): seq<M> {
    match n
    case Root(_) => []
    case Child(q, _, m, _) => MoveSeq(q) + [m]
  }

  // ---------------------------------------------------------------------
  // Paths of a problem
  // ---------------------------------------------------------------------

  /** The state a sequence of steps ends in, starting from the initial state. */
  function Final<S, M>(p: Problem<S, M>, steps: seq<Step<S, M>>): S {
    if |steps| == 0 then p.initial else steps[|steps| - 1].state
  }

  /** Each step is one of the successors of the state the previous steps end in. */
  ghost predicate ValidPath<S, M>(p: Problem<S, M>, steps: seq<Step<S, M>>)
    decreases |steps|
  {
    |steps| == 0 ||
    (var prefix := steps[..|steps| - 1];
     ValidPath(p, prefix) && steps[|steps| - 1] in p.next(Final(p, prefix)))
  }

  function Moves<S, M>(steps: seq<Step<S, M>>): (r: seq<M>)
    ensures |r| == |steps|
    ensures forall i :: 0 <= i < |steps| ==> r[i] == steps[i].move
  {
    seq(|steps|, i requires 0 <= i < |steps| => steps[i].move)
  }

  function SumCosts<S, M>(steps: seq<Step<S, M>>): int
    decreases |steps|
  {
    if |steps| == 0 then 0 else SumCosts(steps[..|steps| - 1]) + steps[|steps| - 1].cost
  }

  /** A node the search can build: the root holds the initial state, and
      every other node's step is in its parent's successor list. */
  ghost predicate Derived<S, M>(p: Problem<S, M>, n: Node<S, M>) {
    match n
    case Root(s) => s == p.initial
    case Child(q, _, _, _) => Derived(p, q) && StepOf(n) in p.next(q.state)
  }

  /** The moves of steps extended by one step end with that step's move. */
  lemma MovesSnoc<S, M>(steps: seq<Step<S, M>>, st: Step<S, M>)
    ensures Moves(steps + [st]) == Moves(steps) + [st.move]
  {
  }

  /** Extending steps by one step adds that step's cost to the sum. */
  lemma SumCostsSnoc<S, M>(steps: seq<Step<S, M>>, st: Step<S, M>)
    ensures SumCosts(steps + [st]) == SumCosts(steps) + st.cost
  {
    assert (steps + [st])[..|steps|] == steps;
  }

  /** A derived node's parent chain is a path of the problem from the
      initial state to the node's state; its moves are the move sequence
      and its step costs add up to the node's path cost. */
  lemma {:induction false} DerivedIsPath<S, M>(p: Problem<S, M>, n: Node<S, M>)
    requires Derived(p, n)
    ensures ValidPath(p, StepsOf(n))
    ensures Final(p, StepsOf(n)) == n.state
    ensures Moves(StepsOf(n)) == MoveSeq(n)
    ensures n.Cost() == SumCosts(StepsOf(n))
  {
    match n
    case Root(_) =>
    case Child(q, _, _, _) =>
      DerivedIsPath(p, q);
      var steps := StepsOf(n);
      assert steps[..|steps| - 1] == StepsOf(q);
      MovesSnoc(StepsOf(q), StepOf(n));
      SumCostsSnoc(StepsOf(q), StepOf(n));
  }

  // ---------------------------------------------------------------------
  // Move-sequence reconstruction
  // ---------------------------------------------------------------------

  function Reverse<T>(xs: seq<T>): (r: seq<T>)
    ensures |r| == |xs|
    ensures forall i :: 0 <= i < |xs| ==> r[i] == xs[|xs| - 1 - i]
  {
    if |xs| == 0 then [] else Reverse(xs[1..]) + [xs[0]]
  }

  /** Walks the parent links from a node to the root collecting moves, then
      reverses them: the moves from the root to the node, one per link. */
  method MoveSequence<S, M>(n: Node<S, M>) returns (moves: seq<M>)
    ensures moves == MoveSeq(n)
    ensures |moves| == Depth(n)
    ensures n.Root? ==> moves == []
  {
    var collected: seq<M> := [];
    var node := n;
    while node.Child?
      invariant MoveSeq(n) == MoveSeq(node) + Reverse(collected)
      invariant Depth(n) == Depth(node) + |collected|
      decreases Depth(node)
    {
      assert Reverse(collected + [node.move]) == [node.move] + Reverse(collected);
      collected := collected + [node.move];
      node := node.parent;
    }
    moves := Reverse(collected);
  }

  // ---------------------------------------------------------------------
  // The fringe: a priority queue ordered by Priority
  // ---------------------------------------------------------------------

  /** n has the least priority of all nodes of q. */
  predicate IsMin<S, M>(p: Problem<S, M>, n: Node<S, M>, q: seq<Node<S, M>>) {
    forall j :: 0 <= j < |q| ==> Priority(p, n) <= Priority(p, q[j])
  }

  /** The index of the first node of least priority. */
  function MinIndex<S, M>(p: Problem<S, M>, q: seq<Node<S, M>>): (k: nat)
    requires |q| > 0
    ensures k < |q| && IsMin(p, q[k], q)
    ensures forall j :: 0 <= j < k ==> Priority(p, q[k]) < Priority(p, q[j])
  {
    if |q| == 1 then 0
    else
      var last := |q| - 1;
      var k := MinIndex(p, q[..last]);
      if Priority(p, q[last]) < Priority(p, q[k]) then last else k
  }

  /** Removes a node of least priority from the fringe. */
  function PopMin<S, M>(p: Problem<S, M>, q: seq<Node<S, M>>): (r: (Node<S, M>, seq<Node<S, M>>))
    requires |q| > 0
    ensures r.0 in q && IsMin(p, r.0, q)
    ensures multiset(r.1) + multiset{r.0} == multiset(q)
    ensures |r.1| + 1 == |q|
  {
    var k := MinIndex(p, q);
    assert q == q[..k] + [q[k]] + q[k + 1..];
    (q[k], q[..k] + q[k + 1..])
  }

  /** One node per entry of the successor list of n's state, in order. */
  function Children<S, M>(p: Problem<S, M>, n: Node<S, M>): (r: seq<Node<S, M>>)
    ensures |r| == |p.next(n.state)|
    ensures forall i :: 0 <= i < |r| ==>
      r[i].Child? && r[i].parent == n && StepOf(r[i]) == p.next(n.state)[i]
  {
    var succ := p.next(n.state);
    seq(|succ|, i requires 0 <= i < |succ| => Extend(n, succ[i]))
  }

  // ---------------------------------------------------------------------
  // The search loop
  // ---------------------------------------------------------------------

  /** The loop's state: the fringe and the set of expanded states. */
  datatype Config<S, M> = Config(fringe: seq<Node<S, M>>, closed: set<S>)

  /** What one iteration of the loop does: stop with no solution, stop at
      a goal node, or continue with a new configuration. */
  datatype Outcome<S, M> = Exhausted | Found(node: Node<S, M>) | Continue(next: Config<S, M>)

  /** The fringe holding only the root, and nothing expanded. */
  function InitialConfig<S, M>(p: Problem<S, M>): Config<S, M> {
    Config([Root(p.initial)], {})
  }

  /** The node the next iteration pops. */
  function Popped<S, M>(p: Problem<S, M>, c: Config<S, M>): Node<S, M>
    requires |c.fringe| > 0
  {
    PopMin(p, c.fringe).0
  }

  /** One iteration: pop a node of least priority; a goal node ends the
      search; a node whose state is already closed is dropped; otherwise its
      state is closed and its children are pushed. */
  function SearchStep<S(==), M>(p: Problem<S, M>, c: Config<S, M>): (r: Outcome<S, M>)
    ensures r.Exhausted? <==> |c.fringe| == 0
    ensures r.Found? ==> r.node in c.fringe && p.isGoal(r.node.state) && IsMin(p, r.node, c.fringe)
    ensures r.Found? ==> r.node == Popped(p, c)
    ensures r.Continue? ==> !p.isGoal(Popped(p, c).state)
    ensures r.Continue? ==> r.next.closed == c.closed + {Popped(p, c).state}
    ensures r.Continue? && Popped(p, c).state in c.closed ==>
      multiset(r.next.fringe) + multiset{Popped(p, c)} == multiset(c.fringe)
    ensures r.Continue? && Popped(p, c).state !in c.closed ==>
      multiset(r.next.fringe) + multiset{Popped(p, c)}
        == multiset(c.fringe) + multiset(Children(p, Popped(p, c)))
  {
    if |c.fringe| == 0 then Exhausted
    else
      var (n, rest) := PopMin(p, c.fringe);
      if p.isGoal(n.state) then Found(n)
      else if n.state in c.closed then Continue(Config(rest, c.closed))
      else Continue(Config(rest + Children(p, n), c.closed + {n.state}))
  }

  /** The states of the nodes of a fringe. */
  function FringeStates<S, M>(q: seq<Node<S, M>>): (r: set<S>)
    ensures forall i :: 0 <= i < |q| ==> q[i].state in r
    ensures forall s :: s in r ==> exists i :: 0 <= i < |q| && q[i].state == s
  {
    set i | 0 <= i < |q| :: q[i].state
  }

  /** Every successor of a state of U is in U. */
  ghost predicate ClosedUnder<S, M>(p: Problem<S, M>, U: set<S>) {
    forall s, st :: s in U && st in p.next(s) ==> st.state in U
  }

  /** The loop invariant: fringe nodes are derived, no closed state is a
      goal, and every successor of a closed state is closed or on the
      fringe (as is the initial state). */
  ghost predicate Inv<S, M>(p: Problem<S, M>, U: set<S>, c: Config<S, M>) {
    && c.closed <= U
    && (forall n :: n in c.fringe ==> Derived(p, n) && n.state in U)
    && (p.initial in c.closed || p.initial in FringeStates(c.fringe))
    && (forall s :: s in c.closed ==> !p.isGoal(s))
    && (forall s, st :: s in c.closed && st in p.next(s) ==>
          st.state in c.closed || st.state in FringeStates(c.fringe))
  }

  lemma InitialInv<S, M>(p: Problem<S, M>, U: set<S>)
    requires p.initial in U
    ensures Inv(p, U, InitialConfig(p))
  {
    assert InitialConfig(p).fringe[0].state == p.initial;
    assert p.initial in FringeStates(InitialConfig(p).fringe);
  }

  /** Popping leaves every other node of the fringe in place. */
  lemma PopMinMembers<S, M>(p: Problem<S, M>, q: seq<Node<S, M>>)
    requires |q| > 0
    ensures var (n, rest) := PopMin(p, q);
      && (forall x :: x in q ==> x == n || x in rest)
      && (forall x :: x in rest ==> x in q)
      && FringeStates(q) <= FringeStates(rest) + {n.state}
  {
    var (n, rest) := PopMin(p, q);
    forall x | x in q ensures x == n || x in rest {
      assert x in multiset(q);
    }
    forall x | x in rest ensures x in q {
      assert x in multiset(rest);
    }
    forall s | s in FringeStates(q) ensures s in FringeStates(rest) + {n.state} {
      var i :| 0 <= i < |q| && q[i].state == s;
      assert q[i] in q;
      if q[i] != n {
        var j :| 0 <= j < |rest| && rest[j] == q[i];
      }
    }
  }

  /** Dropping a node whose state is already closed keeps the invariant. */
  lemma DropPreserves<S, M>(p: Problem<S, M>, U: set<S>, c: Config<S, M>)
    requires Inv(p, U, c) && |c.fringe| > 0
    requires Popped(p, c).state in c.closed
    ensures Inv(p, U, Config(PopMin(p, c.fringe).1, c.closed))
  {
    PopMinMembers(p, c.fringe);
  }

  /** The children of a derived node are derived, and stay in any set of
      states closed under successors that holds the node's state. */
  lemma ChildrenDerived<S, M>(p: Problem<S, M>, U: set<S>, n: Node<S, M>)
    requires ClosedUnder(p, U) && Derived(p, n) && n.state in U
    ensures forall x :: x in Children(p, n) ==> Derived(p, x) && x.state in U
  {
    var kids := Children(p, n);
    forall x | x in kids ensures Derived(p, x) && x.state in U {
      var i :| 0 <= i < |kids| && kids[i] == x;
      assert StepOf(x) == p.next(n.state)[i];
    }
  }

  /** After pushing the children of n onto rest, every successor of n's
      state and every state of rest is on the fringe. */
  lemma ChildrenCover<S, M>(p: Problem<S, M>, n: Node<S, M>, rest: seq<Node<S, M>>)
    ensures forall st :: st in p.next(n.state) ==> st.state in FringeStates(rest + Children(p, n))
    ensures FringeStates(rest) <= FringeStates(rest + Children(p, n))
  {
    var kids := Children(p, n);
    var fringe := rest + kids;
    forall st | st in p.next(n.state) ensures st.state in FringeStates(fringe) {
      var i :| 0 <= i < |p.next(n.state)| && p.next(n.state)[i] == st;
      assert fringe[|rest| + i] == kids[i];
    }
    forall i | 0 <= i < |rest| ensures rest[i].state in FringeStates(fringe) {
      assert fringe[i] == rest[i];
    }
  }

  /** Expanding a node whose state is not closed keeps the invariant. */
  lemma ExpandPreserves<S, M>(p: Problem<S, M>, U: set<S>, c: Config<S, M>)
    requires ClosedUnder(p, U) && Inv(p, U, c) && |c.fringe| > 0
    requires !p.isGoal(Popped(p, c).state) && Popped(p, c).state !in c.closed
    ensures var (n, rest) := PopMin(p, c.fringe);
      Inv(p, U, Config(rest + Children(p, n), c.closed + {n.state}))
  {
    var (n, rest) := PopMin(p, c.fringe);
    PopMinMembers(p, c.fringe);
    ChildrenDerived(p, U, n);
    ChildrenCover(p, n, rest);
    var fringe' := rest + Children(p, n);
    assert forall x :: x in fringe' ==> x in rest || x in Children(p, n);
  }

  /** One iteration keeps the invariant and decreases the pair (number of
      unexpanded states, fringe size) lexicographically. */
  lemma StepPreserves<S, M>(p: Problem<S, M>, U: set<S>, c: Config<S, M>)
    requires ClosedUnder(p, U) && Inv(p, U, c) && SearchStep(p, c).Continue?
    ensures Inv(p, U, SearchStep(p, c).next)
    ensures var c' := SearchStep(p, c).next;
      |U - c'.closed| < |U - c.closed| || (c'.closed == c.closed && |c'.fringe| < |c.fringe|)
  {
    var n := Popped(p, c);
    if n.state in c.closed {
      DropPreserves(p, U, c);
    } else {
      ExpandPreserves(p, U, c);
      assert U - c.closed == (U - SearchStep(p, c).next.closed) + {n.state};
    }
  }

  /** If the initial state is in C and C holds every successor of its
      states, every path of the problem ends inside C. */
  lemma {:induction false} PathsStayIn<S, M>(p: Problem<S, M>, C: set<S>, steps: seq<Step<S, M>>)
    requires p.initial in C
    requires forall s, st :: s in C && st in p.next(s) ==> st.state in C
    requires ValidPath(p, steps)
    ensures Final(p, steps) in C
    decreases |steps|
  {
    if |steps| > 0 {
      PathsStayIn(p, C, steps[..|steps| - 1]);
    }
  }

  /** A* search. A returned move sequence is the moves of a path from the
      initial state to a goal state; None is returned only when the fringe
      is exhausted, and then no path reaches a goal. U is any finite set of
      states that holds the initial state and is closed under successors:
      it bounds the number of expansions. */
  method AStar<S(==), M>(p: Problem<S, M>, ghost U: set<S>) returns (r: Option<seq<M>>)
    requires p.initial in U && ClosedUnder(p, U)
    ensures r.Some? ==>
      exists steps :: ValidPath(p, steps) && p.isGoal(Final(p, steps)) && Moves(steps) == r.value
    ensures r.None? ==> forall steps :: ValidPath(p, steps) ==> !p.isGoal(Final(p, steps))
    ensures p.isGoal(p.initial) ==> r == Some([])
  {
    var config := InitialConfig(p);
    InitialInv(p, U);
    while true
      invariant Inv(p, U, config)
      invariant p.isGoal(p.initial) ==> config == InitialConfig(p)
      decreases |U - config.closed|, |config.fringe|
    {
      var outcome := SearchStep(p, config);
      match outcome
      case Exhausted =>
        forall steps | ValidPath(p, steps) ensures !p.isGoal(Final(p, steps)) {
          PathsStayIn(p, config.closed, steps);
        }
        return None;
      case Found(node) =>
        var moves := MoveSequence(node);
        DerivedIsPath(p, node);
        return Some(moves);
      case Continue(next) =>
        StepPreserves(p, U, config);
        config := next;
    }
  }
}
