// The stack-based search for a descendant in the accessibility tree, bounded in nodes and
// in depth (first_descendant in native/computer-use-linux/runtime.py).
module DescendantSearch {
  import opened Wrappers

  // An object is known by its identity; what calls itself a tree may be any graph.
  type Id = nat
  type Graph = map<Id, seq<Id>>

  datatype Entry = Entry(node: Id, depth: nat)

  function ChildrenOf(g: Graph, node: Id): seq<Id> {
    if node in g then g[node] else []
  }

  // The children in reversed order, as they go on the stack.
  function Reversed(children: seq<Id>, depth: nat): seq<Entry> {
    if children == [] then [] else Reversed(children[1..], depth) + [Entry(children[0], depth)]
  }

  // The search from a given stack, whose top is its last entry.
  function Search(g: Graph, matches: Id -> bool, stack: seq<Entry>, seen: set<Id>, budget: nat, maxDepth: nat): Option<Id>
    decreases budget, |stack|
  {
    if stack == [] || budget == 0 then None
    else
      var top, rest := stack[|stack| - 1], stack[..|stack| - 1];
      if top.node in seen then Search(g, matches, rest, seen, budget, maxDepth)
      else if matches(top.node) then Some(top.node)
      else if top.depth >= maxDepth then Search(g, matches, rest, seen + {top.node}, budget - 1, maxDepth)
      else
        Search(g, matches, rest + Reversed(ChildrenOf(g, top.node), top.depth + 1), seen + {top.node}, budget - 1, maxDepth)
  }

  // `node` is reached from `root` in `steps` steps.
  ghost predicate Reached(g: Graph, root: Id, node: Id, steps: nat)
    decreases steps
  {
    if steps == 0 then node == root
    else exists parent :: Reached(g, root, parent, steps - 1) && node in ChildrenOf(g, parent)
  }

  // What one turn of the loop leaves on the stack, after the top was visited.
  function Push(g: Graph, stack: seq<Entry>, maxDepth: nat): seq<Entry>
    requires stack != []
  {
    var top, rest := stack[|stack| - 1], stack[..|stack| - 1];
    if top.depth >= maxDepth then rest else rest + Reversed(ChildrenOf(g, top.node), top.depth + 1)
  }

  lemma SearchStep(g: Graph, matches: Id -> bool, stack: seq<Entry>, seen: set<Id>, budget: nat, maxDepth: nat)
    requires stack != [] && budget > 0
    ensures Search(g, matches, stack, seen, budget, maxDepth) == (
              var id := stack[|stack| - 1].node;
              if id in seen then Search(g, matches, stack[..|stack| - 1], seen, budget, maxDepth)
              else if matches(id) then Some(id)
              else Search(g, matches, Push(g, stack, maxDepth), seen + {id}, budget - 1, maxDepth))
  {
  }

  lemma SearchOver(g: Graph, matches: Id -> bool, stack: seq<Entry>, seen: set<Id>, budget: nat, maxDepth: nat)
    requires stack == [] || budget == 0
    ensures Search(g, matches, stack, seen, budget, maxDepth) == None
  {
  }

  // Everything on the stack is as deep as it says, and no deeper than allowed.
  ghost predicate Sound(g: Graph, root: Id, stack: seq<Entry>, maxDepth: nat) {
    forall i :: 0 <= i < |stack| ==>
      stack[i].depth <= maxDepth && Reached(g, root, stack[i].node, stack[i].depth)
  }

  lemma ReachedNext(g: Graph, root: Id, parent: Id, steps: nat, node: Id)
    requires (steps == 0 && parent == root) || Reached(g, root, parent, steps)
    requires node in ChildrenOf(g, parent)
    ensures Reached(g, root, node, steps + 1)
  {
    assert Reached(g, root, parent, steps);
  }

  lemma ChildrenAreSound(g: Graph, root: Id, top: Entry, maxDepth: nat)
    requires Reached(g, root, top.node, top.depth) && top.depth < maxDepth
    ensures Sound(g, root, Reversed(ChildrenOf(g, top.node), top.depth + 1), maxDepth)
  {
    hide Reached;
    var children := Reversed(ChildrenOf(g, top.node), top.depth + 1);
    ReversedAt(ChildrenOf(g, top.node), top.depth + 1);
    hide Reversed, ChildrenOf;
    forall i | 0 <= i < |children|
      ensures Reached(g, root, children[i].node, top.depth + 1)
    {
      ReachedNext(g, root, top.node, top.depth, children[i].node);
    }
  }

  lemma SoundBoth(g: Graph, root: Id, a: seq<Entry>, b: seq<Entry>, maxDepth: nat)
    requires Sound(g, root, a, maxDepth) && Sound(g, root, b, maxDepth)
    ensures Sound(g, root, a + b, maxDepth)
  {
    hide Reached;
  }

  lemma SoundRest(g: Graph, root: Id, stack: seq<Entry>, maxDepth: nat)
    requires stack != [] && Sound(g, root, stack, maxDepth)
    ensures Sound(g, root, stack[..|stack| - 1], maxDepth)
    ensures stack[|stack| - 1].depth <= maxDepth && Reached(g, root, stack[|stack| - 1].node, stack[|stack| - 1].depth)
  {
    hide Reached;
  }

  lemma PushIsSound(g: Graph, root: Id, stack: seq<Entry>, maxDepth: nat)
    requires stack != [] && Sound(g, root, stack, maxDepth)
    ensures Sound(g, root, Push(g, stack, maxDepth), maxDepth)
    ensures Sound(g, root, stack[..|stack| - 1], maxDepth)
  {
    hide Reached, Reversed, ChildrenOf, Sound;
    var top := stack[|stack| - 1];
    SoundRest(g, root, stack, maxDepth);
    if top.depth < maxDepth {
      ChildrenAreSound(g, root, top, maxDepth);
      SoundBoth(g, root, stack[..|stack| - 1], Reversed(ChildrenOf(g, top.node), top.depth + 1), maxDepth);
    }
  }

  // On any finitely branching graph, cyclic or not, the search ends; what it returns
  // matches and is no deeper than allowed.
  method FirstDescendant(g: Graph, matches: Id -> bool, root: Id, maxNodes: nat, maxDepth: nat)
    returns (found: Option<Id>)
    ensures found == Search(g, matches, [Entry(root, 0)], {}, maxNodes, maxDepth)
    ensures found.Some? ==>
      matches(found.value) && exists steps: nat :: steps <= maxDepth && Reached(g, root, found.value, steps)
  {
    var visitedCount := 0;
    var stack := [Entry(root, 0)];
    var seen: set<Id> := {};
    hide Search, Push, Reached;
    RootIsSound(g, root, maxDepth);
    while stack != [] && visitedCount < maxNodes
      invariant visitedCount <= maxNodes
      invariant Search(g, matches, stack, seen, maxNodes - visitedCount, maxDepth)
             == Search(g, matches, [Entry(root, 0)], {}, maxNodes, maxDepth)
      invariant Sound(g, root, stack, maxDepth)
      decreases maxNodes - visitedCount, |stack|
    {
      SearchStep(g, matches, stack, seen, maxNodes - visitedCount, maxDepth);
      PushIsSound(g, root, stack, maxDepth);
      ghost var pushed := Push(g, stack, maxDepth);
      var top := stack[|stack| - 1];
      if top.node in seen {
        stack := stack[..|stack| - 1];
        continue;
      }
      seen := seen + {top.node};
      visitedCount := visitedCount + 1;
      if matches(top.node) {
        assert Reached(g, root, top.node, top.depth);
        return Some(top.node);
      }
      stack := PopAndPush(g, stack, maxDepth);
    }
    SearchOver(g, matches, stack, seen, maxNodes - visitedCount, maxDepth);
    return None;
  }

  // The part of the loop body that replaces the top of the stack by its children.
  method PopAndPush(g: Graph, stack: seq<Entry>, maxDepth: nat) returns (after: seq<Entry>)
    requires stack != []
    ensures after == Push(g, stack, maxDepth)
  {
    var top := stack[|stack| - 1];
    after := stack[..|stack| - 1];
    if top.depth >= maxDepth {
      return;
    }
    var childItems := ChildrenOf(g, top.node);
    assert childItems[|childItems|..] == [];
    var k := |childItems|;
    while k > 0
      invariant 0 <= k <= |childItems|
      invariant after == stack[..|stack| - 1] + Reversed(childItems[k..], top.depth + 1)
    {
      k := k - 1;
      assert childItems[k..][1..] == childItems[k + 1..];
      after := after + [Entry(childItems[k], top.depth + 1)];
    }
    assert childItems[0..] == childItems;
  }

  lemma RootIsSound(g: Graph, root: Id, maxDepth: nat)
    ensures Sound(g, root, [Entry(root, 0)], maxDepth)
  {
  }

  lemma {:induction false} ReversedAt(children: seq<Id>, depth: nat)
    ensures |Reversed(children, depth)| == |children|
    ensures forall i :: 0 <= i < |children| ==>
      Reversed(children, depth)[i] == Entry(children[|children| - 1 - i], depth)
  {
    if children != [] {
      ReversedAt(children[1..], depth);
    }
  }

  // ---------------------------------------------------------------------------
  // On any graph: the recursive depth-first walk, and the search as its first match

  // What the walk visits from a node, given what was seen before and how many visits are
  // left, in order and with the depth each node was met at.
  function Walk(g: Graph, node: Id, depth: nat, maxDepth: nat, seen: set<Id>, budget: nat): (walk: seq<Entry>)
    ensures |walk| <= budget
    decreases budget, 0
  {
    if budget == 0 || node in seen then []
    else
      [Entry(node, depth)]
      + (if depth >= maxDepth then []
         else WalkAll(g, ChildrenOf(g, node), depth + 1, maxDepth, seen + {node}, budget - 1))
  }

  function WalkAll(g: Graph, nodes: seq<Id>, depth: nat, maxDepth: nat, seen: set<Id>, budget: nat): (walk: seq<Entry>)
    ensures |walk| <= budget
    decreases budget, |nodes|
  {
    if nodes == [] then []
    else
      var first := Walk(g, nodes[0], depth, maxDepth, seen, budget);
      first + WalkAll(g, nodes[1..], depth, maxDepth, seen + Visited(first), budget - |first|)
  }

  function Visited(walk: seq<Entry>): set<Id> {
    set i | 0 <= i < |walk| :: walk[i].node
  }

  lemma VisitedBoth(a: seq<Entry>, b: seq<Entry>)
    ensures Visited(a + b) == Visited(a) + Visited(b)
  {
    forall i | 0 <= i < |a|
      ensures a[i].node in Visited(a + b)
    {
      assert (a + b)[i] == a[i];
    }
    forall i | 0 <= i < |b|
      ensures b[i].node in Visited(a + b)
    {
      assert (a + b)[|a| + i] == b[i];
    }
  }

  lemma VisitedOne(e: Entry)
    ensures Visited([e]) == {e.node} && Visited([]) == {}
  {
    assert [e][0] == e;
  }

  function IdsOf(walk: seq<Entry>): (ids: seq<Id>)
    ensures |ids| == |walk| && forall i :: 0 <= i < |walk| ==> ids[i] == walk[i].node
  {
    seq(|walk|, i requires 0 <= i < |walk| => walk[i].node)
  }

  lemma IdsOfBoth(a: seq<Entry>, b: seq<Entry>)
    ensures IdsOf(a + b) == IdsOf(a) + IdsOf(b)
  {
  }

  function FirstMatch(ids: seq<Id>, matches: Id -> bool): Option<Id> {
    if ids == [] then None else if matches(ids[0]) then Some(ids[0]) else FirstMatch(ids[1..], matches)
  }

  lemma FirstMatchThen(first: Entry, rest: seq<Entry>, matches: Id -> bool)
    ensures FirstMatch(IdsOf([first] + rest), matches)
         == if matches(first.node) then Some(first.node) else FirstMatch(IdsOf(rest), matches)
  {
    assert IdsOf([first] + rest)[1..] == IdsOf(rest);
  }

  lemma {:induction false} FirstMatchFinds(walk: seq<Entry>, matches: Id -> bool)
    ensures match FirstMatch(IdsOf(walk), matches)
            case Some(n) => n in Visited(walk) && matches(n)
            case None => forall n <- Visited(walk) :: !matches(n)
  {
    if walk != [] {
      assert [walk[0]] + walk[1..] == walk;
      VisitedBoth([walk[0]], walk[1..]);
      VisitedOne(walk[0]);
      FirstMatchThen(walk[0], walk[1..], matches);
      FirstMatchFinds(walk[1..], matches);
      hide Visited, FirstMatch, IdsOf;
    }
  }

  // The walks from everything on a stack, its top first.
  function WalkStack(g: Graph, stack: seq<Entry>, maxDepth: nat, seen: set<Id>, budget: nat): (walk: seq<Entry>)
    ensures |walk| <= budget
    decreases |stack|
  {
    if stack == [] then []
    else
      var top := stack[|stack| - 1];
      var first := Walk(g, top.node, top.depth, maxDepth, seen, budget);
      first + WalkStack(g, stack[..|stack| - 1], maxDepth, seen + Visited(first), budget - |first|)
  }

  lemma WalkStackTop(g: Graph, rest: seq<Entry>, top: Entry, maxDepth: nat, seen: set<Id>, budget: nat)
    ensures var first := Walk(g, top.node, top.depth, maxDepth, seen, budget);
            WalkStack(g, rest + [top], maxDepth, seen, budget)
            == first + WalkStack(g, rest, maxDepth, seen + Visited(first), budget - |first|)
  {
    assert (rest + [top])[..|rest|] == rest;
    hide Walk, Visited;
  }

  lemma WalkAllUnfolds(g: Graph, nodes: seq<Id>, depth: nat, maxDepth: nat, seen: set<Id>, budget: nat)
    requires nodes != []
    ensures var first := Walk(g, nodes[0], depth, maxDepth, seen, budget);
            WalkAll(g, nodes, depth, maxDepth, seen, budget)
            == first + WalkAll(g, nodes[1..], depth, maxDepth, seen + Visited(first), budget - |first|)
  {
    hide Walk, Visited;
  }

  lemma NoNodes(g: Graph, depth: nat, maxDepth: nat, seen: set<Id>, budget: nat)
    ensures WalkAll(g, [], depth, maxDepth, seen, budget) == [] && Visited([]) == {} && Reversed([], depth) == []
  {
  }

  lemma ReversedUnfolds(nodes: seq<Id>, depth: nat)
    requires nodes != []
    ensures Reversed(nodes, depth) == Reversed(nodes[1..], depth) + [Entry(nodes[0], depth)]
  {
  }

  // Children pushed in reversed order are walked in order before the rest of the stack.
  lemma {:induction false} WalkPushed(g: Graph, rest: seq<Entry>, nodes: seq<Id>, depth: nat, maxDepth: nat,
                                      seen: set<Id>, budget: nat)
    ensures var first := WalkAll(g, nodes, depth, maxDepth, seen, budget);
            WalkStack(g, rest + Reversed(nodes, depth), maxDepth, seen, budget)
            == first + WalkStack(g, rest, maxDepth, seen + Visited(first), budget - |first|)
    decreases |nodes|
  {
    hide *;
    NoNodes(g, depth, maxDepth, seen, budget);
    if nodes == [] {
      assert rest + [] == rest && seen + {} == seen;
      assert [] + WalkStack(g, rest, maxDepth, seen, budget) == WalkStack(g, rest, maxDepth, seen, budget);
    } else {
      ReversedUnfolds(nodes, depth);
      WalkAllUnfolds(g, nodes, depth, maxDepth, seen, budget);
      var pushed := rest + Reversed(nodes[1..], depth);
      assert rest + Reversed(nodes, depth) == pushed + [Entry(nodes[0], depth)];
      WalkStackTop(g, pushed, Entry(nodes[0], depth), maxDepth, seen, budget);
      var one := Walk(g, nodes[0], depth, maxDepth, seen, budget);
      var more := WalkAll(g, nodes[1..], depth, maxDepth, seen + Visited(one), budget - |one|);
      WalkPushed(g, rest, nodes[1..], depth, maxDepth, seen + Visited(one), budget - |one|);
      VisitedBoth(one, more);
      assert seen + Visited(one) + Visited(more) == seen + Visited(one + more);
    }
  }

  lemma WalkIsOver(g: Graph, stack: seq<Entry>, maxDepth: nat, seen: set<Id>, budget: nat, matches: Id -> bool)
    requires stack == [] || budget == 0
    ensures WalkStack(g, stack, maxDepth, seen, budget) == [] && FirstMatch(IdsOf([]), matches) == None
  {
    hide Walk;
  }

  lemma WalkOfSeen(g: Graph, top: Entry, maxDepth: nat, seen: set<Id>, budget: nat)
    requires budget == 0 || top.node in seen
    ensures Walk(g, top.node, top.depth, maxDepth, seen, budget) == [] && Visited([]) == {}
  {
  }

  lemma WalkOfNew(g: Graph, top: Entry, maxDepth: nat, seen: set<Id>, budget: nat)
    requires top.node !in seen && budget > 0
    ensures Walk(g, top.node, top.depth, maxDepth, seen, budget)
         == [top] + (if top.depth >= maxDepth then []
                     else WalkAll(g, ChildrenOf(g, top.node), top.depth + 1, maxDepth, seen + {top.node}, budget - 1))
  {
    hide WalkAll, ChildrenOf;
  }

  lemma PushCases(g: Graph, stack: seq<Entry>, maxDepth: nat)
    requires stack != []
    ensures var top, rest := stack[|stack| - 1], stack[..|stack| - 1];
            Push(g, stack, maxDepth)
            == if top.depth >= maxDepth then rest else rest + Reversed(ChildrenOf(g, top.node), top.depth + 1)
  {
    hide Reversed, ChildrenOf;
  }

  // Visiting the top and going on with what is pushed.
  lemma WalkVisits(g: Graph, stack: seq<Entry>, maxDepth: nat, seen: set<Id>, budget: nat)
    requires stack != [] && budget > 0 && stack[|stack| - 1].node !in seen
    ensures WalkStack(g, stack, maxDepth, seen, budget)
         == [stack[|stack| - 1]]
          + WalkStack(g, Push(g, stack, maxDepth), maxDepth, seen + {stack[|stack| - 1].node}, budget - 1)
  {
    hide *;
    var top, rest := stack[|stack| - 1], stack[..|stack| - 1];
    assert stack == rest + [top];
    WalkStackTop(g, rest, top, maxDepth, seen, budget);
    WalkOfNew(g, top, maxDepth, seen, budget);
    PushCases(g, stack, maxDepth);
    VisitedOne(top);
    if top.depth < maxDepth {
      var children := ChildrenOf(g, top.node);
      var below := WalkAll(g, children, top.depth + 1, maxDepth, seen + {top.node}, budget - 1);
      WalkPushed(g, rest, children, top.depth + 1, maxDepth, seen + {top.node}, budget - 1);
      VisitedBoth([top], below);
      assert seen + ({top.node} + Visited(below)) == seen + {top.node} + Visited(below);
    } else {
      assert [top] + [] == [top];
    }
  }

  lemma {:induction false} SearchIsWalk(g: Graph, matches: Id -> bool, stack: seq<Entry>, seen: set<Id>, budget: nat,
                                        maxDepth: nat)
    ensures Search(g, matches, stack, seen, budget, maxDepth)
         == FirstMatch(IdsOf(WalkStack(g, stack, maxDepth, seen, budget)), matches)
    decreases budget, |stack|
  {
    hide *;
    if stack == [] || budget == 0 {
      SearchOver(g, matches, stack, seen, budget, maxDepth);
      WalkIsOver(g, stack, maxDepth, seen, budget, matches);
    } else {
      var top, rest := stack[|stack| - 1], stack[..|stack| - 1];
      SearchStep(g, matches, stack, seen, budget, maxDepth);
      if top.node in seen {
        assert stack == rest + [top];
        WalkStackTop(g, rest, top, maxDepth, seen, budget);
        WalkOfSeen(g, top, maxDepth, seen, budget);
        assert seen + {} == seen;
        assert [] + WalkStack(g, rest, maxDepth, seen, budget) == WalkStack(g, rest, maxDepth, seen, budget);
        SearchIsWalk(g, matches, rest, seen, budget, maxDepth);
      } else {
        var after := Push(g, stack, maxDepth);
        WalkVisits(g, stack, maxDepth, seen, budget);
        SearchIsWalk(g, matches, after, seen + {top.node}, budget - 1, maxDepth);
        FirstMatchThen(top, WalkStack(g, after, maxDepth, seen + {top.node}, budget - 1), matches);
      }
    }
  }

  // What a search from the root visits as long as nothing matches.
  function WalkFrom(g: Graph, root: Id, maxNodes: nat, maxDepth: nat): seq<Entry> {
    Walk(g, root, 0, maxDepth, {}, maxNodes)
  }

  // On every graph, shared and cyclic ones included, the stack search finds the first
  // match of the recursive depth-first walk under the same two limits.
  lemma SearchIsDepthFirst(g: Graph, matches: Id -> bool, root: Id, maxNodes: nat, maxDepth: nat)
    ensures Search(g, matches, [Entry(root, 0)], {}, maxNodes, maxDepth)
         == FirstMatch(IdsOf(WalkFrom(g, root, maxNodes, maxDepth)), matches)
  {
    hide Search, Walk, Visited, FirstMatch;
    SearchIsWalk(g, matches, [Entry(root, 0)], {}, maxNodes, maxDepth);
    var walk := Walk(g, root, 0, maxDepth, {}, maxNodes);
    assert [Entry(root, 0)][..0] == [] && walk + [] == walk;
  }

  // ---------------------------------------------------------------------------
  // What the walk visits

  lemma {:induction false} WalkIsFresh(g: Graph, node: Id, depth: nat, maxDepth: nat, seen: set<Id>, budget: nat)
    ensures var walk := Walk(g, node, depth, maxDepth, seen, budget);
            Visited(walk) !! seen && |Visited(walk)| == |walk|
    decreases budget, 0
  {
    hide *;
    var top := Entry(node, depth);
    VisitedOne(top);
    if budget == 0 || node in seen {
      WalkOfSeen(g, top, maxDepth, seen, budget);
    } else {
      WalkOfNew(g, top, maxDepth, seen, budget);
      if depth < maxDepth {
        var children := ChildrenOf(g, node);
        var below := WalkAll(g, children, depth + 1, maxDepth, seen + {node}, budget - 1);
        WalkAllIsFresh(g, children, depth + 1, maxDepth, seen + {node}, budget - 1);
        VisitedBoth([top], below);
        assert |{node} + Visited(below)| == 1 + |Visited(below)|;
      } else {
        assert [top] + [] == [top];
      }
    }
  }

  lemma {:induction false} WalkAllIsFresh(g: Graph, nodes: seq<Id>, depth: nat, maxDepth: nat, seen: set<Id>, budget: nat)
    ensures var walk := WalkAll(g, nodes, depth, maxDepth, seen, budget);
            Visited(walk) !! seen && |Visited(walk)| == |walk|
    decreases budget, |nodes|
  {
    hide *;
    NoNodes(g, depth, maxDepth, seen, budget);
    if nodes != [] {
      WalkAllUnfolds(g, nodes, depth, maxDepth, seen, budget);
      var first := Walk(g, nodes[0], depth, maxDepth, seen, budget);
      var later := WalkAll(g, nodes[1..], depth, maxDepth, seen + Visited(first), budget - |first|);
      WalkIsFresh(g, nodes[0], depth, maxDepth, seen, budget);
      WalkAllIsFresh(g, nodes[1..], depth, maxDepth, seen + Visited(first), budget - |first|);
      VisitedBoth(first, later);
      assert |Visited(first) + Visited(later)| == |Visited(first)| + |Visited(later)|;
    }
  }

  // A node is met at a depth no greater than the number of nodes visited before it.
  lemma {:induction false} WalkIsShallow(g: Graph, node: Id, depth: nat, maxDepth: nat, seen: set<Id>, budget: nat)
    ensures var walk := Walk(g, node, depth, maxDepth, seen, budget);
            forall i :: 0 <= i < |walk| ==> walk[i].depth <= depth + i
    decreases budget, 0
  {
    hide *;
    var top := Entry(node, depth);
    if budget == 0 || node in seen {
      WalkOfSeen(g, top, maxDepth, seen, budget);
    } else {
      WalkOfNew(g, top, maxDepth, seen, budget);
      if depth < maxDepth {
        WalkAllIsShallow(g, ChildrenOf(g, node), depth + 1, maxDepth, seen + {node}, budget - 1);
      }
    }
  }

  lemma {:induction false} WalkAllIsShallow(g: Graph, nodes: seq<Id>, depth: nat, maxDepth: nat, seen: set<Id>, budget: nat)
    ensures var walk := WalkAll(g, nodes, depth, maxDepth, seen, budget);
            forall i :: 0 <= i < |walk| ==> walk[i].depth <= depth + i
    decreases budget, |nodes|
  {
    hide *;
    NoNodes(g, depth, maxDepth, seen, budget);
    if nodes != [] {
      WalkAllUnfolds(g, nodes, depth, maxDepth, seen, budget);
      var first := Walk(g, nodes[0], depth, maxDepth, seen, budget);
      WalkIsShallow(g, nodes[0], depth, maxDepth, seen, budget);
      WalkAllIsShallow(g, nodes[1..], depth, maxDepth, seen + Visited(first), budget - |first|);
    }
  }

  lemma SoundOne(g: Graph, root: Id, top: Entry, maxDepth: nat)
    requires Reached(g, root, top.node, top.depth) && top.depth <= maxDepth
    ensures Sound(g, root, [top], maxDepth) && Sound(g, root, [], maxDepth)
  {
    hide Reached;
  }

  lemma ChildrenAreReached(g: Graph, root: Id, node: Id, depth: nat)
    requires Reached(g, root, node, depth)
    ensures forall c <- ChildrenOf(g, node) :: Reached(g, root, c, depth + 1)
  {
    hide Reached, ChildrenOf;
    forall c | c in ChildrenOf(g, node)
      ensures Reached(g, root, c, depth + 1)
    {
      ReachedNext(g, root, node, depth, c);
    }
  }

  lemma {:induction false} WalkIsSound(g: Graph, root: Id, node: Id, depth: nat, maxDepth: nat, seen: set<Id>, budget: nat)
    requires Reached(g, root, node, depth) && depth <= maxDepth
    ensures Sound(g, root, Walk(g, node, depth, maxDepth, seen, budget), maxDepth)
    decreases budget, 0
  {
    hide *;
    var top := Entry(node, depth);
    SoundOne(g, root, top, maxDepth);
    if budget == 0 || node in seen {
      WalkOfSeen(g, top, maxDepth, seen, budget);
    } else {
      WalkOfNew(g, top, maxDepth, seen, budget);
      if depth < maxDepth {
        var children := ChildrenOf(g, node);
        ChildrenAreReached(g, root, node, depth);
        WalkAllIsSound(g, root, children, depth + 1, maxDepth, seen + {node}, budget - 1);
        SoundBoth(g, root, [top], WalkAll(g, children, depth + 1, maxDepth, seen + {node}, budget - 1), maxDepth);
      } else {
        assert [top] + [] == [top];
      }
    }
  }

  lemma {:induction false} WalkAllIsSound(g: Graph, root: Id, nodes: seq<Id>, depth: nat, maxDepth: nat, seen: set<Id>,
                                          budget: nat)
    requires depth <= maxDepth && forall n <- nodes :: Reached(g, root, n, depth)
    ensures Sound(g, root, WalkAll(g, nodes, depth, maxDepth, seen, budget), maxDepth)
    decreases budget, |nodes|
  {
    hide *;
    if nodes == [] {
      NoNodes(g, depth, maxDepth, seen, budget);
      NothingIsSound(g, root, maxDepth);
    } else {
      WalkAllUnfolds(g, nodes, depth, maxDepth, seen, budget);
      var first := Walk(g, nodes[0], depth, maxDepth, seen, budget);
      assert nodes[0] in nodes;
      WalkIsSound(g, root, nodes[0], depth, maxDepth, seen, budget);
      WalkAllIsSound(g, root, nodes[1..], depth, maxDepth, seen + Visited(first), budget - |first|);
      SoundBoth(g, root, first, WalkAll(g, nodes[1..], depth, maxDepth, seen + Visited(first), budget - |first|), maxDepth);
    }
  }

  lemma NothingIsSound(g: Graph, root: Id, maxDepth: nat)
    ensures Sound(g, root, [], maxDepth)
  {
  }

  // Every child of a node met above the depth limit is among `ids`.
  ghost predicate Followed(g: Graph, walk: seq<Entry>, maxDepth: nat, ids: set<Id>) {
    forall i :: 0 <= i < |walk| && walk[i].depth < maxDepth ==>
      forall c <- ChildrenOf(g, walk[i].node) :: c in ids
  }

  lemma FollowedMore(g: Graph, walk: seq<Entry>, maxDepth: nat, ids: set<Id>, more: set<Id>)
    requires Followed(g, walk, maxDepth, ids) && ids <= more
    ensures Followed(g, walk, maxDepth, more)
  {
    hide ChildrenOf;
  }

  lemma FollowedBoth(g: Graph, a: seq<Entry>, b: seq<Entry>, maxDepth: nat, ids: set<Id>)
    requires Followed(g, a, maxDepth, ids) && Followed(g, b, maxDepth, ids)
    ensures Followed(g, a + b, maxDepth, ids)
  {
    hide ChildrenOf;
  }

  lemma FollowedOne(g: Graph, e: Entry, maxDepth: nat, ids: set<Id>)
    requires e.depth < maxDepth ==> forall c <- ChildrenOf(g, e.node) :: c in ids
    ensures Followed(g, [e], maxDepth, ids) && Followed(g, [], maxDepth, ids)
  {
    hide ChildrenOf;
  }

  // While visits are left, only the depth limit keeps the walk from a child.
  lemma {:induction false} WalkFollows(g: Graph, node: Id, depth: nat, maxDepth: nat, seen: set<Id>, budget: nat)
    requires |Walk(g, node, depth, maxDepth, seen, budget)| < budget
    ensures var walk := Walk(g, node, depth, maxDepth, seen, budget);
            node in seen + Visited(walk) && Followed(g, walk, maxDepth, seen + Visited(walk))
    decreases budget, 0
  {
    hide *;
    var top := Entry(node, depth);
    if node in seen {
      WalkOfSeen(g, top, maxDepth, seen, budget);
      NothingToFollow(g, maxDepth, seen + {});
    } else {
      WalkOfNew(g, top, maxDepth, seen, budget);
      VisitedOne(top);
      if depth < maxDepth {
        var children := ChildrenOf(g, node);
        var below := WalkAll(g, children, depth + 1, maxDepth, seen + {node}, budget - 1);
        WalkAllFollows(g, children, depth + 1, maxDepth, seen + {node}, budget - 1);
        VisitedBoth([top], below);
        var ids := seen + ({node} + Visited(below));
        assert seen + {node} + Visited(below) == ids;
        FollowedOne(g, top, maxDepth, ids);
        FollowedBoth(g, [top], below, maxDepth, ids);
      } else {
        assert [top] + [] == [top];
        FollowedOne(g, top, maxDepth, seen + {node});
      }
    }
  }

  lemma NothingToFollow(g: Graph, maxDepth: nat, ids: set<Id>)
    ensures Followed(g, [], maxDepth, ids)
  {
  }

  lemma {:induction false} WalkAllFollows(g: Graph, nodes: seq<Id>, depth: nat, maxDepth: nat, seen: set<Id>, budget: nat)
    requires |WalkAll(g, nodes, depth, maxDepth, seen, budget)| < budget
    ensures var walk := WalkAll(g, nodes, depth, maxDepth, seen, budget);
            (forall c <- nodes :: c in seen + Visited(walk)) && Followed(g, walk, maxDepth, seen + Visited(walk))
    decreases budget, |nodes|
  {
    hide *;
    NoNodes(g, depth, maxDepth, seen, budget);
    NothingToFollow(g, maxDepth, seen + {});
    if nodes != [] {
      WalkAllUnfolds(g, nodes, depth, maxDepth, seen, budget);
      var first := Walk(g, nodes[0], depth, maxDepth, seen, budget);
      var later := WalkAll(g, nodes[1..], depth, maxDepth, seen + Visited(first), budget - |first|);
      WalkFollows(g, nodes[0], depth, maxDepth, seen, budget);
      WalkAllFollows(g, nodes[1..], depth, maxDepth, seen + Visited(first), budget - |first|);
      VisitedBoth(first, later);
      var ids := seen + Visited(first + later);
      assert seen + Visited(first) + Visited(later) == ids;
      FollowedMore(g, first, maxDepth, seen + Visited(first), ids);
      FollowedBoth(g, first, later, maxDepth, ids);
      assert forall c <- nodes :: c == nodes[0] || c in nodes[1..];
    }
  }

  // ---------------------------------------------------------------------------
  // When the search misses nothing

  // The search answers for the nodes at most `steps` steps away.
  ghost predicate Near(g: Graph, root: Id, node: Id, steps: nat) {
    exists k: nat :: k <= steps && Reached(g, root, node, k)
  }

  ghost predicate Reachable(g: Graph, root: Id, node: Id) {
    exists k: nat :: Reached(g, root, node, k)
  }

  // `ids` holds the root and, with every node nearer than `steps`, its children.
  ghost predicate CoversNear(g: Graph, root: Id, steps: nat, ids: set<Id>) {
    && root in ids
    && (forall n, k: nat :: n in ids && k < steps && Reached(g, root, n, k) ==> forall c <- ChildrenOf(g, n) :: c in ids)
  }

  lemma {:induction false} NearIsCovered(g: Graph, root: Id, steps: nat, ids: set<Id>, node: Id, k: nat)
    requires CoversNear(g, root, steps, ids) && k <= steps && Reached(g, root, node, k)
    ensures node in ids
    decreases k
  {
    if k > 0 {
      var parent :| Reached(g, root, parent, k - 1) && node in ChildrenOf(g, parent);
      NearIsCovered(g, root, steps, ids, parent, k - 1);
    }
  }

  // The search answers rightly for `matches`: it finds something exactly when a match is
  // no more than `maxDepth` steps away.
  ghost predicate Decides(g: Graph, matches: Id -> bool, root: Id, maxNodes: nat, maxDepth: nat) {
    Search(g, matches, [Entry(root, 0)], {}, maxNodes, maxDepth).Some?
    <==> exists n :: Near(g, root, n, maxDepth) && matches(n)
  }

  lemma VisitedAreNear(g: Graph, root: Id, maxNodes: nat, maxDepth: nat)
    ensures forall n <- Visited(WalkFrom(g, root, maxNodes, maxDepth)) :: Near(g, root, n, maxDepth)
  {
    assert Reached(g, root, root, 0);
    WalkIsSound(g, root, root, 0, maxDepth, {}, maxNodes);
    hide Walk, Reached;
  }

  lemma SearchFindsVisited(g: Graph, matches: Id -> bool, root: Id, maxNodes: nat, maxDepth: nat)
    ensures Search(g, matches, [Entry(root, 0)], {}, maxNodes, maxDepth).Some?
       <==> exists n <- Visited(WalkFrom(g, root, maxNodes, maxDepth)) :: matches(n)
  {
    SearchIsDepthFirst(g, matches, root, maxNodes, maxDepth);
    FirstMatchFinds(WalkFrom(g, root, maxNodes, maxDepth), matches);
    hide Search, WalkFrom, FirstMatch, Visited;
  }

  lemma CoveringDecides(g: Graph, matches: Id -> bool, root: Id, maxNodes: nat, maxDepth: nat)
    requires CoversNear(g, root, maxDepth, Visited(WalkFrom(g, root, maxNodes, maxDepth)))
    ensures Decides(g, matches, root, maxNodes, maxDepth)
  {
    var ids := Visited(WalkFrom(g, root, maxNodes, maxDepth));
    SearchFindsVisited(g, matches, root, maxNodes, maxDepth);
    VisitedAreNear(g, root, maxNodes, maxDepth);
    hide Search, WalkFrom, CoversNear, Visited, Reached;
    forall n | Near(g, root, n, maxDepth)
      ensures n in ids
    {
      var k: nat :| k <= maxDepth && Reached(g, root, n, k);
      NearIsCovered(g, root, maxDepth, ids, n, k);
    }
  }

  // On any graph and under any limits: the search is right for every predicate exactly
  // when the walk visits the root and, with every visited node fewer than `maxDepth` steps
  // away, all its children.
  lemma DecidesExactlyWhenCovering(g: Graph, root: Id, maxNodes: nat, maxDepth: nat)
    ensures (forall matches: Id -> bool :: Decides(g, matches, root, maxNodes, maxDepth))
       <==> CoversNear(g, root, maxDepth, Visited(WalkFrom(g, root, maxNodes, maxDepth)))
  {
    var ids := Visited(WalkFrom(g, root, maxNodes, maxDepth));
    if CoversNear(g, root, maxDepth, ids) {
      forall matches: Id -> bool
        ensures Decides(g, matches, root, maxNodes, maxDepth)
      {
        CoveringDecides(g, matches, root, maxNodes, maxDepth);
      }
    } else {
      var missed := MissedNode(g, root, maxDepth, ids);
      var matches := (n: Id) => n == missed;
      SearchFindsVisited(g, matches, root, maxNodes, maxDepth);
      hide Search, WalkFrom, Visited, Near;
      assert matches(missed);
      assert !Decides(g, matches, root, maxNodes, maxDepth);
    }
  }

  lemma MissedNode(g: Graph, root: Id, steps: nat, ids: set<Id>) returns (missed: Id)
    requires !CoversNear(g, root, steps, ids)
    ensures Near(g, root, missed, steps) && missed !in ids
  {
    if root !in ids {
      missed := root;
      assert Reached(g, root, root, 0);
    } else {
      var n, k: nat, c :| n in ids && k < steps && Reached(g, root, n, k) && c in ChildrenOf(g, n) && c !in ids;
      ReachedNext(g, root, n, k, c);
      missed := c;
      assert k + 1 <= steps;
    }
  }

  // A node first met at the depth limit is really nearer, and a child of it was met nowhere.
  ghost predicate HidesChild(g: Graph, root: Id, e: Entry, maxDepth: nat, ids: set<Id>) {
    && e.depth == maxDepth
    && (exists k: nat :: k < maxDepth && Reached(g, root, e.node, k))
    && (exists c <- ChildrenOf(g, e.node) :: c !in ids)
  }

  lemma FollowedCovers(g: Graph, root: Id, walk: seq<Entry>, maxDepth: nat, ids: set<Id>)
    requires root in ids && ids == Visited(walk) && Followed(g, walk, maxDepth, ids) && Sound(g, root, walk, maxDepth)
    requires forall i :: 0 <= i < |walk| ==> !HidesChild(g, root, walk[i], maxDepth, ids)
    ensures CoversNear(g, root, maxDepth, ids)
  {
    hide Reached, ChildrenOf;
    forall n, k: nat, c | n in ids && k < maxDepth && Reached(g, root, n, k) && c in ChildrenOf(g, n)
      ensures c in ids
    {
      var i :| 0 <= i < |walk| && walk[i].node == n;
      assert !HidesChild(g, root, walk[i], maxDepth, ids);
    }
  }

  lemma CoveringHidesNone(g: Graph, root: Id, walk: seq<Entry>, maxDepth: nat, i: nat)
    requires CoversNear(g, root, maxDepth, Visited(walk)) && i < |walk|
    ensures !HidesChild(g, root, walk[i], maxDepth, Visited(walk))
  {
    hide Reached, ChildrenOf;
    assert walk[i].node in Visited(walk);
  }

  // And while visits are left over, the only way to miss a near node is the guard on the
  // depth.
  lemma OnlyTheDepthLimitHides(g: Graph, root: Id, maxNodes: nat, maxDepth: nat)
    requires |WalkFrom(g, root, maxNodes, maxDepth)| < maxNodes
    ensures var walk := WalkFrom(g, root, maxNodes, maxDepth);
            CoversNear(g, root, maxDepth, Visited(walk))
            <==> forall i :: 0 <= i < |walk| ==> !HidesChild(g, root, walk[i], maxDepth, Visited(walk))
  {
    var walk := WalkFrom(g, root, maxNodes, maxDepth);
    WalkFollows(g, root, 0, maxDepth, {}, maxNodes);
    assert {} + Visited(walk) == Visited(walk);
    assert Reached(g, root, root, 0);
    WalkIsSound(g, root, root, 0, maxDepth, {}, maxNodes);
    hide *;
    if CoversNear(g, root, maxDepth, Visited(walk)) {
      forall i | 0 <= i < |walk|
        ensures !HidesChild(g, root, walk[i], maxDepth, Visited(walk))
      {
        CoveringHidesNone(g, root, walk, maxDepth, i);
      }
    }
    if forall i :: 0 <= i < |walk| ==> !HidesChild(g, root, walk[i], maxDepth, Visited(walk)) {
      FollowedCovers(g, root, walk, maxDepth, Visited(walk));
    }
  }

  ghost predicate Closed(g: Graph, ids: set<Id>) {
    forall n, c :: n in ids && c in ChildrenOf(g, n) ==> c in ids
  }

  lemma {:induction false} ReachableIsInside(g: Graph, root: Id, ids: set<Id>, node: Id, k: nat)
    requires root in ids && Closed(g, ids) && Reached(g, root, node, k)
    ensures node in ids
    decreases k
  {
    if k > 0 {
      var parent :| Reached(g, root, parent, k - 1) && node in ChildrenOf(g, parent);
      ReachableIsInside(g, root, ids, parent, k - 1);
    }
  }

  // The search answers rightly for the whole graph, however far away a match is.
  ghost predicate DecidesAll(g: Graph, matches: Id -> bool, root: Id, maxNodes: nat, maxDepth: nat) {
    Search(g, matches, [Entry(root, 0)], {}, maxNodes, maxDepth) == None
    <==> forall n :: Reachable(g, root, n) ==> !matches(n)
  }

  lemma ClosedDecidesAll(g: Graph, matches: Id -> bool, root: Id, maxNodes: nat, maxDepth: nat)
    requires root in Visited(WalkFrom(g, root, maxNodes, maxDepth))
    requires Closed(g, Visited(WalkFrom(g, root, maxNodes, maxDepth)))
    ensures DecidesAll(g, matches, root, maxNodes, maxDepth)
  {
    var ids := Visited(WalkFrom(g, root, maxNodes, maxDepth));
    SearchFindsVisited(g, matches, root, maxNodes, maxDepth);
    VisitedAreNear(g, root, maxNodes, maxDepth);
    hide Search, WalkFrom, Visited, Reached, Closed;
    forall n | Reachable(g, root, n)
      ensures n in ids
    {
      var k: nat :| Reached(g, root, n, k);
      ReachableIsInside(g, root, ids, n, k);
    }
    forall n | n in ids
      ensures Reachable(g, root, n)
    {
      var k: nat :| k <= maxDepth && Reached(g, root, n, k);
    }
  }

  // The guard on the depth cuts off a child that is visited nowhere else.
  ghost predicate CutsOff(g: Graph, e: Entry, maxDepth: nat, ids: set<Id>) {
    e.depth >= maxDepth && exists c <- ChildrenOf(g, e.node) :: c !in ids
  }

  lemma FollowedIsClosed(g: Graph, walk: seq<Entry>, maxDepth: nat, ids: set<Id>)
    requires ids == Visited(walk) && Followed(g, walk, maxDepth, ids)
    requires forall i :: 0 <= i < |walk| ==> !CutsOff(g, walk[i], maxDepth, ids)
    ensures Closed(g, ids)
  {
    hide ChildrenOf;
    forall n, c | n in ids && c in ChildrenOf(g, n)
      ensures c in ids
    {
      var i :| 0 <= i < |walk| && walk[i].node == n;
      assert !CutsOff(g, walk[i], maxDepth, ids);
    }
  }

  // A predicate for a node that is visited nowhere, though it is a child of a visited one.
  lemma ChildIsReachable(g: Graph, root: Id, parent: Id, steps: nat, child: Id)
    requires Near(g, root, parent, steps) && child in ChildrenOf(g, parent)
    ensures Reachable(g, root, child)
  {
    hide Reached, ChildrenOf;
    var k: nat :| k <= steps && Reached(g, root, parent, k);
    ReachedNext(g, root, parent, k, child);
  }

  lemma UnvisitedIsMissed(g: Graph, root: Id, maxNodes: nat, maxDepth: nat, missed: Id)
    requires Reachable(g, root, missed) && missed !in Visited(WalkFrom(g, root, maxNodes, maxDepth))
    ensures !DecidesAll(g, n => n == missed, root, maxNodes, maxDepth)
  {
    hide Search, WalkFrom, Visited, Reachable;
    SearchFindsVisited(g, n => n == missed, root, maxNodes, maxDepth);
  }

  lemma CutOffIsMissed(g: Graph, root: Id, maxNodes: nat, maxDepth: nat, i: nat)
    requires i < |WalkFrom(g, root, maxNodes, maxDepth)|
    requires var walk := WalkFrom(g, root, maxNodes, maxDepth); CutsOff(g, walk[i], maxDepth, Visited(walk))
    ensures exists matches: Id -> bool :: !DecidesAll(g, matches, root, maxNodes, maxDepth)
  {
    var walk := WalkFrom(g, root, maxNodes, maxDepth);
    assert walk[i].node in Visited(walk);
    var c :| c in ChildrenOf(g, walk[i].node) && c !in Visited(walk);
    hide *;
    VisitedAreNear(g, root, maxNodes, maxDepth);
    ChildIsReachable(g, root, walk[i].node, maxDepth, c);
    UnvisitedIsMissed(g, root, maxNodes, maxDepth, c);
  }

  // While visits are left over: no match on the whole graph is missed, for any predicate,
  // exactly when the guard on the depth never cuts off a child visited nowhere else.
  lemma NothingIsCutOff(g: Graph, root: Id, maxNodes: nat, maxDepth: nat)
    requires |WalkFrom(g, root, maxNodes, maxDepth)| < maxNodes
    ensures var walk := WalkFrom(g, root, maxNodes, maxDepth);
            (forall matches: Id -> bool :: DecidesAll(g, matches, root, maxNodes, maxDepth))
            <==> forall i :: 0 <= i < |walk| ==> !CutsOff(g, walk[i], maxDepth, Visited(walk))
  {
    var walk := WalkFrom(g, root, maxNodes, maxDepth);
    WalkFollows(g, root, 0, maxDepth, {}, maxNodes);
    assert {} + Visited(walk) == Visited(walk);
    hide *;
    if i :| 0 <= i < |walk| && CutsOff(g, walk[i], maxDepth, Visited(walk)) {
      CutOffIsMissed(g, root, maxNodes, maxDepth, i);
    } else {
      FollowedIsClosed(g, walk, maxDepth, Visited(walk));
      forall matches: Id -> bool
        ensures DecidesAll(g, matches, root, maxNodes, maxDepth)
      {
        ClosedDecidesAll(g, matches, root, maxNodes, maxDepth);
      }
    }
  }

  lemma SubsetOfSameSize(a: set<Id>, b: set<Id>)
    requires a <= b && |b| <= |a|
    ensures a == b
  {
    if a != b {
      var x :| x in b && x !in a;
      assert a <= b - {x};
      SubsetSize(a, b - {x});
    }
  }

  lemma {:induction false} SubsetSize(a: set<Id>, b: set<Id>)
    requires a <= b
    ensures |a| <= |b|
    decreases a
  {
    if a != {} {
      var x :| x in a;
      SubsetSize(a - {x}, b - {x});
    }
  }

  lemma AllIsVisited(g: Graph, root: Id, maxNodes: nat, maxDepth: nat, nodes: set<Id>)
    requires root in nodes && Closed(g, nodes) && |nodes| <= maxNodes && |nodes| <= maxDepth + 1
    ensures root in Visited(WalkFrom(g, root, maxNodes, maxDepth))
    ensures Closed(g, Visited(WalkFrom(g, root, maxNodes, maxDepth)))
  {
    var walk := WalkFrom(g, root, maxNodes, maxDepth);
    var ids := Visited(walk);
    WalkIsFresh(g, root, 0, maxDepth, {}, maxNodes);
    WalkIsShallow(g, root, 0, maxDepth, {}, maxNodes);
    VisitedAreNear(g, root, maxNodes, maxDepth);
    forall n | n in ids
      ensures n in nodes
    {
      var k: nat :| k <= maxDepth && Reached(g, root, n, k);
      ReachableIsInside(g, root, nodes, n, k);
    }
    SubsetSize(ids, nodes);
    assert |nodes| > 0 by { SubsetSize({root}, nodes); }
    if |ids| == |nodes| {
      SubsetOfSameSize(ids, nodes);
    } else {
      WalkFollows(g, root, 0, maxDepth, {}, maxNodes);
      assert {} + ids == ids;
      hide Walk, WalkFrom, ChildrenOf, Reached;
      forall n, c | n in ids && c in ChildrenOf(g, n)
        ensures c in ids
      {
        var i :| 0 <= i < |walk| && walk[i].node == n;
        assert walk[i].depth < maxDepth;
      }
    }
  }

  // In particular when both limits admit as many nodes as can be reached at all.
  lemma LargeLimitsSuffice(g: Graph, matches: Id -> bool, root: Id, maxNodes: nat, maxDepth: nat, nodes: set<Id>)
    requires root in nodes && Closed(g, nodes) && |nodes| <= maxNodes && |nodes| <= maxDepth + 1
    ensures Search(g, matches, [Entry(root, 0)], {}, maxNodes, maxDepth) == None
       <==> forall n :: Reachable(g, root, n) ==> !matches(n)
  {
    AllIsVisited(g, root, maxNodes, maxDepth, nodes);
    ClosedDecidesAll(g, matches, root, maxNodes, maxDepth);
  }

  // ---------------------------------------------------------------------------
  // On a tree: the first match in preorder

  datatype Tree = Tree(id: Id, kids: seq<Tree>)

  // The identities in preorder, down to `depth` levels below.
  function Preorder(t: Tree, depth: nat): seq<Id>
    decreases t, 1
  {
    [t.id] + (if depth == 0 then [] else PreorderAll(t.kids, depth - 1))
  }

  function PreorderAll(kids: seq<Tree>, depth: nat): seq<Id>
    decreases kids, 0
  {
    if kids == [] then [] else Preorder(kids[0], depth) + PreorderAll(kids[1..], depth)
  }

  predicate Represents(g: Graph, t: Tree)
    decreases t
  {
    && |ChildrenOf(g, t.id)| == |t.kids|
    && (forall i :: 0 <= i < |t.kids| ==> ChildrenOf(g, t.id)[i] == t.kids[i].id && Represents(g, t.kids[i]))
  }

  predicate Distinct(ids: seq<Id>) {
    forall i, j :: 0 <= i < j < |ids| ==> ids[i] != ids[j]
  }

  // The first `n` of them, or all if there are fewer.
  function Take(ids: seq<Id>, n: nat): seq<Id> {
    if |ids| <= n then ids else ids[..n]
  }

  // None of the identities was seen before.
  ghost predicate Unseen(ids: seq<Id>, seen: set<Id>) {
    Distinct(ids) && forall i :: 0 <= i < |ids| ==> ids[i] !in seen
  }

  lemma UnseenParts(a: seq<Id>, b: seq<Id>, seen: set<Id>, walk: seq<Entry>, n: nat)
    requires Unseen(a + b, seen) && IdsOf(walk) == Take(a, n)
    ensures Unseen(a, seen) && Unseen(b, seen + Visited(walk))
  {
    var all := a + b;
    assert forall i :: 0 <= i < |a| ==> a[i] == all[i];
    assert forall i :: 0 <= i < |b| ==> b[i] == all[|a| + i];
    forall i, j | 0 <= i < |walk| && 0 <= j < |b|
      ensures walk[i].node != b[j]
    {
      assert IdsOf(walk)[i] == a[i] == all[i];
    }
  }

  lemma TakeBoth(a: seq<Id>, b: seq<Id>, n: nat)
    ensures Take(a + b, n) == Take(a, n) + Take(b, n - |Take(a, n)|)
  {
  }

  lemma PreorderUnfolds(g: Graph, t: Tree, depth: nat)
    requires Represents(g, t)
    ensures Preorder(t, depth) == [t.id] + (if depth == 0 then [] else PreorderAll(t.kids, depth - 1))
    ensures |ChildrenOf(g, t.id)| == |t.kids|
    ensures forall i :: 0 <= i < |t.kids| ==> ChildrenOf(g, t.id)[i] == t.kids[i].id && Represents(g, t.kids[i])
  {
  }

  lemma PreorderAllUnfolds(kids: seq<Tree>, depth: nat)
    requires kids != []
    ensures PreorderAll(kids, depth) == Preorder(kids[0], depth) + PreorderAll(kids[1..], depth)
  {
  }

  lemma NoTrees(depth: nat, budget: nat)
    ensures PreorderAll([], depth) == [] && Take([], budget) == [] && IdsOf([]) == []
  {
  }

  lemma TakeOne(id: Id, depth: nat, n: nat)
    ensures n > 0 ==> Take([id], n) == [id] == IdsOf([Entry(id, depth)])
    ensures forall ids :: Take(ids, 0) == []
  {
  }

  lemma UnseenStart(id: Id, ids: seq<Id>, seen: set<Id>)
    requires Unseen([id] + ids, seen)
    ensures id !in seen
  {
    assert ([id] + ids)[0] == id;
  }

  lemma {:induction false} WalkOnTree(g: Graph, t: Tree, depth: nat, maxDepth: nat, seen: set<Id>, budget: nat)
    requires Represents(g, t) && depth <= maxDepth && Unseen(Preorder(t, maxDepth - depth), seen)
    ensures IdsOf(Walk(g, t.id, depth, maxDepth, seen, budget)) == Take(Preorder(t, maxDepth - depth), budget)
    decreases t, 1
  {
    hide *;
    var top := Entry(t.id, depth);
    var kids := if depth == maxDepth then [] else PreorderAll(t.kids, maxDepth - depth - 1);
    PreorderUnfolds(g, t, maxDepth - depth);
    TakeOne(t.id, depth, budget);
    if budget == 0 {
      WalkOfSeen(g, top, maxDepth, seen, budget);
    } else {
      UnseenStart(t.id, kids, seen);
      WalkOfNew(g, top, maxDepth, seen, budget);
      VisitedOne(top);
      UnseenParts([t.id], kids, seen, [top], budget);
      TakeBoth([t.id], kids, budget);
      if depth < maxDepth {
        WalkOnTrees(g, t.kids, ChildrenOf(g, t.id), depth + 1, maxDepth, seen + {t.id}, budget - 1);
        IdsOfBoth([top], WalkAll(g, ChildrenOf(g, t.id), depth + 1, maxDepth, seen + {t.id}, budget - 1));
      } else {
        NoTrees(depth, budget - 1);
        assert [top] + [] == [top] && [t.id] + [] == [t.id];
      }
    }
  }

  lemma {:induction false} WalkOnTrees(g: Graph, kids: seq<Tree>, ids: seq<Id>, depth: nat, maxDepth: nat, seen: set<Id>,
                                       budget: nat)
    requires |ids| == |kids| && forall i :: 0 <= i < |kids| ==> ids[i] == kids[i].id && Represents(g, kids[i])
    requires depth <= maxDepth && Unseen(PreorderAll(kids, maxDepth - depth), seen)
    ensures IdsOf(WalkAll(g, ids, depth, maxDepth, seen, budget)) == Take(PreorderAll(kids, maxDepth - depth), budget)
    decreases kids, 0
  {
    hide *;
    if kids == [] {
      NoNodes(g, depth, maxDepth, seen, budget);
      NoTrees(maxDepth - depth, budget);
    } else {
      var one, more := Preorder(kids[0], maxDepth - depth), PreorderAll(kids[1..], maxDepth - depth);
      PreorderAllUnfolds(kids, maxDepth - depth);
      TakeBoth(one, more, budget);
      TakeNone(one);
      UnseenParts(one, more, seen, [], 0);
      WalkOnTree(g, kids[0], depth, maxDepth, seen, budget);
      var first := Walk(g, ids[0], depth, maxDepth, seen, budget);
      UnseenParts(one, more, seen, first, budget);
      WalkAllUnfolds(g, ids, depth, maxDepth, seen, budget);
      WalkOnTrees(g, kids[1..], ids[1..], depth, maxDepth, seen + Visited(first), budget - |first|);
      IdsOfBoth(first, WalkAll(g, ids[1..], depth, maxDepth, seen + Visited(first), budget - |first|));
    }
  }

  lemma TakeNone(ids: seq<Id>)
    ensures IdsOf([]) == Take(ids, 0)
  {
  }

  // On a tree of distinct objects the search finds the first match among the first
  // `maxNodes` nodes, in preorder, of those no deeper than `maxDepth`.
  lemma SearchRefinesPreorder(g: Graph, matches: Id -> bool, t: Tree, maxNodes: nat, maxDepth: nat)
    requires Represents(g, t) && Distinct(Preorder(t, maxDepth))
    ensures Search(g, matches, [Entry(t.id, 0)], {}, maxNodes, maxDepth)
         == FirstMatch(Take(Preorder(t, maxDepth), maxNodes), matches)
  {
    WalkOnTree(g, t, 0, maxDepth, {}, maxNodes);
    SearchIsDepthFirst(g, matches, t.id, maxNodes, maxDepth);
  }

  // Where objects are shared the depth limit can hide a match: one two steps away is
  // missed when its parent is first met at the limit.
  lemma SharedNodeHidesMatch(g: Graph, matches: Id -> bool)
    requires g == map[0 := [1, 2], 1 := [2], 2 := [3]]
    requires matches(3) && !matches(0) && !matches(1) && !matches(2)
    ensures Reached(g, 0, 3, 2) && Search(g, matches, [Entry(0, 0)], {}, 1200, 2) == None
  {
    hide *;
    SharedChildren(g);
    ReachedAtOnce(g, 0);
    ReachedNext(g, 0, 0, 0, 2);
    ReachedNext(g, 0, 2, 1, 3);
    var s0, s1, s2 := [Entry(0, 0)], [Entry(2, 1), Entry(1, 1)], [Entry(2, 1), Entry(2, 2)];
    PushCases(g, s0, 2);
    PushCases(g, s1, 2);
    PushCases(g, s2, 2);
    ReversedTwo(1, 2, 1);
    ReversedOne(2, 2);
    assert Push(g, s0, 2) == s1 && Push(g, s1, 2) == s2 && Push(g, s2, 2) == [Entry(2, 1)];
    SearchStep(g, matches, s0, {}, 1200, 2);
    SearchStep(g, matches, s1, {} + {0}, 1199, 2);
    SearchStep(g, matches, s2, {} + {0} + {1}, 1198, 2);
    SearchStep(g, matches, [Entry(2, 1)], {} + {0} + {1} + {2}, 1197, 2);
    assert [Entry(2, 1)][..0] == [];
    SearchOver(g, matches, [], {} + {0} + {1} + {2}, 1197, 2);
  }

  lemma SharedChildren(g: Graph)
    requires g == map[0 := [1, 2], 1 := [2], 2 := [3]]
    ensures ChildrenOf(g, 0) == [1, 2] && ChildrenOf(g, 1) == [2] && ChildrenOf(g, 2) == [3]
  {
  }

  lemma ReachedAtOnce(g: Graph, root: Id)
    ensures Reached(g, root, root, 0)
  {
  }

  lemma ReversedOne(a: Id, depth: nat)
    ensures Reversed([a], depth) == [Entry(a, depth)]
  {
    ReversedAt([a], depth);
  }

  lemma ReversedTwo(a: Id, b: Id, depth: nat)
    ensures Reversed([a, b], depth) == [Entry(b, depth), Entry(a, depth)]
  {
    ReversedAt([a, b], depth);
    hide Reversed;
  }
}
