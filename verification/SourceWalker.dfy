/**
 * The iterative depth-first walk that collects the sources of a target: cycles
 * are allowed, no node is returned twice, children come before parents.
 */
module SourceWalker {
  import opened Wrappers

  type Node = nat
  type Graph = Node -> seq<Node>

  /** A walk along child links. */
  predicate IsPath(children: Graph, p: seq<Node>)
  {
    p != [] && forall i :: 0 <= i < |p| - 1 ==> p[i + 1] in children(p[i])
  }

  /** A path from the root that enters no node of `skip` after leaving it. */
  predicate FreshPath(children: Graph, root: Node, skip: set<Node>, p: seq<Node>)
  {
    IsPath(children, p) && p[0] == root && forall i :: 1 <= i < |p| ==> p[i] !in skip
  }

  ghost predicate Reachable(children: Graph, root: Node, skip: set<Node>, n: Node)
  {
    exists p :: FreshPath(children, root, skip, p) && p[|p| - 1] == n
  }

  /** All children of members stay in the set. */
  ghost predicate Closed(children: Graph, nodes: set<Node>)
  {
    forall n, c :: n in nodes && c in children(n) ==> c in nodes
  }

  predicate Distinct(s: seq<Node>)
  {
    forall i, j :: 0 <= i < j < |s| ==> s[i] != s[j]
  }

  lemma {:induction false} DistinctFits(s: seq<Node>, nodes: set<Node>)
    requires Distinct(s) && forall i :: 0 <= i < |s| ==> s[i] in nodes
    ensures |s| <= |nodes|
  {
    if s != [] {
      var last := |s| - 1;
      DistinctFits(s[..last], nodes - {s[last]});
    }
  }

  /** Children still to be examined below the nodes of the stack. */
  function Remaining(stack: seq<Node>, kids: map<Node, seq<Node>>): nat
  {
    if stack == [] then 0
    else Remaining(stack[1..], kids) + if stack[0] in kids then |kids[stack[0]]| else 0
  }

  lemma {:induction false} RemainingUpdate(stack: seq<Node>, kids: map<Node, seq<Node>>, n: Node, rest: seq<Node>)
    requires Distinct(stack) && n in kids
    ensures n !in stack ==> Remaining(stack, kids[n := rest]) == Remaining(stack, kids)
    ensures n in stack ==> Remaining(stack, kids[n := rest]) == Remaining(stack, kids) - |kids[n]| + |rest|
  {
    if stack != [] {
      RemainingUpdate(stack[1..], kids, n, rest);
      if stack[0] == n { assert n !in stack[1..]; }
    }
  }

  // ------------------------------------------------------------ the walk on values

  /** What a walk is about: the graph, its start, the nodes seen beforehand, and
      a finite set that holds all there is to find. */
  datatype Task = Task(children: Graph, root: Node, skip: set<Node>, nodes: set<Node>)

  /** The walker's fields, with the nodes returned so far. */
  datatype Walk = Walk(stack: seq<Node>, kids: map<Node, seq<Node>>, history: set<Node>, seen: set<Node>,
                       returned: seq<Node>)

  function Top(w: Walk): Node
    requires w.stack != []
  {
    w.stack[|w.stack| - 1]
  }

  ghost predicate ClosedUnder(g: Task) { Closed(g.children, g.nodes) }

  /** What is left of a node's list is its end, and the rest was dealt with. */
  ghost predicate Examined(g: Task, w: Walk, n: Node)
  {
    && n in w.kids && |w.kids[n]| <= |g.children(n)|
    && w.kids[n] == g.children(n)[|g.children(n)| - |w.kids[n]|..]
    && forall k :: 0 <= k < |g.children(n)| - |w.kids[n]| ==>
         g.children(n)[k] in w.seen || g.children(n)[k] in w.history
  }

  /** The stack is a fresh path, and every child taken off a node's list is on
      it or has been seen. */
  ghost predicate StackOk(g: Task, w: Walk)
  {
    && (w.stack != [] ==> FreshPath(g.children, g.root, g.skip, w.stack))
    && Distinct(w.stack) && (forall n :: n in w.history <==> n in w.stack)
    && (forall i :: 0 <= i < |w.stack| ==> w.stack[i] in g.nodes && w.stack[i] !in w.returned)
    && (forall i :: 0 <= i < |w.stack| ==> Examined(g, w, w.stack[i]))
  }

  ghost predicate ReturnedOk(g: Task, w: Walk)
  {
    && Distinct(w.returned)
    && (forall n :: n in w.seen <==> n in g.skip || n in w.returned)
    && (forall i :: 0 <= i < |w.returned| ==>
          w.returned[i] in g.nodes && Reachable(g.children, g.root, g.skip, w.returned[i]))
    && (forall i, c :: 0 <= i < |w.returned| && c in g.children(w.returned[i]) ==> c in w.seen || c in w.history)
    && (w.stack == [] ==> g.root in w.returned)
  }

  ghost predicate WalkOk(g: Task, w: Walk)
  {
    g.root in g.nodes && ClosedUnder(g) && StackOk(g, w) && ReturnedOk(g, w)
  }

  /** Taking the first unexamined child of the top node off its list. */
  function Popped(w: Walk): Walk
    requires w.stack != [] && Top(w) in w.kids && w.kids[Top(w)] != []
  {
    w.(kids := w.kids[Top(w) := w.kids[Top(w)][1..]])
  }

  /** Going down into a node neither on the stack nor seen. */
  function Pushed(g: Task, w: Walk, n: Node): Walk
  {
    w.(kids := w.kids[n := g.children(n)], stack := w.stack + [n], history := w.history + {n})
  }

  /** Coming back from the top node. */
  function Left(w: Walk): Walk
    requires w.stack != []
  {
    var n := Top(w);
    w.(stack := w.stack[..|w.stack| - 1], history := w.history - {n}, seen := w.seen + {n},
       returned := w.returned + [n])
  }

  lemma PushedOk(g: Task, w: Walk, n: Node)
    requires WalkOk(g, w) && w.stack != [] && n in g.children(Top(w)) && n !in w.history && n !in w.seen
    ensures WalkOk(g, Pushed(g, w, n))
    ensures g.nodes - Pushed(g, w, n).history - w.seen == (g.nodes - w.history - w.seen) - {n}
  {
    hide StackOk, ReturnedOk;
    assert n in g.nodes by { TopExamined(g, w); }
    PushedReturned(g, w, n);
    PushedStack(g, w, n);
  }

  lemma PushedStack(g: Task, w: Walk, n: Node)
    requires StackOk(g, w) && w.stack != [] && n in g.children(Top(w)) && n !in w.history && n in g.nodes
    requires n !in w.seen && n !in w.returned && n !in g.skip
    ensures StackOk(g, Pushed(g, w, n))
  {
    hide Examined, FreshPath;
    var u := Pushed(g, w, n);
    PushedPath(g, w, n);
    forall i | 0 <= i < |u.stack| ensures Examined(g, u, u.stack[i]) {
      if i < |w.stack| {
        assert Examined(g, w, w.stack[i]);
        OthersExamined(g, w, n, w.stack[i]);
      } else {
        NewExamined(g, w, n);
      }
    }
  }

  lemma PushedPath(g: Task, w: Walk, n: Node)
    requires w.stack != [] && FreshPath(g.children, g.root, g.skip, w.stack)
    requires n in g.children(Top(w)) && n !in g.skip
    ensures FreshPath(g.children, g.root, g.skip, w.stack + [n])
  {
  }

  lemma OthersExamined(g: Task, w: Walk, n: Node, m: Node)
    requires Examined(g, w, m) && m != n
    ensures Examined(g, Pushed(g, w, n), m)
  {
  }

  lemma NewExamined(g: Task, w: Walk, n: Node)
    ensures Examined(g, Pushed(g, w, n), n)
  {
  }

  lemma PushedReturned(g: Task, w: Walk, n: Node)
    requires ReturnedOk(g, w) && w.stack != []
    ensures ReturnedOk(g, Pushed(g, w, n))
    ensures forall m :: m !in w.seen ==> m !in w.returned && m !in g.skip
  {
    hide Reachable;
  }

  /** A popped child is dealt with when it is on the stack or seen. */
  lemma PoppedOk(g: Task, w: Walk)
    requires WalkOk(g, w) && w.stack != [] && Top(w) in w.kids && w.kids[Top(w)] != []
    requires w.kids[Top(w)][0] in w.history || w.kids[Top(w)][0] in w.seen
    ensures WalkOk(g, Popped(w)) && w.kids[Top(w)][0] in g.children(Top(w))
  {
    hide Reachable;
    var u := Popped(w);
    assert Examined(g, w, Top(w));
    forall i | 0 <= i < |u.stack| ensures Examined(g, u, u.stack[i]) {
      assert Examined(g, w, w.stack[i]);
    }
  }

  lemma PoppedThenPushedOk(g: Task, w: Walk, n: Node)
    requires WalkOk(g, w) && w.stack != [] && Top(w) in w.kids && w.kids[Top(w)] != [] && n == w.kids[Top(w)][0]
    requires n !in w.history && n !in w.seen
    ensures WalkOk(g, Pushed(g, Popped(w), n))
    ensures g.nodes - Pushed(g, Popped(w), n).history - w.seen == (g.nodes - w.history - w.seen) - {n} && n in g.nodes
  {
    hide Reachable, StackOk, ReturnedOk;
    TopExamined(g, w);
    PushedOk(g, w, n);
    var u := Pushed(g, w, n);
    PopBelow(g, u, Top(w));
    assert Pushed(g, Popped(w), n) == u.(kids := u.kids[Top(w) := u.kids[Top(w)][1..]]) by { PushPop(g, w, n); }
  }

  lemma PushPop(g: Task, w: Walk, n: Node)
    requires WalkOk(g, w) && w.stack != [] && Top(w) in w.kids && w.kids[Top(w)] != [] && n !in w.history
    ensures n != Top(w)
    ensures Pushed(g, Popped(w), n)
         == Pushed(g, w, n).(kids := Pushed(g, w, n).kids[Top(w) := w.kids[Top(w)][1..]])
  {
    assert w.kids[Top(w) := w.kids[Top(w)][1..]][n := g.children(n)]
        == w.kids[n := g.children(n)][Top(w) := w.kids[Top(w)][1..]];
  }

  lemma TopExamined(g: Task, w: Walk)
    requires WalkOk(g, w) && w.stack != []
    ensures Examined(g, w, Top(w)) && Top(w) in w.kids && Top(w) in g.nodes
    ensures w.kids[Top(w)] != [] ==> w.kids[Top(w)][0] in g.children(Top(w))
  {
    assert Examined(g, w, w.stack[|w.stack| - 1]);
  }

  /** Dropping a dealt-with child from the list of any node on the stack. */
  lemma PopBelow(g: Task, w: Walk, t: Node)
    requires WalkOk(g, w) && t in w.stack && t in w.kids && w.kids[t] != []
    requires w.kids[t][0] in w.history || w.kids[t][0] in w.seen
    ensures WalkOk(g, w.(kids := w.kids[t := w.kids[t][1..]]))
  {
    hide Reachable, Examined, FreshPath, ClosedUnder;
    var u := w.(kids := w.kids[t := w.kids[t][1..]]);
    forall i | 0 <= i < |u.stack| ensures Examined(g, u, u.stack[i]) {
      assert Examined(g, w, w.stack[i]);
      StillExamined(g, w, t, w.stack[i]);
    }
  }

  lemma StillExamined(g: Task, w: Walk, t: Node, n: Node)
    requires t in w.kids && w.kids[t] != [] && (w.kids[t][0] in w.history || w.kids[t][0] in w.seen)
    requires Examined(g, w, n)
    ensures Examined(g, w.(kids := w.kids[t := w.kids[t][1..]]), n)
  {
  }

  lemma LeftOk(g: Task, w: Walk)
    requires WalkOk(g, w) && w.stack != [] && Top(w) in w.kids && w.kids[Top(w)] == []
    ensures WalkOk(g, Left(w))
    ensures forall c :: c in g.children(Top(w)) ==> c in Left(w).seen || c in Left(w).stack
  {
    hide Reachable;
    LeftStack(g, w);
    LeftReturned(g, w);
  }

  lemma LeftStack(g: Task, w: Walk)
    requires WalkOk(g, w) && w.stack != []
    ensures StackOk(g, Left(w))
  {
    hide Reachable;
    var u := Left(w);
    forall i | 0 <= i < |u.stack| ensures Examined(g, u, u.stack[i]) {
      assert Examined(g, w, w.stack[i]);
    }
  }

  lemma LeftReturned(g: Task, w: Walk)
    requires WalkOk(g, w) && w.stack != [] && Top(w) in w.kids && w.kids[Top(w)] == []
    ensures ReturnedOk(g, Left(w))
    ensures forall c :: c in g.children(Top(w)) ==> c in Left(w).seen || c in Left(w).history
  {
    assert FreshPath(g.children, g.root, g.skip, w.stack) && Reachable(g.children, g.root, g.skip, Top(w));
    assert Examined(g, w, w.stack[|w.stack| - 1]);
  }

  /** A finished walk has returned exactly the reachable nodes. */
  lemma Complete(g: Task, w: Walk, n: Node)
    requires WalkOk(g, w) && w.stack == []
    ensures n in w.returned <==> Reachable(g.children, g.root, g.skip, n)
  {
    if Reachable(g.children, g.root, g.skip, n) {
      var p :| FreshPath(g.children, g.root, g.skip, p) && p[|p| - 1] == n;
      PathReturned(g, w, p, |p| - 1);
    }
  }

  lemma {:induction false} PathReturned(g: Task, w: Walk, p: seq<Node>, i: nat)
    requires WalkOk(g, w) && w.stack == [] && FreshPath(g.children, g.root, g.skip, p) && i < |p|
    ensures p[i] in w.returned
    decreases i
  {
    hide Reachable;
    if i > 0 {
      PathReturned(g, w, p, i - 1);
      var k :| 0 <= k < |w.returned| && w.returned[k] == p[i - 1];
      assert p[i - 1 + 1] in g.children(p[i - 1]);
      assert p[i] in w.seen;
    }
  }

  // ------------------------------------------------------------------- the walker

  class Walker {
    const children: Graph
    var stack: seq<Node>
    var kids: map<Node, seq<Node>>
    var history: set<Node>
    var seen: set<Node>
    var nodesExamined: nat
    var uniqueNodes: nat
    ghost const task: Task
    ghost var returned: seq<Node>

    ghost function Abs(): Walk
      reads this
    {
      Walk(stack, kids, history, seen, returned)
    }

    ghost predicate Valid()
      reads this
    {
      WalkOk(task, Abs()) && task.children == children && uniqueNodes == |returned| + 1
    }

    constructor (node: Node, seen: set<Node>, children: Graph, ghost nodes: set<Node>)
      requires node in nodes && Closed(children, nodes)
      ensures Valid() && task == Task(children, node, seen, nodes)
      ensures returned == [] && stack == [node]
    {
      this.children := children;
      task := Task(children, node, seen, nodes);
      stack := [node];
      kids := map[node := children(node)];
      this.seen := seen;
      history := {node};
      nodesExamined, uniqueNodes := 1, 1;
      returned := [];
    }

    /** Next: the next node of the walk, or nothing when it is over.  A child of
        the returned node has been seen or is still on the stack. */
    method Next() returns (r: Option<Node>)
      requires Valid()
      modifies this
      ensures Valid()
      ensures r.None? ==> stack == [] && returned == old(returned)
      ensures r.Some? ==> returned == old(returned) + [r.value]
      ensures r.Some? ==> forall c :: c in children(r.value) ==> c in seen || c in stack
    {
      hide StackOk, ReturnedOk, Remaining;
      while stack != []
        invariant Valid() && returned == old(returned)
        decreases |task.nodes - history - seen|, Remaining(stack, kids)
      {
        TopExamined(task, Abs());
        var top := stack[|stack| - 1];
        if kids[top] != [] {
          TakeChild();
        } else {
          Leave();
          return Some(top);
        }
      }
      r := None;
    }

    /** Coming back from the top node, whose children are all examined. */
    method Leave()
      requires Valid() && stack != [] && stack[|stack| - 1] in kids && kids[stack[|stack| - 1]] == []
      modifies this
      ensures Valid() && Abs() == Left(old(Abs()))
      ensures returned == old(returned) + [old(stack[|stack| - 1])]
      ensures forall c :: c in children(old(stack[|stack| - 1])) ==> c in seen || c in stack
    {
      hide StackOk, ReturnedOk, WalkOk;
      LeftOk(task, Abs());
      var top := stack[|stack| - 1];
      stack := stack[..|stack| - 1];
      history := history - {top};
      seen := seen + {top};
      uniqueNodes := uniqueNodes + 1;
      returned := returned + [top];
    }

    /** Examining one more child of the top node. */
    method TakeChild()
      requires Valid() && stack != [] && stack[|stack| - 1] in kids && kids[stack[|stack| - 1]] != []
      modifies this
      ensures Valid() && returned == old(returned)
      ensures |task.nodes - history - seen| < old(|task.nodes - history - seen|)
        || (task.nodes - history - seen == old(task.nodes - history - seen)
            && Remaining(stack, kids) < old(Remaining(stack, kids)))
    {
      hide StackOk, ReturnedOk, Remaining;
      ghost var w := Abs();
      var top := stack[|stack| - 1];
      var node := kids[top][0];
      StackDistinct(task, w);
      RemainingUpdate(stack, kids, top, kids[top][1..]);
      kids := kids[top := kids[top][1..]];
      nodesExamined := nodesExamined + 1;
      if node !in history && node !in seen {
        PoppedThenPushedOk(task, w, node);
        kids := kids[node := children(node)];
        stack := stack + [node];
        history := history + {node};
      } else {
        PoppedOk(task, w);
      }
    }

    /** WalkAll: returns every node reachable from the root without passing
        through an already seen one, each exactly once, and no others. */
    method WalkAll()
      requires Valid()
      modifies this
      ensures Valid() && stack == [] && Distinct(returned)
      ensures forall n :: n in returned <==> Reachable(children, task.root, task.skip, n)
    {
      hide Reachable, StackOk, ReturnedOk;
      var more := true;
      while more
        invariant Valid() && (!more ==> stack == [])
        decreases |task.nodes| - |returned|, more
      {
        var r := Next();
        more := r.Some?;
        ReturnedFits(task, Abs());
      }
      ReturnedFits(task, Abs());
      forall n ensures n in returned <==> Reachable(children, task.root, task.skip, n) {
        Complete(task, Abs(), n);
      }
    }
  }

  lemma StackDistinct(g: Task, w: Walk)
    requires WalkOk(g, w)
    ensures Distinct(w.stack)
  {
  }

  lemma ReturnedFits(g: Task, w: Walk)
    requires WalkOk(g, w)
    ensures Distinct(w.returned) && |w.returned| <= |g.nodes|
  {
    hide Reachable;
    DistinctFits(w.returned, g.nodes);
  }

  /** With nothing seen beforehand, fresh paths are all paths. */
  lemma NothingSkipped(children: Graph, root: Node, n: Node)
    ensures Reachable(children, root, {}, n)
       <==> exists p :: IsPath(children, p) && p[0] == root && p[|p| - 1] == n
  {
    if Reachable(children, root, {}, n) {
      var p :| FreshPath(children, root, {}, p) && p[|p| - 1] == n;
      assert IsPath(children, p);
    }
    if p :| IsPath(children, p) && p[0] == root && p[|p| - 1] == n {
      assert FreshPath(children, root, {}, p);
    }
  }
}
