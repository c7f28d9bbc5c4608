/**
 * Whole runs of the scheduler: every function runs exactly once and in order,
 * runs end, and a run gets stuck exactly on a dependency cycle.
 */
module DeferRuns {
  import opened Wrappers
  import opened Defer

  // ------------------------------------------------------------ exactly once

  /** The functions of group `n` called during a run, in order. */
  function Called(gs: Groups, picks: seq<Name>, n: Name): seq<Func>
    requires Legal(gs, picks)
    decreases |picks|
  {
    if picks == [] then []
    else (if picks[0] == n then gs[n].funcs else []) + Called(RunGroup(gs, picks[0]), picks[1..], n)
  }

  /** The functions registered for group `n` during a run, in order. */
  function RegisteredDuring(gs: Groups, picks: seq<Name>, n: Name): seq<Func>
    requires Legal(gs, picks)
    decreases |picks|
  {
    if picks == [] then []
    else FuncsFor(Registrations(gs[picks[0]].funcs), n) + RegisteredDuring(RunGroup(gs, picks[0]), picks[1..], n)
  }

  lemma RunGroupFuncs(gs: Groups, p: Name, n: Name)
    requires p in gs
    ensures GroupOf(RunGroup(gs, p), n).funcs
         == (if p == n then [] else GroupOf(gs, n).funcs) + FuncsFor(Registrations(gs[p].funcs), n)
  {
    RegisterAllFuncs(gs - {p}, Some(p), Registrations(gs[p].funcs), n);
  }

  /** What was called and what is still pending are exactly what was there and
      what was registered, group by group and in order. */
  lemma {:induction false} CalledExactlyOnce(gs: Groups, picks: seq<Name>, n: Name)
    requires Legal(gs, picks)
    ensures Called(gs, picks, n) + GroupOf(After(gs, picks), n).funcs
         == GroupOf(gs, n).funcs + RegisteredDuring(gs, picks, n)
    decreases |picks|
  {
    hide RunGroup, Registrations, FuncsFor;
    if picks == [] {
      assert [] + GroupOf(gs, n).funcs == GroupOf(gs, n).funcs + [];
    } else {
      var p := picks[0];
      var gs', rest := RunGroup(gs, p), picks[1..];
      RunGroupFuncs(gs, p, n);
      CalledExactlyOnce(gs', rest, n);
      var now := if p == n then gs[n].funcs else [];
      var left := if p == n then [] else GroupOf(gs, n).funcs;
      var new_ := FuncsFor(Registrations(gs[p].funcs), n);
      assert now + left == GroupOf(gs, n).funcs;
      Reassociate(now, Called(gs', rest, n), GroupOf(After(gs', rest), n).funcs, left, new_,
                  RegisteredDuring(gs', rest, n));
    }
  }

  lemma Reassociate(now: seq<Func>, called: seq<Func>, pending: seq<Func>, left: seq<Func>, fresh_: seq<Func>, later: seq<Func>)
    requires called + pending == (left + fresh_) + later
    ensures (now + called) + pending == (now + left) + (fresh_ + later)
  {
    assert (now + called) + pending == now + (called + pending);
    assert now + ((left + fresh_) + later) == (now + left) + (fresh_ + later);
  }

  // ------------------------------------------------------------- runs are finite

  function FuncWeight(f: Func): nat
    decreases f
  {
    1 + BodyWeight(f.body)
  }

  function RegWeight(r: Registration): nat
    decreases r
  {
    1 + if r.func.Some? then FuncWeight(r.func.value) else 0
  }

  function BodyWeight(rs: seq<Registration>): nat
    decreases rs
  {
    if rs == [] then 0 else RegWeight(rs[0]) + BodyWeight(rs[1..])
  }

  function FuncsWeight(fs: seq<Func>): nat
  {
    if fs == [] then 0 else FuncWeight(fs[0]) + FuncsWeight(fs[1..])
  }

  /** `order` lists the pending groups, each once. */
  ghost predicate Lists(order: seq<Name>, gs: Groups)
  {
    && (forall i :: 0 <= i < |order| ==> order[i] in gs)
    && (forall n :: n in gs ==> n in order)
    && (forall i, j :: 0 <= i < j < |order| ==> order[i] != order[j])
  }

  function Weight(order: seq<Name>, gs: Groups): nat
  {
    if order == [] then 0 else 1 + FuncsWeight(GroupOf(gs, order[0]).funcs) + Weight(order[1..], gs)
  }

  lemma {:induction false} WeightSame(order: seq<Name>, gs: Groups, gs': Groups)
    requires forall i :: 0 <= i < |order| ==> GroupOf(gs, order[i]).funcs == GroupOf(gs', order[i]).funcs
    ensures Weight(order, gs) == Weight(order, gs')
  {
    if order != [] { WeightSame(order[1..], gs, gs'); }
  }

  lemma {:induction false} WeightSplit(a: seq<Name>, b: seq<Name>, gs: Groups)
    ensures Weight(a + b, gs) == Weight(a, gs) + Weight(b, gs)
  {
    if a == [] {
      assert a + b == b;
    } else {
      assert (a + b)[1..] == a[1..] + b;
      WeightSplit(a[1..], b, gs);
    }
  }

  lemma {:induction false} FuncsWeightSplit(a: seq<Func>, b: seq<Func>)
    ensures FuncsWeight(a + b) == FuncsWeight(a) + FuncsWeight(b)
  {
    if a == [] {
      assert a + b == b;
    } else {
      assert (a + b)[1..] == a[1..] + b;
      FuncsWeightSplit(a[1..], b);
    }
  }

  lemma {:induction false} BodyWeightSplit(a: seq<Registration>, b: seq<Registration>)
    ensures BodyWeight(a + b) == BodyWeight(a) + BodyWeight(b)
  {
    if a == [] {
      assert a + b == b;
    } else {
      assert (a + b)[1..] == a[1..] + b;
      BodyWeightSplit(a[1..], b);
    }
  }

  /** The registrations of functions weigh less than the functions. */
  lemma {:induction false} RegistrationsWeigh(fs: seq<Func>)
    ensures BodyWeight(Registrations(fs)) <= FuncsWeight(fs)
  {
    if fs != [] {
      BodyWeightSplit(fs[0].body, Registrations(fs[1..]));
      RegistrationsWeigh(fs[1..]);
    }
  }

  /** The groups after `n` was started or filled: its place is `i`. */
  lemma PlaceOf(order: seq<Name>, gs: Groups, n: Name) returns (i: nat)
    requires Lists(order, gs) && n in gs
    ensures i < |order| && order[i] == n
  {
    i :| 0 <= i < |order| && order[i] == n;
  }

  /** Weight with one place singled out. */
  lemma WeightAt(order: seq<Name>, gs: Groups, i: nat)
    requires i < |order|
    ensures Weight(order, gs)
         == Weight(order[..i], gs) + 1 + FuncsWeight(GroupOf(gs, order[i]).funcs) + Weight(order[i + 1..], gs)
  {
    assert order == order[..i] + order[i..];
    WeightSplit(order[..i], order[i..], gs);
  }

  /** The groups hold what they held, and group `n` also these functions. */
  ghost predicate Gained(gs: Groups, gs': Groups, n: Name, fs: seq<Func>)
  {
    && gs'.Keys == gs.Keys + {n}
    && forall m :: GroupOf(gs', m).funcs == GroupOf(gs, m).funcs + if n == m then fs else []
  }

  lemma GainOld(order: seq<Name>, gs: Groups, gs': Groups, n: Name, fs: seq<Func>)
    requires Lists(order, gs) && n in gs && Gained(gs, gs', n, fs)
    ensures Weight(order, gs') == Weight(order, gs) + FuncsWeight(fs)
  {
    hide Weight, FuncsWeight, GroupOf;
    var i := PlaceOf(order, gs, n);
    WeightAt(order, gs, i);
    WeightAt(order, gs', i);
    assert forall k :: 0 <= k < |order| && k != i ==> order[k] != n;
    assert forall k :: 0 <= k < |order| && k != i ==> GroupOf(gs', order[k]).funcs == GroupOf(gs, order[k]).funcs + [];
    WeightSame(order[..i], gs, gs');
    WeightSame(order[i + 1..], gs, gs');
    FuncsWeightSplit(GroupOf(gs, n).funcs, fs);
  }

  lemma GainNew(order: seq<Name>, gs: Groups, gs': Groups, n: Name, fs: seq<Func>)
    requires Lists(order, gs) && n !in gs && Gained(gs, gs', n, fs)
    ensures Lists(order + [n], gs')
    ensures Weight(order + [n], gs') == Weight(order, gs) + 1 + FuncsWeight(fs)
  {
    hide FuncsWeight;
    WeightSplit(order, [n], gs');
    WeightSame(order, gs, gs');
    assert GroupOf(gs', n).funcs == [] + fs == fs;
    assert Weight([n], gs') == 1 + FuncsWeight(fs) + Weight([], gs');
    forall m | m in gs' ensures m in order + [n] { assert m in gs || m == n; }
  }

  lemma RegisterWeight(order: seq<Name>, gs: Groups, context: Option<Name>, r: Registration) returns (order': seq<Name>)
    requires Lists(order, gs)
    ensures Lists(order', Register(gs, context, r))
    ensures Weight(order', Register(gs, context, r)) <= Weight(order, gs) + RegWeight(r)
  {
    hide Register, NameOf, FuncWeight, GroupOf, Weight;
    var n, gs' := NameOf(r), Register(gs, context, r);
    assert FuncsWeight(FuncsIn(r)) == RegWeight(r) - 1;
    forall m ensures GroupOf(gs', m).funcs == GroupOf(gs, m).funcs + if n == m then FuncsIn(r) else [] {
      RegisterFuncs(gs, context, r, m);
    }
    assert Gained(gs, gs', n, FuncsIn(r));
    if n in gs {
      order' := order;
      GainOld(order, gs, gs', n, FuncsIn(r));
    } else {
      order' := order + [n];
      GainNew(order, gs, gs', n, FuncsIn(r));
    }
  }

  lemma {:induction false} RegisterAllWeight(order: seq<Name>, gs: Groups, context: Option<Name>, rs: seq<Registration>)
    returns (order': seq<Name>)
    requires Lists(order, gs)
    ensures Lists(order', RegisterAll(gs, context, rs))
    ensures Weight(order', RegisterAll(gs, context, rs)) <= Weight(order, gs) + BodyWeight(rs)
    decreases |rs|
  {
    hide Register, Lists, RegWeight;
    if rs == [] {
      order' := order;
    } else {
      var mid := RegisterWeight(order, gs, context, rs[0]);
      order' := RegisterAllWeight(mid, Register(gs, context, rs[0]), context, rs[1..]);
    }
  }

  /** Every turn of the loop makes the pending work lighter. */
  lemma RunGroupWeight(order: seq<Name>, gs: Groups, n: Name) returns (order': seq<Name>)
    requires Lists(order, gs) && n in gs
    ensures Lists(order', RunGroup(gs, n))
    ensures Weight(order', RunGroup(gs, n)) < Weight(order, gs)
  {
    var i := PlaceOf(order, gs, n);
    var rest := order[..i] + order[i + 1..];
    WeightAt(order, gs, i);
    WeightSplit(order[..i], order[i + 1..], gs);
    assert Lists(rest, gs - {n}) by { Without(order, gs, i); }
    WeightSame(rest, gs, gs - {n});
    RegistrationsWeigh(gs[n].funcs);
    order' := RegisterAllWeight(rest, gs - {n}, Some(n), Registrations(gs[n].funcs));
  }

  lemma Without(order: seq<Name>, gs: Groups, i: nat)
    requires Lists(order, gs) && i < |order|
    ensures Lists(order[..i] + order[i + 1..], gs - {order[i]})
  {
    var rest := order[..i] + order[i + 1..];
    assert forall k :: 0 <= k < |rest| ==> rest[k] == order[Skip(k, i)];
    WithoutOne(order, rest, gs, i);
  }

  lemma WithoutOne(order: seq<Name>, rest: seq<Name>, gs: Groups, i: nat)
    requires Lists(order, gs) && i < |order| && |rest| == |order| - 1
    requires forall k :: 0 <= k < |rest| ==> rest[k] == order[Skip(k, i)]
    ensures Lists(rest, gs - {order[i]})
  {
    forall n | n in gs && n != order[i]
      ensures n in rest
    {
      var k :| 0 <= k < |order| && order[k] == n;
      assert rest[if k < i then k else k - 1] == n;
    }
  }

  function Skip(k: nat, i: nat): nat { if k < i then k else k + 1 }

  lemma {:induction false} SomeOrder(gs: Groups, keys: set<Name>) returns (order: seq<Name>)
    requires keys <= gs.Keys
    ensures (forall n :: n in order <==> n in keys)
    ensures forall i, j :: 0 <= i < j < |order| ==> order[i] != order[j]
    decreases keys
  {
    if keys == {} {
      order := [];
    } else {
      var k :| k in keys;
      var rest := SomeOrder(gs, keys - {k});
      order := [k] + rest;
    }
  }

  // ------------------------------------------------------------------- cycles

  /** `x` cannot start before `y`. */
  predicate Waits(gs: Groups, x: Name, y: Name) { x in gs && y in gs && y in gs[x].after }

  /** Each name waits for the next, and the last for the first. */
  ghost predicate Cycle(gs: Groups, p: seq<Name>)
  {
    && p != [] && Waits(gs, p[|p| - 1], p[0])
    && forall i :: 0 <= i < |p| - 1 ==> Waits(gs, p[i], p[i + 1])
  }

  ghost predicate HasCycle(gs: Groups) { exists p :: Cycle(gs, p) }

  ghost predicate WaitPath(gs: Groups, p: seq<Name>)
  {
    && (forall i :: 0 <= i < |p| ==> p[i] in gs)
    && forall i :: 0 <= i < |p| - 1 ==> Waits(gs, p[i], p[i + 1])
  }

  lemma {:induction false} LongPath(gs: Groups, k: nat) returns (p: seq<Name>)
    requires Stuck(gs)
    ensures |p| == k + 1 && WaitPath(gs, p)
  {
    hide Waits, Ready;
    if k == 0 {
      var n :| n in gs.Keys;
      p := [n];
    } else {
      var q := LongPath(gs, k - 1);
      var last := q[|q| - 1];
      assert last in gs;
      var a := StuckWaits(gs, last);
      p := q + [a];
      PathGrows(gs, q, a);
    }
  }

  lemma StuckWaits(gs: Groups, n: Name) returns (a: Name)
    requires Stuck(gs) && n in gs
    ensures Waits(gs, n, a)
  {
    assert !Ready(gs, n);
    a :| a in gs[n].after && a in gs;
  }

  lemma PathGrows(gs: Groups, p: seq<Name>, a: Name)
    requires p != [] && WaitPath(gs, p) && Waits(gs, p[|p| - 1], a)
    ensures WaitPath(gs, p + [a])
  {
    hide Waits;
    var q := p + [a];
    assert a in gs by { WaitsPending(gs, p[|p| - 1], a); }
    forall i | 0 <= i < |q| - 1 ensures Waits(gs, q[i], q[i + 1]) {
      if i < |p| - 1 { assert Waits(gs, p[i], p[i + 1]); }
    }
  }

  lemma WaitsPending(gs: Groups, x: Name, y: Name)
    requires Waits(gs, x, y)
    ensures y in gs
  {
  }

  lemma {:induction false} Pigeonhole(p: seq<Name>, holes: set<Name>) returns (i: nat, j: nat)
    requires |p| > |holes| && forall k :: 0 <= k < |p| ==> p[k] in holes
    ensures i < j < |p| && p[i] == p[j]
    decreases |p|
  {
    var last := |p| - 1;
    if k :| 0 <= k < last && p[k] == p[last] {
      i, j := k, last;
    } else {
      var fewer := holes - {p[last]};
      assert |fewer| == |holes| - 1;
      i, j := Pigeonhole(p[..last], fewer);
    }
  }

  /** Pending groups none of which can start contain a dependency cycle. */
  lemma StuckHasCycle(gs: Groups)
    requires Stuck(gs)
    ensures HasCycle(gs)
  {
    var p := LongPath(gs, |gs.Keys|);
    var i, j := Pigeonhole(p, gs.Keys);
    var c := p[i..j];
    assert Waits(gs, p[j - 1], p[j]);
    forall k | 0 <= k < |c| - 1 ensures Waits(gs, c[k], c[k + 1]) {
      assert Waits(gs, p[i + k], p[i + k + 1]);
    }
    assert Cycle(gs, c);
  }

  /** The groups of a cycle never start, however the run goes on, so the run
      never finishes. */
  lemma {:induction false} CycleNeverRuns(gs: Groups, picks: seq<Name>, p: seq<Name>)
    requires Legal(gs, picks) && Cycle(gs, p)
    ensures Cycle(After(gs, picks), p)
    ensures forall x :: x in p ==> x !in picks
    decreases |picks|
  {
    hide RunGroup;
    if picks != [] {
      var n, gs' := picks[0], RunGroup(gs, picks[0]);
      forall k | 0 <= k < |p|
        ensures p[k] in gs && p[k] != n
      {
        var next := if k < |p| - 1 then p[k + 1] else p[0];
        assert Waits(gs, p[k], next);
      }
      assert Cycle(gs', p) by {
        forall k | 0 <= k < |p| ensures p[k] in gs' && Grows(gs[p[k]], gs'[p[k]]) {
          RunGroupGrows(gs, n, p[k]);
        }
      }
      CycleNeverRuns(gs', picks[1..], p);
    }
  }

  // ---------------------------------------------- runs without registrations

  /** No pending function registers anything. */
  predicate Quiet(gs: Groups)
  {
    forall n, i :: n in gs && 0 <= i < |gs[n].funcs| ==> gs[n].funcs[i].body == []
  }

  lemma {:induction false} QuietRegistrations(fs: seq<Func>)
    requires forall i :: 0 <= i < |fs| ==> fs[i].body == []
    ensures Registrations(fs) == []
  {
    if fs != [] { QuietRegistrations(fs[1..]); }
  }

  lemma QuietStep(gs: Groups, n: Name)
    requires Quiet(gs) && n in gs
    ensures RunGroup(gs, n) == gs - {n} && Quiet(gs - {n})
  {
    QuietRegistrations(gs[n].funcs);
  }

  /** Without registrations, a run starts groups at most once each, and each
      one only after every pending name in its after-set. */
  lemma {:induction false} QuietRun(gs: Groups, picks: seq<Name>)
    requires Quiet(gs) && Legal(gs, picks)
    ensures After(gs, picks) == gs - (set n | n in picks)
    ensures forall i :: 0 <= i < |picks| ==> picks[i] in gs
    ensures forall i, j :: 0 <= i < j < |picks| ==> picks[i] != picks[j]
    ensures forall i, a :: 0 <= i < |picks| && a in gs[picks[i]].after && a in gs ==> a in picks[..i]
    decreases |picks|
  {
    hide RunGroup;
    if picks != [] {
      var p, rest := picks[0], picks[1..];
      QuietStep(gs, p);
      QuietRun(gs - {p}, rest);
      forall i, a | 0 <= i < |picks| && a in gs[picks[i]].after && a in gs
        ensures a in picks[..i]
      {
        if i > 0 && a != p {
          assert rest[i - 1] == picks[i] && a in (gs - {p})[rest[i - 1]].after && a in gs - {p};
          assert a in rest[..i - 1];
          var k :| 0 <= k < i - 1 && rest[k] == a;
          assert picks[..i][k + 1] == a;
        }
      }
    }
  }

  /**
   * A run without registrations that has no group left to start has finished
   * every group if and only if the registered groups had no dependency cycle.
   */
  lemma QuietOutcome(gs: Groups, picks: seq<Name>)
    requires Quiet(gs) && Legal(gs, picks)
    requires forall n :: n in After(gs, picks) ==> !Ready(After(gs, picks), n)
    ensures After(gs, picks) != map[] <==> HasCycle(gs)
    ensures After(gs, picks) == map[] ==> forall n :: n in gs ==> Called(gs, picks, n) == gs[n].funcs
  {
    hide Ready, Quiet, After, Legal, Called, Cycle;
    var end := After(gs, picks);
    QuietRun(gs, picks);
    if end != map[] {
      NotEmptyStuck(end);
      StuckHasCycle(end);
      var p :| Cycle(end, p);
      CycleOfPart(end, gs, p);
    }
    if p :| Cycle(gs, p) {
      CycleNeverRuns(gs, picks, p);
      CycleNotEmpty(end, p);
    }
    if end == map[] {
      forall n | n in gs
        ensures Called(gs, picks, n) == gs[n].funcs
      {
        QuietCallsAll(gs, picks, n);
      }
    }
  }

  lemma NotEmptyStuck(gs: Groups)
    requires gs != map[] && forall n :: n in gs ==> !Ready(gs, n)
    ensures Stuck(gs)
  {
    hide Ready;
  }

  lemma CycleOfPart(part: Groups, gs: Groups, p: seq<Name>)
    requires Cycle(part, p) && forall n :: n in part ==> n in gs && part[n] == gs[n]
    ensures Cycle(gs, p)
  {
    forall i | 0 <= i < |p| - 1 ensures Waits(gs, p[i], p[i + 1]) { assert Waits(part, p[i], p[i + 1]); }
  }

  lemma CycleNotEmpty(gs: Groups, p: seq<Name>)
    requires Cycle(gs, p)
    ensures gs != map[]
  {
    assert p[0] in gs;
  }

  lemma QuietCallsAll(gs: Groups, picks: seq<Name>, n: Name)
    requires Quiet(gs) && Legal(gs, picks) && n in gs && n !in After(gs, picks)
    ensures Called(gs, picks, n) == gs[n].funcs
  {
    hide Called, RegisteredDuring, After, Legal;
    CalledExactlyOnce(gs, picks, n);
    QuietRegistersNothing(gs, picks, n);
    assert Called(gs, picks, n) + [] == Called(gs, picks, n);
    assert gs[n].funcs + [] == gs[n].funcs;
  }

  lemma {:induction false} QuietRegistersNothing(gs: Groups, picks: seq<Name>, n: Name)
    requires Quiet(gs) && Legal(gs, picks)
    ensures RegisteredDuring(gs, picks, n) == []
    decreases |picks|
  {
    hide RunGroup;
    if picks != [] {
      QuietStep(gs, picks[0]);
      QuietRegistrations(gs[picks[0]].funcs);
      QuietRegistersNothing(gs - {picks[0]}, picks[1..], n);
    }
  }
}
