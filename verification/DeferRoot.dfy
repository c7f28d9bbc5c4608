/**
 * The scheduler as the tool runs it: a dictionary of shared group objects,
 * mutated while one of them is being iterated over.
 */
module DeferRoot {
  import opened Wrappers
  import opened Defer
  import opened DeferRuns

  /** One element of the after= argument. */
  datatype AfterArg = ByName(s: string) | ByFunc(f: FuncName) | Nothing | Other

  function ArgNames(a: AfterArg): set<string>
  {
    match a
    case ByName(s) => {s}
    case ByFunc(f) => {f}
    case Nothing => {}
    case Other => {}
  }

  function Joined(names: set<string>, rest: Option<set<string>>): Option<set<string>>
  {
    match rest
    case None => None
    case Some(s) => Some(names + s)
  }

  /** The after-names, or nothing when an element is neither a name nor a function. */
  function Resolve(args: seq<AfterArg>): Option<set<string>>
  {
    if args == [] then Some({})
    else if args[0] == Other then None
    else Joined(ArgNames(args[0]), Resolve(args[1..]))
  }

  datatype Outcome = Done | CycleError | Reentrant

  class DeferGroup {
    var funcs: seq<Func>
    var after: set<Name>

    constructor ()
      ensures funcs == [] && after == {}
    {
      funcs, after := [], {};
    }
  }

  class Root {
    var groups: map<Name, DeferGroup>
    var context: Option<Name>

    constructor ()
      ensures Valid() && Abs() == map[] && context == None
    {
      groups, context := map[], None;
    }

    /** No object serves two names. */
    ghost predicate Valid()
      reads this`groups
    {
      forall n, m :: n in groups && m in groups && n != m ==> groups[n] != groups[m]
    }

    ghost function Abs(): (gs: Groups)
      reads this`groups, groups.Values
      ensures gs.Keys == groups.Keys
    {
      map n | n in groups :: Group(groups[n].funcs, groups[n].after)
    }

    /** Defer, on resolved arguments. */
    method Add(r: Registration)
      requires Valid()
      modifies this`groups, groups.Values
      ensures Valid() && Abs() == Register(old(Abs()), context, r)
      ensures forall n :: n in groups ==> fresh(groups[n]) || groups[n] in old(groups.Values)
    {
      hide NameOf, Added, Propagated;
      AddToGroup(r);
      var n := NameOf(r);
      if context.Some? && !Falsy(context.value) && n != context.value {
        Inheriting(n, context.value);
      }
    }

    /** The group gets the function and the after-names, created if need be. */
    method AddToGroup(r: Registration)
      requires Valid()
      modifies this`groups, groups.Values
      ensures Valid() && Abs() == Added(old(Abs()), r) && NameOf(r) in groups
      ensures forall n :: n in groups ==> fresh(groups[n]) || groups[n] in old(groups.Values)
    {
      hide NameOf, AfterNames, Added;
      var n := NameOf(r);
      MakeGroup(n);
      var group := groups[n];
      ghost var before := Abs();
      if r.func.Some? {
        group.funcs := group.funcs + [r.func.value];
      }
      group.after := group.after + AfterNames(r);
      AddedIs(old(Abs()), before, Abs(), r);
    }

    /** The group of that name is there from now on. */
    method MakeGroup(n: Name)
      requires Valid()
      modifies this`groups
      ensures Valid() && n in groups && Abs() == old(Abs())[n := GroupOf(old(Abs()), n)]
      ensures forall m :: m in groups ==> fresh(groups[m]) || groups[m] in old(groups.Values)
    {
      if n !in groups {
        var g := new DeferGroup();
        groups := groups[n := g];
      }
    }

    /** The loop that makes groups after the running one also come after `n`. */
    method Inheriting(n: Name, running: Name)
      requires Valid() && n in groups
      modifies groups.Values
      ensures Valid() && Abs() == Propagated(old(Abs()), running, n)
    {
      hide Inherit;
      var keys := groups.Keys;
      while keys != {}
        invariant keys <= groups.Keys
        invariant forall m :: m in groups ==>
          Group(groups[m].funcs, groups[m].after)
          == if m in keys || m == n then old(Abs())[m] else Inherit(old(Abs())[m], running, n)
        decreases keys
      {
        var other :| other in keys;
        keys := keys - {other};
        if other != n {
          InheritIs(Group(groups[other].funcs, groups[other].after), running, n);
          if running in groups[other].after {
            groups[other].after := groups[other].after + {n};
          }
        }
      }
    }

    /** Defer: a bad after= element raises before anything is changed. */
    method Defer(group: Option<string>, func: Option<Func>, after: seq<AfterArg>) returns (raised: bool)
      requires Valid()
      modifies this`groups, groups.Values
      ensures Valid() && raised == Resolve(after).None?
      ensures raised ==> Abs() == old(Abs())
      ensures !raised ==> Abs() == Register(old(Abs()), context, Registration(group, func, Resolve(after).value))
      ensures forall n :: n in groups ==> fresh(groups[n]) || groups[n] in old(groups.Values)
    {
      hide Resolve, Register, NameOf;
      var names := ResolveArgs(after);
      if names.None? {
        return true;
      }
      Add(Registration(group, func, names.value));
      raised := false;
    }

    /** One turn of ExecuteDefer's loop for a group that can start. */
    method StartGroup(n: Name)
      requires Valid() && n in groups
      modifies this, groups.Values
      ensures Valid() && Abs() == RunGroup(old(Abs()), n) && context == Some(n)
      ensures forall m :: m in groups ==> fresh(groups[m]) || groups[m] in old(groups.Values)
    {
      hide Register, RegisterAll, Registrations;
      context := Some(n);
      var group := groups[n];
      groups := groups - {n};
      ghost var fs := group.funcs;
      ghost var goal := RunGroup(old(Abs()), n);
      assert Abs() == old(Abs()) - {n};
      assert fs[0..] == fs;
      var i := 0;
      while i < |group.funcs|
        invariant group.funcs == fs && i <= |fs| && context == Some(n) && Valid()
        invariant forall m :: m in groups ==> groups[m] != group
        invariant forall m :: m in groups ==> fresh(groups[m]) || groups[m] in old(groups.Values)
        invariant RegisterAll(Abs(), context, Registrations(fs[i..])) == goal
      {
        assert fs[i..] == [fs[i]] + fs[i + 1..];
        Call(group.funcs[i], group, fs[i + 1..]);
        i := i + 1;
      }
      assert fs[i..] == [];
      NothingLeft(Abs(), context);
    }

    /** Calling a deferred function: it makes its registrations one by one.
        The list being iterated belongs to a group no longer in the dictionary. */
    method Call(f: Func, ghost running: DeferGroup, ghost later: seq<Func>)
      requires Valid() && forall m :: m in groups ==> groups[m] != running
      modifies this`groups, groups.Values
      ensures Valid() && unchanged(running) && forall m :: m in groups ==> groups[m] != running
      ensures RegisterAll(Abs(), context, Registrations(later))
           == RegisterAll(old(Abs()), context, Registrations([f] + later))
      ensures forall m :: m in groups ==> fresh(groups[m]) || groups[m] in old(groups.Values)
    {
      hide Register, RegisterAll;
      ghost var goal := RegisterAll(Abs(), context, Registrations([f] + later));
      assert ([f] + later)[1..] == later;
      var i := 0;
      while i < |f.body|
        invariant i <= |f.body| && Valid() && unchanged(running)
        invariant forall m :: m in groups ==> groups[m] != running
        invariant forall m :: m in groups ==> fresh(groups[m]) || groups[m] in old(groups.Values)
        invariant RegisterAll(Abs(), context, f.body[i..] + Registrations(later)) == goal
      {
        RegisterAllStep(Abs(), context, f.body[i..] + Registrations(later));
        assert (f.body[i..] + Registrations(later))[1..] == f.body[i + 1..] + Registrations(later);
        Add(f.body[i]);
        i := i + 1;
      }
      assert f.body[i..] + Registrations(later) == Registrations(later);
    }

    /** Some group whose after-names are all gone, if there is one. */
    method FindReady() returns (found: Option<Name>)
      requires Valid()
      ensures found.Some? ==> Ready(Abs(), found.value)
      ensures found.None? ==> forall n :: n in groups ==> !Ready(Abs(), n)
    {
      var keys := groups.Keys;
      while keys != {}
        invariant keys <= groups.Keys
        invariant forall n :: n in groups && n !in keys ==> !Ready(Abs(), n)
        decreases keys
      {
        var n :| n in keys;
        keys := keys - {n};
        if groups[n].after * groups.Keys == {} {
          forall a | a in groups[n].after ensures a !in groups {
            assert a !in groups[n].after * groups.Keys;
          }
          assert Ready(Abs(), n);
          return Some(n);
        }
        assert !Ready(Abs(), n) by {
          var a :| a in groups[n].after * groups.Keys;
          assert a in Abs()[n].after && a in Abs();
        }
      }
      return None;
    }

    /** One pass of the loop: start a group that can start, if there is one. */
    method Turn() returns (n: Option<Name>)
      requires Valid()
      modifies this, groups.Values
      ensures Valid()
      ensures n.Some? ==> Ready(old(Abs()), n.value) && n.value in old(Abs())
      ensures n.Some? ==> Abs() == RunGroup(old(Abs()), n.value)
      ensures n.None? ==> Abs() == old(Abs()) && forall m :: m in Abs() ==> !Ready(Abs(), m)
      ensures forall m :: m in groups ==> fresh(groups[m]) || groups[m] in old(groups.Values)
    {
      hide RunGroup, Ready;
      n := FindReady();
      if n.Some? {
        ReadyIsPending(Abs(), n.value);
        StartGroup(n.value);
      }
    }

    /** ExecuteDefer, from the environment that holds the groups. */
    method ExecuteDefer() returns (started: seq<Name>, outcome: Outcome)
      requires Valid()
      modifies this, groups.Values
      ensures Valid()
      ensures outcome == Reentrant <==> old(context.Some? && !Falsy(context.value))
      ensures outcome == Reentrant ==> Abs() == old(Abs()) && context == old(context)
      ensures outcome != Reentrant ==> context == None
      ensures outcome != Reentrant ==> Legal(old(Abs()), started) && Abs() == After(old(Abs()), started)
      ensures outcome == Done ==> Abs() == map[]
      ensures outcome == CycleError ==> Stuck(Abs())
    {
      hide Ready, Legal, After, Stuck, Abs;
      if context.Some? && !Falsy(context.value) {
        return [], Reentrant;
      }
      var finished;
      started, finished := RunAll();
      context := None;
      outcome := if finished then Done else CycleError;
    }

    /** The loop over the groups, until none is left or none can start. */
    method RunAll() returns (started: seq<Name>, finished: bool)
      requires Valid()
      modifies this, groups.Values
      ensures Valid() && RanTo(old(Abs()), started, Abs())
      ensures if finished then Abs() == map[] else Stuck(Abs())
    {
      hide RunGroup, Ready, Lists, Weight, RanTo, Stuck;
      started := [];
      ghost var gs := Abs();
      ghost var order := SomeListing(gs);
      RanNowhere(gs);
      while groups.Keys != {}
        invariant Valid() && Lists(order, Abs()) && RanTo(gs, started, Abs())
        invariant forall m :: m in groups ==> fresh(groups[m]) || groups[m] in old(groups.Values)
        decreases Weight(order, Abs())
      {
        ghost var before := Abs();
        var found := Turn();
        if found.None? {
          IsStuck(before);
          return started, false;
        }
        RanOneMore(gs, started, before, found.value);
        ghost var lighter := RunGroupWeight(order, before, found.value);
        started, order := started + [found.value], lighter;
      }
      finished := true;
    }
  }

  /** Starting these groups one by one is legal and leads to `now`. */
  ghost predicate RanTo(gs: Groups, picks: seq<Name>, now: Groups)
  {
    Legal(gs, picks) && After(gs, picks) == now
  }

  lemma RanNowhere(gs: Groups)
    ensures RanTo(gs, [], gs)
  {
  }

  lemma RanOneMore(gs: Groups, picks: seq<Name>, now: Groups, n: Name)
    requires RanTo(gs, picks, now) && Ready(now, n)
    ensures n in now && RanTo(gs, picks + [n], RunGroup(now, n))
  {
    hide RunGroup, Ready, Legal, After;
    LegalSnoc(gs, picks, n);
  }

  lemma IsStuck(gs: Groups)
    requires gs.Keys != {} && forall n :: n in gs ==> !Ready(gs, n)
    ensures Stuck(gs)
  {
    hide Ready;
  }

  /** The loop over the after= argument. */
  method ResolveArgs(after: seq<AfterArg>) returns (names: Option<set<string>>)
    ensures names == Resolve(after)
  {
    var found: set<string> := {};
    var i := 0;
    JoinedEmpty(Resolve(after));
    assert after[0..] == after;
    while i < |after|
      invariant i <= |after|
      invariant Resolve(after) == Joined(found, Resolve(after[i..]))
    {
      assert after[i..][0] == after[i] && after[i..][1..] == after[i + 1..];
      if after[i] == Other {
        return None;
      }
      JoinedTwice(found, ArgNames(after[i]), Resolve(after[i + 1..]));
      found := found + ArgNames(after[i]);
      i := i + 1;
    }
    assert found + {} == found;
    return Some(found);
  }

  lemma JoinedEmpty(rest: Option<set<string>>)
    ensures Joined({}, rest) == rest
  {
    if rest.Some? { assert {} + rest.value == rest.value; }
  }

  lemma JoinedTwice(a: set<string>, b: set<string>, rest: Option<set<string>>)
    ensures Joined(a + b, rest) == Joined(a, Joined(b, rest))
  {
    if rest.Some? { assert (a + b) + rest.value == a + (b + rest.value); }
  }

  lemma SomeListing(gs: Groups) returns (order: seq<Name>)
    ensures Lists(order, gs)
  {
    order := SomeOrder(gs, gs.Keys);
  }

  lemma AddedIs(gs: Groups, before: Groups, gs': Groups, r: Registration)
    requires before == gs[NameOf(r) := GroupOf(gs, NameOf(r))] && gs'.Keys == before.Keys
    requires gs'[NameOf(r)] == Group(before[NameOf(r)].funcs + FuncsIn(r), before[NameOf(r)].after + AfterNames(r))
    requires forall m :: m in before && m != NameOf(r) ==> gs'[m] == before[m]
    ensures gs' == Added(gs, r)
  {
    hide NameOf, FuncsIn, AfterNames;
  }

  lemma InheritIs(g: Group, running: Name, n: Name)
    ensures Inherit(g, running, n) == if running in g.after then Group(g.funcs, g.after + {n}) else g
  {
  }

  lemma NothingLeft(gs: Groups, context: Option<Name>)
    ensures RegisterAll(gs, context, Registrations([])) == gs
  {
  }

  lemma RegisterAllStep(gs: Groups, context: Option<Name>, rs: seq<Registration>)
    requires rs != []
    ensures RegisterAll(gs, context, rs) == RegisterAll(Register(gs, context, rs[0]), context, rs[1..])
  {
  }

  lemma {:induction false} LegalSnoc(gs: Groups, picks: seq<Name>, n: Name)
    requires Legal(gs, picks) && Ready(After(gs, picks), n)
    ensures n in After(gs, picks)
    ensures Legal(gs, picks + [n]) && After(gs, picks + [n]) == RunGroup(After(gs, picks), n)
    decreases |picks|
  {
    hide RunGroup, Ready;
    ReadyIsPending(After(gs, picks), n);
    if picks == [] {
      assert picks + [n] == [n];
      assert Legal(RunGroup(gs, n), []);
    } else {
      ReadyIsPending(gs, picks[0]);
      assert (picks + [n])[1..] == picks[1..] + [n];
      LegalSnoc(RunGroup(gs, picks[0]), picks[1..], n);
    }
  }
}
