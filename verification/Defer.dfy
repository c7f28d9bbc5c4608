/**
 * The deferred-function scheduler: groups of functions that run after other
 * groups, where a running function may register more.
 *
 * A function is modelled by the registrations it makes when called.
 */
module Defer {
  import opened Wrappers

  /** A dictionary key: no name at all, or a string. */
  datatype Name = NoName | Named(s: string)

  /** Python truth: None and the empty string count as false. */
  predicate Falsy(n: Name) { n == NoName || n == Named("") }

  type FuncName = s: string | s != "" witness "f"

  datatype Func = Func(name: FuncName, id: nat, body: seq<Registration>)

  /** The arguments of one Defer call: group label, function, after-names. */
  datatype Registration = Registration(group: Option<string>, func: Option<Func>, after: set<string>)

  datatype Group = Group(funcs: seq<Func>, after: set<Name>)
  type Groups = map<Name, Group>

  // ------------------------------------------------------------- registration

  /** The group a Defer call goes to: a function without a (non-empty) label
      gives the group its own name. */
  function NameOf(r: Registration): Name
  {
    var base := if r.group.Some? then Named(r.group.value) else NoName;
    if r.func.Some? && Falsy(base) then Named(r.func.value.name) else base
  }

  function FuncsIn(r: Registration): seq<Func> { if r.func.Some? then [r.func.value] else [] }

  function AfterNames(r: Registration): set<Name> { set a | a in r.after :: Named(a) }

  function GroupOf(gs: Groups, n: Name): Group { if n in gs then gs[n] else Group([], {}) }

  /** Groups after the running one must also come after what it registers. */
  predicate Propagates(context: Option<Name>, n: Name)
  {
    context.Some? && !Falsy(context.value) && n != context.value
  }

  function Added(gs: Groups, r: Registration): Groups
  {
    var g := GroupOf(gs, NameOf(r));
    gs[NameOf(r) := Group(g.funcs + FuncsIn(r), g.after + AfterNames(r))]
  }

  function Inherit(g: Group, running: Name, n: Name): Group
  {
    if running in g.after then g.(after := g.after + {n}) else g
  }

  function Propagated(gs: Groups, running: Name, n: Name): (gs': Groups)
    ensures gs'.Keys == gs.Keys
  {
    map m | m in gs :: if m == n then gs[m] else Inherit(gs[m], running, n)
  }

  /** Defer. */
  function Register(gs: Groups, context: Option<Name>, r: Registration): (gs': Groups)
    ensures gs'.Keys == gs.Keys + {NameOf(r)}
  {
    var n := NameOf(r);
    if Propagates(context, n) then Propagated(Added(gs, r), context.value, n) else Added(gs, r)
  }

  function RegisterAll(gs: Groups, context: Option<Name>, rs: seq<Registration>): Groups
    decreases |rs|
  {
    if rs == [] then gs else RegisterAll(Register(gs, context, rs[0]), context, rs[1..])
  }

  /** Everything a list of functions registers when called in order. */
  function Registrations(fs: seq<Func>): seq<Registration>
  {
    if fs == [] then [] else fs[0].body + Registrations(fs[1..])
  }

  // ---------------------------------------------------------------- execution

  /** No after-name of the group is pending. */
  predicate Ready(gs: Groups, n: Name)
  {
    n in gs && forall a :: a in gs[n].after ==> a !in gs
  }

  /** One turn of the loop: the group is removed, then its functions are called. */
  function RunGroup(gs: Groups, n: Name): Groups
    requires n in gs
  {
    RegisterAll(gs - {n}, Some(n), Registrations(gs[n].funcs))
  }

  /** The groups started, each ready at its turn; dictionary order is arbitrary. */
  predicate Legal(gs: Groups, picks: seq<Name>)
    decreases |picks|
  {
    picks == [] || (Ready(gs, picks[0]) && Legal(RunGroup(gs, picks[0]), picks[1..]))
  }

  function After(gs: Groups, picks: seq<Name>): Groups
    requires Legal(gs, picks)
    decreases |picks|
  {
    if picks == [] then gs else After(RunGroup(gs, picks[0]), picks[1..])
  }

  ghost predicate Stuck(gs: Groups)
  {
    gs != map[] && forall n :: n in gs ==> !Ready(gs, n)
  }

  /** A group whose name is false as a context holds no functions. */
  predicate Inv(gs: Groups)
  {
    forall n :: n in gs && Falsy(n) ==> gs[n].funcs == []
  }

  // ------------------------------------------------ what registering preserves

  /** Pending groups only gain functions and after-names. */
  ghost predicate Grows(g: Group, g': Group)
  {
    g.funcs <= g'.funcs && g.after <= g'.after
  }

  lemma RegisterGrows(gs: Groups, context: Option<Name>, r: Registration, m: Name)
    requires m in gs
    ensures m in Register(gs, context, r) && Grows(gs[m], Register(gs, context, r)[m])
  {
  }

  lemma RegisterInherits(gs: Groups, context: Option<Name>, r: Registration, m: Name)
    requires m in gs && context.Some? && !Falsy(context.value) && context.value in gs[m].after && m != NameOf(r)
    ensures NameOf(r) in Register(gs, context, r)[m].after
  {
  }

  lemma RegisterKeepsInv(gs: Groups, context: Option<Name>, r: Registration)
    requires Inv(gs)
    ensures Inv(Register(gs, context, r))
  {
  }

  lemma {:induction false} RegisterAllGrows(gs: Groups, context: Option<Name>, rs: seq<Registration>, m: Name)
    requires m in gs
    ensures m in RegisterAll(gs, context, rs) && Grows(gs[m], RegisterAll(gs, context, rs)[m])
    decreases |rs|
  {
    hide Register;
    if rs != [] {
      RegisterGrows(gs, context, rs[0], m);
      RegisterAllGrows(Register(gs, context, rs[0]), context, rs[1..], m);
    }
  }

  lemma {:induction false} RegisterAllKeepsInv(gs: Groups, context: Option<Name>, rs: seq<Registration>)
    requires Inv(gs)
    ensures Inv(RegisterAll(gs, context, rs))
    decreases |rs|
  {
    hide Register, Inv;
    if rs != [] {
      RegisterKeepsInv(gs, context, rs[0]);
      RegisterAllKeepsInv(Register(gs, context, rs[0]), context, rs[1..]);
    }
  }

  /** A group waiting for the running one also waits for all it registers. */
  lemma {:induction false} RegisterAllInherits(gs: Groups, running: Name, rs: seq<Registration>, m: Name, k: nat)
    requires m in gs && !Falsy(running) && running in gs[m].after
    requires k < |rs| && NameOf(rs[k]) != m
    ensures m in RegisterAll(gs, Some(running), rs) && NameOf(rs[k]) in RegisterAll(gs, Some(running), rs)[m].after
    decreases |rs|
  {
    hide Register, NameOf;
    var gs' := Register(gs, Some(running), rs[0]);
    RegisterGrows(gs, Some(running), rs[0], m);
    if k == 0 {
      RegisterInherits(gs, Some(running), rs[0], m);
      RegisterAllGrows(gs', Some(running), rs[1..], m);
    } else {
      RegisterAllInherits(gs', running, rs[1..], m, k - 1);
    }
  }

  lemma {:induction false} RegisterAllKeys(gs: Groups, context: Option<Name>, rs: seq<Registration>, n: Name)
    ensures n in RegisterAll(gs, context, rs) <==> n in gs || exists k :: 0 <= k < |rs| && NameOf(rs[k]) == n
    decreases |rs|
  {
    hide Register, NameOf;
    if rs != [] {
      RegisterAllKeys(Register(gs, context, rs[0]), context, rs[1..], n);
      if exists k :: 0 <= k < |rs| && NameOf(rs[k]) == n {
        var k :| 0 <= k < |rs| && NameOf(rs[k]) == n;
        if k > 0 { assert NameOf(rs[1..][k - 1]) == n; }
      }
      if exists k :: 0 <= k < |rs[1..]| && NameOf(rs[1..][k]) == n {
        var k :| 0 <= k < |rs[1..]| && NameOf(rs[1..][k]) == n;
        assert NameOf(rs[k + 1]) == n;
      }
    }
  }

  /** The functions registered for one group, in order. */
  function FuncsFor(rs: seq<Registration>, n: Name): seq<Func>
  {
    if rs == [] then [] else (if NameOf(rs[0]) == n then FuncsIn(rs[0]) else []) + FuncsFor(rs[1..], n)
  }

  lemma RegisterFuncs(gs: Groups, context: Option<Name>, r: Registration, n: Name)
    ensures GroupOf(Register(gs, context, r), n).funcs
         == GroupOf(gs, n).funcs + if NameOf(r) == n then FuncsIn(r) else []
  {
  }

  /** A group ends up with what it held and exactly what was registered for it. */
  lemma {:induction false} RegisterAllFuncs(gs: Groups, context: Option<Name>, rs: seq<Registration>, n: Name)
    ensures GroupOf(RegisterAll(gs, context, rs), n).funcs == GroupOf(gs, n).funcs + FuncsFor(rs, n)
    decreases |rs|
  {
    hide Register, NameOf;
    if rs != [] {
      RegisterFuncs(gs, context, rs[0], n);
      RegisterAllFuncs(Register(gs, context, rs[0]), context, rs[1..], n);
      var a, b := GroupOf(gs, n).funcs, if NameOf(rs[0]) == n then FuncsIn(rs[0]) else [];
      assert (a + b) + FuncsFor(rs[1..], n) == a + (b + FuncsFor(rs[1..], n));
    }
  }

  // --------------------------------------------------------- runs, dynamically

  lemma RunGroupGrows(gs: Groups, n: Name, m: Name)
    requires n in gs && m in gs && m != n
    ensures m in RunGroup(gs, n) && Grows(gs[m], RunGroup(gs, n)[m])
  {
    RegisterAllGrows(gs - {n}, Some(n), Registrations(gs[n].funcs), m);
  }

  lemma RunGroupKeepsInv(gs: Groups, n: Name)
    requires n in gs && Inv(gs)
    ensures Inv(RunGroup(gs, n))
  {
    RegisterAllKeepsInv(gs - {n}, Some(n), Registrations(gs[n].funcs));
  }

  /** Re-registering into the running group makes a fresh group: it holds only
      what the run itself registered, none of what is being run. */
  lemma RunningGroupIsFresh(gs: Groups, n: Name)
    requires n in gs
    ensures GroupOf(RunGroup(gs, n), n).funcs == FuncsFor(Registrations(gs[n].funcs), n)
  {
    var rs := Registrations(gs[n].funcs);
    RegisterAllFuncs(gs - {n}, Some(n), rs, n);
    assert [] + FuncsFor(rs, n) == FuncsFor(rs, n);
  }

  /** The names registered, directly or through what was registered, by groups
      that start in `picks` and are in `d`. */
  ghost function Descendants(gs: Groups, picks: seq<Name>, d: set<Name>): set<Name>
    requires Legal(gs, picks)
    decreases |picks|
  {
    if picks == [] then d
    else
      var n := picks[0];
      var d' := if n in d then d + RegisteredNames(Registrations(gs[n].funcs)) else d;
      Descendants(RunGroup(gs, n), picks[1..], d')
  }

  function RegisteredNames(rs: seq<Registration>): set<Name>
  {
    set k | 0 <= k < |rs| :: NameOf(rs[k])
  }

  /** A pending group that waits for `d` comes to wait for all that `d` registers. */
  lemma {:induction false} DescendantsInherited(gs: Groups, picks: seq<Name>, d: set<Name>, b: Name)
    requires Inv(gs) && Legal(gs, picks) && b in gs && b !in picks
    requires d - {b} <= gs[b].after
    ensures b in After(gs, picks) && Descendants(gs, picks, d) - {b} <= After(gs, picks)[b].after
    decreases |picks|
  {
    hide RunGroup, Inv;
    if picks != [] {
      var n := picks[0];
      var d' := if n in d then d + RegisteredNames(Registrations(gs[n].funcs)) else d;
      RunGroupKeepsInv(gs, n);
      RunGroupGrows(gs, n, b);
      if n in d { StepInherits(gs, n, d, b); }
      DescendantsInherited(RunGroup(gs, n), picks[1..], d', b);
    }
  }

  lemma StepInherits(gs: Groups, n: Name, d: set<Name>, b: Name)
    requires Inv(gs) && n in gs && b in gs && b != n && d - {b} <= gs[b].after && n in d
    ensures b in RunGroup(gs, n)
    ensures RegisteredNames(Registrations(gs[n].funcs)) - {b} <= RunGroup(gs, n)[b].after
  {
    hide NameOf, Register;
    var rs := Registrations(gs[n].funcs);
    RunGroupGrows(gs, n, b);
    forall c | c in RegisteredNames(rs) - {b}
      ensures c in RunGroup(gs, n)[b].after
    {
      var k :| 0 <= k < |rs| && NameOf(rs[k]) == c;
      assert gs[n].funcs != [] && !Falsy(n);
      RegisterAllInherits(gs - {n}, n, rs, b, k);
    }
  }

  /**
   * When a group starts, nothing it was registered to follow is pending: not
   * the after-names it had at any earlier time, and not anything those groups
   * registered while running, nor what that registered in turn.
   */
  lemma StartsAfterDescendants(gs: Groups, picks: seq<Name>, b: Name, y: Name)
    requires Inv(gs) && b in gs && b !in picks && Legal(gs, picks + [b])
    requires Legal(gs, picks) && y in Descendants(gs, picks, gs[b].after) && y != b
    ensures y !in After(gs, picks)
  {
    hide Ready, Inv, RunGroup;
    DescendantsInherited(gs, picks, gs[b].after, b);
    LegalSplit(gs, picks, b);
    ReadyMeans(After(gs, picks), b, y);
  }

  lemma ReadyMeans(gs: Groups, n: Name, a: Name)
    requires Ready(gs, n) && a in gs[n].after
    ensures a !in gs
  {
  }

  lemma {:induction false} LegalSplit(gs: Groups, picks: seq<Name>, b: Name)
    requires Legal(gs, picks + [b])
    ensures Legal(gs, picks) && Ready(After(gs, picks), b)
    decreases |picks|
  {
    hide Ready, RunGroup;
    if picks == [] {
      assert (picks + [b])[0] == b;
    } else {
      ReadyIsPending(gs, picks[0]);
      assert (picks + [b])[1..] == picks[1..] + [b];
      LegalSplit(RunGroup(gs, picks[0]), picks[1..], b);
    }
  }

  /** A pending group leaves the dictionary only by being started. */
  lemma {:induction false} PendingUntilPicked(gs: Groups, picks: seq<Name>, x: Name)
    requires Legal(gs, picks) && x in gs && x !in picks
    ensures x in After(gs, picks)
    decreases |picks|
  {
    hide Ready, RunGroup;
    if picks != [] {
      ReadyIsPending(gs, picks[0]);
      RunGroupGrows(gs, picks[0], x);
      PendingUntilPicked(RunGroup(gs, picks[0]), picks[1..], x);
    }
  }

  lemma ReadyIsPending(gs: Groups, n: Name)
    ensures Ready(gs, n) ==> n in gs
  {
  }

  /** If `a` registers group `c` while it runs, every group that already listed
      `a` starts only after `c` has been started in between. */
  lemma RegisteredRunsFirst(gs: Groups, a: Name, picks: seq<Name>, b: Name, c: Name)
    requires Inv(gs) && Legal(gs, [a] + picks + [b])
    requires b in gs && b != a && a in gs[b].after && b !in picks
    requires a in gs && c in RegisteredNames(Registrations(gs[a].funcs)) && c != b
    ensures c in picks
  {
    hide Ready, Inv, NameOf, Register;
    var gs' := RunGroup(gs, a);
    assert ([a] + picks + [b])[0] == a && ([a] + picks + [b])[1..] == picks + [b];
    LegalSplit(gs', picks, b);
    StepInherits(gs, a, gs[b].after, b);
    RunGroupKeepsInv(gs, a);
    DescendantsInherited(gs', picks, gs'[b].after, b);
    DescendantsKeep(gs', picks, gs'[b].after, c);
    ReadyMeans(After(gs', picks), b, c);
    RegisterAllKeys(gs - {a}, Some(a), Registrations(gs[a].funcs), c);
    if c !in picks { PendingUntilPicked(gs', picks, c); }
  }

  lemma {:induction false} DescendantsKeep(gs: Groups, picks: seq<Name>, d: set<Name>, x: Name)
    requires Legal(gs, picks) && x in d
    ensures x in Descendants(gs, picks, d)
    decreases |picks|
  {
    hide Ready, RunGroup, Registrations;
    if picks != [] {
      ReadyIsPending(gs, picks[0]);
      var n := picks[0];
      var d' := if n in d then d + RegisteredNames(Registrations(gs[n].funcs)) else d;
      DescendantsKeep(RunGroup(gs, n), picks[1..], d', x);
    }
  }
}
