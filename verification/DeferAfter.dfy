/**
 * The after= argument, from the call of Defer to the order in which groups start.
 */
module DeferAfter {
  import opened Wrappers
  import opened Defer
  import opened DeferRuns
  import opened DeferRoot

  // ------------------------------------------------------------------ resolving

  /** Some element is this name, or the function of this name. */
  predicate Mentions(args: seq<AfterArg>, x: string)
  {
    ByName(x) in args || (x != "" && ByFunc(x) in args)
  }

  /** The argument is refused exactly when some element is neither a name, nor a
      function, nor None; otherwise it yields exactly the mentioned names. */
  lemma {:induction false} ResolveExact(args: seq<AfterArg>)
    ensures Resolve(args).None? <==> Other in args
    ensures Resolve(args).Some? ==> forall x :: x in Resolve(args).value <==> Mentions(args, x)
  {
    if args == [] {
    } else {
      ResolveExact(args[1..]);
      assert args == [args[0]] + args[1..];
      forall x ensures Mentions(args, x) <==> x in ArgNames(args[0]) || Mentions(args[1..], x) {
        MentionsFirst(args, x);
      }
    }
  }

  lemma MentionsFirst(args: seq<AfterArg>, x: string)
    requires args != []
    ensures Mentions(args, x) <==> x in ArgNames(args[0]) || Mentions(args[1..], x)
  {
    assert args == [args[0]] + args[1..];
  }

  /** The group a call goes to: the label unless it is missing or empty, else the
      function's name. */
  lemma GroupNameExact(r: Registration)
    ensures r.group.Some? && r.group.value != "" ==> NameOf(r) == Named(r.group.value)
    ensures (r.group == None || r.group == Some("")) && r.func.Some? ==> NameOf(r) == Named(r.func.value.name)
    ensures r.func == None ==> NameOf(r) == if r.group.Some? then Named(r.group.value) else NoName
  {
  }

  // ------------------------------------------------------------------- in the run

  lemma {:induction false} LegalPrefix(gs: Groups, picks: seq<Name>, k: nat)
    requires Legal(gs, picks) && k <= |picks|
    ensures Legal(gs, picks[..k])
    decreases |picks|
  {
    hide Ready, RunGroup;
    if k > 0 {
      ReadyIsPending(gs, picks[0]);
      LegalPrefix(RunGroup(gs, picks[0]), picks[1..], k - 1);
      assert picks[..k][1..] == picks[1..][..k - 1];
    }
  }

  /** In every legal run, a group that lists a pending one starts only after it. */
  lemma {:induction false} ListedStartsFirst(gs: Groups, a: Name, b: Name, picks: seq<Name>, i: nat)
    requires Inv(gs) && Legal(gs, picks) && i < |picks| && picks[i] == b
    requires a in gs && b in gs && a != b && a in gs[b].after
    ensures a in picks[..i]
    decreases i
  {
    hide Ready, RunGroup, Inv, Legal, Descendants;
    if b in picks[..i] {
      var j :| 0 <= j < i && picks[..i][j] == b;
      ListedStartsFirst(gs, a, b, picks, j);
      assert picks[..j] <= picks[..i];
    } else {
      var before := picks[..i];
      LegalPrefix(gs, picks, i);
      LegalPrefix(gs, picks, i + 1);
      assert picks[..i + 1] == before + [b];
      DescendantsKeep(gs, before, gs[b].after, a);
      StartsAfterDescendants(gs, before, b, a);
      if a !in before { PendingUntilPicked(gs, before, a); }
    }
  }

  /** The after-names of an argument that is not refused. */
  function AfterSet(args: seq<AfterArg>): set<string>
  {
    if Resolve(args).Some? then Resolve(args).value else {}
  }

  /** What two calls of Defer outside a run leave: first for `q`, then for `r`. */
  function TwoDefers(gs: Groups, q: Registration, r: Registration): Groups
  {
    Register(Register(gs, None, q), None, r)
  }

  /**
   * After Defer(f) and then Defer(g, after=f), in every legal run the group of g
   * starts only after the group of f has.
   */
  lemma FunctionAfterFunction(gs: Groups, f: Func, g: Func, picks: seq<Name>, i: nat)
    requires Inv(gs) && f.name != g.name
    requires var gs' := TwoDefers(gs, Registration(None, Some(f), AfterSet([])),
                                  Registration(None, Some(g), AfterSet([ByFunc(f.name)])));
      Legal(gs', picks) && i < |picks| && picks[i] == Named(g.name)
    ensures Named(f.name) in picks[..i]
  {
    hide Legal;
    ResolveExact([ByFunc(f.name)]);
    assert Mentions([ByFunc(f.name)], f.name);
    SecondWaits(gs, Registration(None, Some(f), AfterSet([])),
                Registration(None, Some(g), AfterSet([ByFunc(f.name)])), f.name, g.name, picks, i);
  }

  /** The same for groups by label: after Defer(f, a) and Defer(b, after=a). */
  lemma GroupAfterGroup(gs: Groups, f: Func, a: string, b: string, picks: seq<Name>, i: nat)
    requires Inv(gs) && a != b && a != "" && b != ""
    requires var gs' := TwoDefers(gs, Registration(Some(a), Some(f), AfterSet([])),
                                  Registration(Some(b), None, AfterSet([ByName(a)])));
      Legal(gs', picks) && i < |picks| && picks[i] == Named(b)
    ensures Named(a) in picks[..i]
  {
    hide Legal;
    ResolveExact([ByName(a)]);
    assert Mentions([ByName(a)], a);
    SecondWaits(gs, Registration(Some(a), Some(f), AfterSet([])),
                Registration(Some(b), None, AfterSet([ByName(a)])), a, b, picks, i);
  }

  lemma SecondWaits(gs: Groups, q: Registration, r: Registration, a: string, b: string, picks: seq<Name>, i: nat)
    requires Inv(gs) && a != b && NameOf(q) == Named(a) && NameOf(r) == Named(b) && a in r.after
    requires Legal(TwoDefers(gs, q, r), picks) && i < |picks| && picks[i] == Named(b)
    ensures Named(a) in picks[..i]
  {
    hide Legal;
    RegisterKeepsInv(gs, None, q);
    RegisterKeepsInv(Register(gs, None, q), None, r);
    assert Named(a) in AfterNames(r);
    ListedStartsFirst(TwoDefers(gs, q, r), Named(a), Named(b), picks, i);
  }

  /** A deferred function is called: when a run ends with no group left, its
      group's calls are what was there, the function, and what was registered
      during the run, in this order. */
  lemma DeferredIsCalled(gs: Groups, r: Registration, f: Func, picks: seq<Name>)
    requires r.func == Some(f) && Legal(Register(gs, None, r), picks) && After(Register(gs, None, r), picks) == map[]
    ensures var gs' := Register(gs, None, r);
      Called(gs', picks, NameOf(r)) == GroupOf(gs, NameOf(r)).funcs + [f] + RegisteredDuring(gs', picks, NameOf(r))
  {
    hide Called, RegisteredDuring, After, Legal, NameOf, Register;
    var gs', n := Register(gs, None, r), NameOf(r);
    CalledExactlyOnce(gs', picks, n);
    RegisterFuncs(gs, None, r, n);
    assert Called(gs', picks, n) + [] == Called(gs', picks, n);
  }
}
