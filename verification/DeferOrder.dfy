/**
 * Which groups come to wait for what a running function registers: exactly
 * those that list the running group by the time of the registration.
 */
module DeferOrder {
  import opened Wrappers
  import opened Defer

  /** This registration puts `x` into the after-set of group `b`. */
  predicate Says(q: Registration, b: Name, x: Name) { NameOf(q) == b && x in AfterNames(q) }

  predicate SaidBefore(rs: seq<Registration>, k: nat, b: Name, x: Name)
    requires k <= |rs|
  {
    exists j :: 0 <= j < k && Says(rs[j], b, x)
  }

  /** Group `b` lists `r` when registration `k` is made. */
  predicate ListedBy(gs: Groups, rs: seq<Registration>, k: nat, b: Name, r: Name)
    requires k <= |rs|
  {
    r in GroupOf(gs, b).after || SaidBefore(rs, k, b, r)
  }

  /** Some registration of `c` is made when `b` lists `r`. */
  predicate RegisteredInTime(gs: Groups, rs: seq<Registration>, b: Name, c: Name, r: Name)
  {
    exists k :: 0 <= k < |rs| && NameOf(rs[k]) == c && ListedBy(gs, rs, k, b, r)
  }

  lemma RegisterLists(gs: Groups, r: Name, q: Registration, b: Name)
    ensures r in GroupOf(Register(gs, Some(r), q), b).after <==> r in GroupOf(gs, b).after || Says(q, b, r)
  {
    hide AfterNames, FuncsIn, NameOf;
  }

  lemma RegisterPasses(gs: Groups, r: Name, q: Registration, b: Name, c: Name)
    requires b != c && c != r && !Falsy(r)
    ensures c in GroupOf(Register(gs, Some(r), q), b).after <==>
      c in GroupOf(gs, b).after || Says(q, b, c) || (NameOf(q) == c && r in GroupOf(gs, b).after)
  {
    hide AfterNames, FuncsIn, NameOf;
  }

  lemma SaidLater(rs: seq<Registration>, k: nat, b: Name, x: Name)
    requires 0 < k <= |rs|
    ensures SaidBefore(rs, k, b, x) <==> Says(rs[0], b, x) || SaidBefore(rs[1..], k - 1, b, x)
  {
    hide Says;
    if SaidBefore(rs, k, b, x) {
      var j :| 0 <= j < k && Says(rs[j], b, x);
      if j > 0 { assert rs[1..][j - 1] == rs[j]; }
    }
    if SaidBefore(rs[1..], k - 1, b, x) {
      var j :| 0 <= j < k - 1 && Says(rs[1..][j], b, x);
      assert rs[j + 1] == rs[1..][j];
    }
  }

  /** Making the first registration moves what is listed into the groups. */
  lemma ListedLater(gs: Groups, rs: seq<Registration>, k: nat, b: Name, r: Name)
    requires 0 < k <= |rs|
    ensures ListedBy(gs, rs, k, b, r) <==> ListedBy(Register(gs, Some(r), rs[0]), rs[1..], k - 1, b, r)
  {
    hide Register, Says, SaidBefore;
    RegisterLists(gs, r, rs[0], b);
    SaidLater(rs, k, b, r);
  }

  lemma InTimeLater(gs: Groups, rs: seq<Registration>, b: Name, c: Name, r: Name)
    requires rs != []
    ensures RegisteredInTime(gs, rs, b, c, r) <==>
      (NameOf(rs[0]) == c && r in GroupOf(gs, b).after)
      || RegisteredInTime(Register(gs, Some(r), rs[0]), rs[1..], b, c, r)
  {
    hide Register, Says, ListedBy, NameOf;
    var gs1 := Register(gs, Some(r), rs[0]);
    NothingSaidYet(gs, rs, b, r);
    if RegisteredInTime(gs, rs, b, c, r) {
      var k :| 0 <= k < |rs| && NameOf(rs[k]) == c && ListedBy(gs, rs, k, b, r);
      if k > 0 {
        ListedLater(gs, rs, k, b, r);
        assert rs[1..][k - 1] == rs[k];
      }
    }
    if RegisteredInTime(gs1, rs[1..], b, c, r) {
      var k :| 0 <= k < |rs[1..]| && NameOf(rs[1..][k]) == c && ListedBy(gs1, rs[1..], k, b, r);
      ListedLater(gs, rs, k + 1, b, r);
      assert rs[1..][k] == rs[k + 1];
    }
  }

  lemma NothingSaidYet(gs: Groups, rs: seq<Registration>, b: Name, r: Name)
    ensures ListedBy(gs, rs, 0, b, r) <==> r in GroupOf(gs, b).after
  {
  }

  /**
   * While `r` runs and makes the registrations `rs`, group `b` comes to wait for
   * group `c` exactly when it did before, when one of them says so, or when
   * `c` is registered at a moment at which `b` lists `r`.
   */
  lemma {:induction false} WaitsExactly(gs: Groups, r: Name, rs: seq<Registration>, b: Name, c: Name)
    requires b != c && c != r && !Falsy(r)
    ensures c in GroupOf(RegisterAll(gs, Some(r), rs), b).after <==>
      c in GroupOf(gs, b).after || SaidBefore(rs, |rs|, b, c) || RegisteredInTime(gs, rs, b, c, r)
    decreases |rs|
  {
    hide Register, Says, ListedBy, NameOf, SaidBefore, RegisteredInTime;
    if rs == [] {
      NoRegistrations(gs, r, b, c);
    } else {
      WaitsExactly(Register(gs, Some(r), rs[0]), r, rs[1..], b, c);
      RegisterPasses(gs, r, rs[0], b, c);
      SaidLater(rs, |rs|, b, c);
      InTimeLater(gs, rs, b, c, r);
    }
  }

  lemma NoRegistrations(gs: Groups, r: Name, b: Name, c: Name)
    ensures RegisterAll(gs, Some(r), []) == gs
    ensures !SaidBefore([], 0, b, c) && !RegisteredInTime(gs, [], b, c, r)
  {
  }

  /** Who lists the running group in the end: who did before, or was told to. */
  lemma {:induction false} ListsExactly(gs: Groups, r: Name, rs: seq<Registration>, b: Name)
    ensures r in GroupOf(RegisterAll(gs, Some(r), rs), b).after <==> ListedBy(gs, rs, |rs|, b, r)
    decreases |rs|
  {
    hide Register, Says, SaidBefore, ListedBy;
    if rs == [] {
      NothingSaidYet(gs, [], b, r);
    } else {
      ListsExactly(Register(gs, Some(r), rs[0]), r, rs[1..], b);
      ListedLater(gs, rs, |rs|, b, r);
    }
  }

  /** If group `c` is registered while `a` runs, at a moment at which `b` lists
      `a`, then `b` starts only after `c` has been started in between. */
  lemma RegisteredInTimeRunsFirst(gs: Groups, a: Name, picks: seq<Name>, b: Name, c: Name)
    requires Inv(gs) && Legal(gs, [a] + picks + [b]) && a in gs && b !in picks && b != c && c != a
    requires RegisteredInTime(gs - {a}, Registrations(gs[a].funcs), b, c, a)
    ensures c in picks
  {
    hide Ready, Inv, NameOf, Register, RegisteredInTime, Says, SaidBefore;
    var gs', rs := RunGroup(gs, a), Registrations(gs[a].funcs);
    assert ([a] + picks + [b])[0] == a && ([a] + picks + [b])[1..] == picks + [b];
    LegalSplit(gs', picks, b);
    RegistersSomething(gs, a, b, c);
    WaitsExactly(gs - {a}, a, rs, b, c);
    RunGroupKeepsInv(gs, a);
    DescendantsInherited(gs', picks, gs'[b].after, b);
    DescendantsKeep(gs', picks, gs'[b].after, c);
    ReadyMeans(After(gs', picks), b, c);
    RegisterAllKeys(gs - {a}, Some(a), rs, c);
    if c !in picks { PendingUntilPicked(gs', picks, c); }
  }

  /** A group that registers something has functions, so its name is a true context. */
  lemma RegistersSomething(gs: Groups, a: Name, b: Name, c: Name)
    requires Inv(gs) && a in gs && RegisteredInTime(gs - {a}, Registrations(gs[a].funcs), b, c, a)
    ensures !Falsy(a) && c in RegisteredNames(Registrations(gs[a].funcs))
  {
    hide Register, Says, ListedBy, NameOf;
    var rs := Registrations(gs[a].funcs);
    var k :| 0 <= k < |rs| && NameOf(rs[k]) == c && ListedBy(gs - {a}, rs, k, b, a);
    assert gs[a].funcs != [];
  }

  // ------------------------------------------------------------ a late listing

  const LATE: seq<Registration> :=
    [Registration(Some("c"), Some(Func("f", 1, [])), {}), Registration(Some("b"), None, {"a"})]

  const LATE_GROUPS: Groups := map[Named("a") := Group([Func("f", 0, LATE)], {})]

  /** The function of `a` registers `c`, then says that `b` comes after `a`: `b`
      starts while `c` is still pending. */
  lemma LateListingDoesNotWait()
    ensures Inv(LATE_GROUPS) && Legal(LATE_GROUPS, [Named("a"), Named("b")])
    ensures Named("c") in After(LATE_GROUPS, [Named("a"), Named("b")])
    ensures var gs := RunGroup(LATE_GROUPS, Named("a"));
      Named("b") in gs && Named("a") in gs[Named("b")].after && Named("c") !in gs[Named("b")].after
  {
    var a, b, c := Named("a"), Named("b"), Named("c");
    LateRegistrations();
    var gs := RunGroup(LATE_GROUPS, a);
    LateGroups();
    assert Ready(gs, b);
    assert RunGroup(gs, b) == gs - {b};
    assert [a, b][1..] == [b] && [b][1..] == [];
    assert Legal(gs - {b}, []) && After(gs - {b}, []) == gs - {b};
    assert Legal(gs, [b]) && After(gs, [b]) == gs - {b};
  }

  lemma LateRegistrations()
    ensures Registrations(LATE_GROUPS[Named("a")].funcs) == LATE
  {
    var fs := LATE_GROUPS[Named("a")].funcs;
    assert fs[1..] == [] && LATE + [] == LATE;
  }

  lemma LateGroups()
    ensures RunGroup(LATE_GROUPS, Named("a")) ==
      map[Named("c") := Group([Func("f", 1, [])], {}), Named("b") := Group([], {Named("a")})]
  {
    hide Register;
    LateRegistrations();
    var a := Some(Named("a"));
    assert LATE_GROUPS - {Named("a")} == map[];
    LateFirst();
    LateSecond();
    var gs1: Groups := map[Named("c") := Group([Func("f", 1, [])], {})];
    var gs2 := Register(gs1, a, LATE[1]);
    assert LATE[1..] == [LATE[1]] && LATE[1..][1..] == [];
    assert RegisterAll(gs2, a, []) == gs2;
    assert RegisterAll(gs1, a, LATE[1..]) == gs2;
  }

  lemma LateFirst()
    ensures Register(map[], Some(Named("a")), LATE[0]) == map[Named("c") := Group([Func("f", 1, [])], {})]
  {
    var f, none: seq<Func> := Func("f", 1, []), [];
    assert AfterNames(LATE[0]) == {};
    var noNames: set<Name> := {};
    assert none + [f] == [f] && noNames + noNames == noNames;
    assert NameOf(LATE[0]) == Named("c") && FuncsIn(LATE[0]) == [f] && GroupOf(map[], Named("c")) == Group([], {});
    assert Added(map[], LATE[0]) == map[Named("c") := Group([f], {})];
  }

  lemma LateSecond()
    ensures Register(map[Named("c") := Group([Func("f", 1, [])], {})], Some(Named("a")), LATE[1])
         == map[Named("c") := Group([Func("f", 1, [])], {}), Named("b") := Group([], {Named("a")})]
  {
    var gs1: Groups := map[Named("c") := Group([Func("f", 1, [])], {})];
    var none: seq<Func> := [];
    assert AfterNames(LATE[1]) == {Named("a")} by { assert Named("a") in AfterNames(LATE[1]); }
    var noNames: set<Name> := {};
    assert none + none == none && noNames + {Named("a")} == {Named("a")};
    assert NameOf(LATE[1]) == Named("b") && FuncsIn(LATE[1]) == none;
    assert "b" != "c" by { assert "b"[0] != "c"[0]; }
    assert GroupOf(gs1, Named("b")) == Group([], {});
    assert Added(gs1, LATE[1]) == gs1[Named("b") := Group([], {Named("a")})];
  }
}
