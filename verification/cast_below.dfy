/** The state that the search of the whole graph leaves stands for what a complete search finds, as far
    as the answer depends on it; hence the answer is the one that the rule in words gives. */
module CastBelow {
  import opened ClassHierarchy
  import opened CastFindings
  import opened CastSearch
  import opened CastAbove

  // ----- one dst_type

  /** One round of the loop over the bases of dst_type, in the terms of the loop above a class. */
  lemma DecideLeadsNextBase(q: Query, s: State, d: Ptr, i: nat, points: bool, derived: bool)
    requires q.dstType.MultiBase? && i < |q.dstType.bases|
    requires var t := SearchAboveBaseAt(q, s, q.dstType, d, d, PublicPath, i); !t.done && t.foundOur ==> t.foundAny
    ensures var t := SearchAboveBaseAt(q, s, q.dstType, d, d, PublicPath, i);
      var (u, points', derived') := DecideLeadsBases(q, s, d, i, points, derived);
      if StopAbove(t, q.dstType.diamondShaped, q.dstType.nonDiamondRepeat) then
        u == t && (!t.done ==> points' == (points || t.foundOur) && derived' == (derived || t.foundAny))
      else
        (u, points', derived') == DecideLeadsBases(q, t, d, i + 1, points || t.foundOur, derived || t.foundAny)
  {
  }

  lemma {:induction false} DecideLeadsBasesReports(q: Query, s: State, r: Route, d: Ptr, i: nat, points: bool, derived: bool, m: Met)
    requires q.dstType.MultiBase? && i <= |q.dstType.bases| && Sound(q.vt, q.dstType, d)
    requires AboveSoFar(q, s, r, q.dstType, d, d, true, i, points, derived, m) && !s.done
    ensures var (t, points', derived') := DecideLeadsBases(q, s, d, i, points, derived);
      && RouteOf(t) == Take(s.numberOfDstType == 1, d, r, Both(m, MetFrom(q, q.dstType, d, i)))
      && (!t.done ==> points' == Both(m, MetFrom(q, q.dstType, d, i)).our && derived' == Both(m, MetFrom(q, q.dstType, d, i)).any)
    decreases |q.dstType.bases| - i
  {
    var c := q.dstType;
    if i < |c.bases| {
      var t, n := SearchAboveBaseAt(q, s, c, d, d, PublicPath, i), MetAtBase(q, d, c.bases[i]);
      SearchAboveBaseReports(q, s, r, c, d, d, PublicPath, i, points, derived, m);
      assert Both(m, MetFrom(q, c, d, i)) == Both(Both(m, n), MetFrom(q, c, d, i + 1)) by {
        MetInNextBase(q, c, d, i);
        BothIsUnion(m, n, MetFrom(q, c, d, i + 1));
      }
      DecideLeadsNextBase(q, s, d, i, points, derived);
      if StopAbove(t, c.diamondShaped, c.nonDiamondRepeat) {
        StopAboveIsSafe(q, t, r, c, d, d, true, i + 1, points || t.foundOur, derived || t.foundAny, Both(m, n));
      } else {
        DecideLeadsBasesReports(q, t, r, d, i + 1, points || t.foundOur, derived || t.foundAny, Both(m, n));
      }
    }
  }

  lemma {:induction false} DecideLeadsBasesChangesRoute(q: Query, s: State, d: Ptr, i: nat, points: bool, derived: bool)
    requires q.dstType.MultiBase? && i <= |q.dstType.bases|
    ensures ChangesRoute(s, DecideLeadsBases(q, s, d, i, points, derived).0)
    decreases |q.dstType.bases| - i
  {
    var c := q.dstType;
    if i < |c.bases| {
      var t := SearchAboveBaseAt(q, s, c, d, d, PublicPath, i);
      var b := c.bases[i];
      SearchAboveChangesRoute(q, ClearFound(s), b.cls, d, BaseAddress(q.vt, d, b), PublicPath);
      SearchAboveChangesRoute(q, ClearFound(s), b.cls, d, BaseAddress(q.vt, d, b), NotPublicPath);
      assert ChangesRoute(s, t);
      DecideLeadsBasesChangesRoute(q, t, d, i + 1, points, derived);
      DecideLeadsBasesChangesRoute(q, t, d, i + 1, points, true);
      DecideLeadsBasesChangesRoute(q, t, d, i + 1, true, true);
    }
  }

  /** The dst_type at d was not looked at before. */
  ghost predicate NewDst(q: Query, s: State, d: Ptr) {
    && CalledFor(q) && Sound(q.vt, q.dstType, d)
    && d != NULL && d != s.dstLeading && !s.done && s.numberOfDstType == 0
    && (s.dstDerived == No ==> !DerivesFrom(q.dstType, q.staticType))
  }

  lemma {:induction false} DecideLeadsReports(q: Query, s: State, d: Ptr)
    requires NewDst(q, s, d)
    ensures var (t, points) := DecideLeads(q, s, d);
      && ChangesRoute(s, t.(dstDerived := s.dstDerived))
      && RouteOf(t) == Take(false, d, RouteOf(s), MetAt(q, q.dstType, d))
      && (!t.done ==> points == Leads(q, d) && (t.dstDerived == No ==> !DerivesFrom(q.dstType, q.staticType)))
  {
    var c := q.dstType;
    MetInOrder(q, c, d);
    MetAboveIsMetInBases(q, c, d);
    if s.dstDerived != No {
      match c
      case NoBase(_) =>
      case SingleBase(_, base) =>
        assert Bases(c)[0] == Base(base, true, false, 0);
        SearchAboveReports(q, ClearFound(s), base, d, d, PublicPath);
        SearchAboveChangesRoute(q, ClearFound(s), base, d, d, PublicPath);
        MetInOrder(q, base, d);
      case MultiBase(_, _, _, _) =>
        DecideLeadsBasesReports(q, s, RouteOf(s), d, 0, false, false, NONE_MET);
        DecideLeadsBasesChangesRoute(q, s, d, 0, false, false);
    }
  }

  // ----- what the state stands for

  /** A dst_type that leads publicly to the subobject cast from is known: the rest no longer matters. */
  ghost predicate Settled(q: Query, s: State) { s.dstLeading != NULL && LeadsPublicly(q, s.dstLeading) }

  ghost predicate Stands(q: Query, s: State, f: Findings) {
    && s.numberOfDstType == 0
    && (f.dsts == {} ==> !f.toDst)
    && if s.done then Hopeless(q, f) && Answer(s) == NULL
       else StandsForLeading(q, s, f) && (!Settled(q, s) ==> StandsForRest(q, s, f))
  }

  ghost predicate StandsForLeading(q: Query, s: State, f: Findings) {
    && (s.dstDerived == No ==> !DerivesFrom(q.dstType, q.staticType))
    && (s.dstNotLeading != NULL ==> s.dstNotLeading in f.dsts && !Leads(q, s.dstNotLeading))
    && if s.dstLeading == NULL then
         s.numberToStatic == 0 && s.pathDstToStatic == Unknown && forall d | d in f.dsts :: !Leads(q, d)
       else
         && s.numberToStatic == 1 && s.dstLeading in f.dsts && Leads(q, s.dstLeading)
         && (forall d | d in f.dsts && Leads(q, d) :: d == s.dstLeading)
         && s.pathDstToStatic == AccessOf(LeadsPublicly(q, s.dstLeading))
  }

  /** The dst_types that do not lead are counted up to two, and the paths are those to a single dst_type. */
  ghost predicate StandsForRest(q: Query, s: State, f: Findings) {
    && (s.dstNotLeading == NULL <==> s.numberToDst == 0)
    && (s.numberToDst == 0 ==> forall d | d in f.dsts :: Leads(q, d))
    && (s.numberToDst == 1 ==> forall d | d in f.dsts && !Leads(q, d) :: d == s.dstNotLeading)
    && (s.numberToDst >= 2 ==> exists d, e | d in f.dsts && e in f.dsts :: d != e && !Leads(q, d) && !Leads(q, e))
    && (s.pathDynamicToStatic == PublicPath <==> f.toStatic)
    && (forall d | f.dsts == {d} :: s.pathDynamicToDst == PublicPath <==> f.toDst)
  }

  /** No further finding can make the cast succeed. */
  ghost predicate Hopeless(q: Query, f: Findings) {
    (exists d, e | d in f.dsts && e in f.dsts :: d != e && Leads(q, d) && Leads(q, e)) ||
    (exists d, e | d in f.dsts && e in f.dsts :: Leads(q, d) && !LeadsPublicly(q, d) && !Leads(q, e))
  }

  lemma AddingChangesNothing(q: Query, s: State, f: Findings, more: Findings)
    requires Stands(q, s, f) && (more.dsts == {} ==> !more.toDst)
    requires s.done || (Settled(q, s) && forall d | d in more.dsts :: !Leads(q, d)) || more == NOTHING
    ensures Stands(q, s, Join(f, more))
  {
    if more == NOTHING { assert Join(f, more) == f; }
  }

  function FoundDst(d: Ptr, path: Access): Findings {
    Findings({d}, false, path == PublicPath)
  }

  /** A dst_type that was looked at before only contributes its path. */
  lemma RevisitStands(q: Query, s: State, f: Findings, d: Ptr, path: Access)
    requires Stands(q, s, f) && !s.done && d != NULL
    requires d == s.dstLeading || d == s.dstNotLeading
    ensures Stands(q, VisitDst(q, s, d, path), Join(f, FoundDst(d, path)))
  {
    assert Join(f, FoundDst(d, path)).dsts == f.dsts;
    assert f.dsts != {};
  }

  lemma NewDstStands(q: Query, s: State, f: Findings, d: Ptr, path: Access)
    requires Stands(q, s, f) && NewDst(q, s, d) && d != s.dstNotLeading
    ensures Stands(q, VisitDst(q, s, d, path), Join(f, FoundDst(d, path)))
  {
    var g := Join(f, FoundDst(d, path));
    var s' := s.(pathDynamicToDst := path);
    var (t, points) := DecideLeads(q, s', d);
    DecideLeadsReports(q, s', d);
    MetInOrder(q, q.dstType, d);
    if Leads(q, d) {
      if s.dstLeading != NULL {
        assert s.dstLeading in g.dsts && d in g.dsts;
      }
    } else {
      if s.dstLeading != NULL && !Settled(q, s) {
        assert s.dstLeading in g.dsts && d in g.dsts;
      }
    }
  }

  // ----- the whole graph

  ghost predicate NoNullDst(q: Query, c: ClassInfo, p: Ptr) {
    forall d | Reaches(q.vt, c, p, q.dstType, d) :: d != NULL
  }

  /** An object of the class cast from that no dst_type was met on the way to contributes its path, if it is the one. */
  lemma StaticTypeStands(q: Query, s: State, f: Findings, p: Ptr, path: Access)
    requires CalledFor(q) && Stands(q, s, f) && !s.done && path != Unknown
    ensures Stands(q, ProcessStaticTypeBelowDst(q, s, p, path), Join(f, Full(q, q.staticType, p, path == PublicPath)))
  {
  }

  /** The findings stay those of a complete search, although the search may stop early. */
  lemma {:induction false} SearchBelowStands(q: Query, s: State, f: Findings, c: ClassInfo, p: Ptr, path: Access)
    requires CalledFor(q) && Sound(q.vt, c, p) && NoNullDst(q, c, p) && path != Unknown
    requires Stands(q, s, f) && !s.done
    ensures Stands(q, SearchBelowDst(q, s, c, p, path), Join(f, Full(q, c, p, path == PublicPath)))
    decreases c, 1, 0
  {
    if c == q.staticType {
      StaticTypeStands(q, s, f, p, path);
    } else if c == q.dstType {
      assert Reaches(q.vt, c, p, q.dstType, p);
      if p == s.dstLeading || p == s.dstNotLeading {
        RevisitStands(q, s, f, p, path);
      } else {
        NewDstStands(q, s, f, p, path);
      }
    } else {
      var pub := path == PublicPath;
      match c
      case NoBase(_) =>
        assert Full(q, c, p, pub) == NOTHING;
        assert Join(f, NOTHING) == f;
      case SingleBase(_, base) =>
        assert Bases(c)[0] == Base(base, true, false, 0);
        assert FullFrom(q, c, p, pub, 1) == NOTHING;
        assert Full(q, c, p, pub) == Join(Full(q, base, p, pub), NOTHING) == Full(q, base, p, pub);
        forall d | Reaches(q.vt, base, p, q.dstType, d) ensures d != NULL { assert Reaches(q.vt, c, p, q.dstType, d); }
        SearchBelowStands(q, s, f, base, p, path);
      case MultiBase(_, _, _, _) =>
        SearchBelowMultiBaseStands(q, s, f, c, p, path);
    }
  }

  lemma {:induction false} SearchBelowMultiBaseStands(q: Query, s: State, f: Findings, c: ClassInfo, p: Ptr, path: Access)
    requires c.MultiBase? && c != q.staticType && c != q.dstType
    requires CalledFor(q) && Sound(q.vt, c, p) && NoNullDst(q, c, p) && path != Unknown
    requires Stands(q, s, f) && !s.done
    ensures Stands(q, SearchBelowDst(q, s, c, p, path), Join(f, Full(q, c, p, path == PublicPath)))
    decreases c, 0, |c.bases|
  {
    var t := SearchBelowBaseAt(q, s, c, p, path, 0);
    var g := Full(q, c.bases[0].cls, BaseAddress(q.vt, p, c.bases[0]), path == PublicPath && c.bases[0].isPublic);
    SearchBelowBaseStands(q, s, f, c, p, path, 0);
    SearchBelowBasesStand(q, t, Join(f, g), c, p, path, 1, c.diamondShaped || t.numberToStatic == 1);
    assert Full(q, c, p, path == PublicPath) == Join(g, FullFrom(q, c, p, path == PublicPath, 1));
    JoinIsUnion(f, g, FullFrom(q, c, p, path == PublicPath, 1));
  }

  lemma JoinIsUnion(a: Findings, b: Findings, c: Findings)
    ensures Join(Join(a, b), c) == Join(a, Join(b, c))
  {
  }

  lemma {:induction false} SearchBelowBaseStands(q: Query, s: State, f: Findings, c: ClassInfo, p: Ptr, path: Access, i: nat)
    requires c.MultiBase? && i < |c.bases|
    requires CalledFor(q) && Sound(q.vt, c, p) && NoNullDst(q, c, p) && path != Unknown
    requires Stands(q, s, f) && !s.done
    ensures var b := c.bases[i];
      Stands(q, SearchBelowBaseAt(q, s, c, p, path, i),
             Join(f, Full(q, b.cls, BaseAddress(q.vt, p, b), path == PublicPath && b.isPublic)))
    decreases c, 0, 0
  {
    var b := c.bases[i];
    assert b == Bases(c)[i];
    forall d | Reaches(q.vt, b.cls, BaseAddress(q.vt, p, b), q.dstType, d) ensures d != NULL {
      assert Reaches(q.vt, c, p, q.dstType, d);
    }
    SearchBelowStands(q, s, f, b.cls, BaseAddress(q.vt, p, b), PathThrough(b, path));
  }

  /** A dst_type that leads to the subobject cast from was found, if at all, above one of the first i bases of c. */
  ghost predicate LeadingIsAbove(q: Query, s: State, c: ClassInfo, p: Ptr, i: nat) {
    s.done || s.dstLeading == NULL ||
    exists j | 0 <= j < i <= |Bases(c)| :: Reaches(q.vt, Bases(c)[j].cls, BaseAddress(q.vt, p, Bases(c)[j]), q.dstType, s.dstLeading)
  }

  lemma {:induction false} SearchBelowBasesStand(q: Query, s: State, f: Findings, c: ClassInfo, p: Ptr, path: Access, i: nat,
                                                 thorough: bool)
    requires c.MultiBase? && 0 < i <= |c.bases|
    requires CalledFor(q) && Sound(q.vt, c, p) && NoNullDst(q, c, p) && path != Unknown
    requires Stands(q, s, f)
    requires !thorough ==> !c.diamondShaped && LeadingIsAbove(q, s, c, p, i)
    ensures Stands(q, SearchBelowBases(q, s, c, p, path, i, thorough), Join(f, FullFrom(q, c, p, path == PublicPath, i)))
    decreases c, 0, |c.bases| - i
  {
    var pub := path == PublicPath;
    if i == |c.bases| {
      assert Join(f, NOTHING) == f;
    } else if StopBelow(s, thorough, c.nonDiamondRepeat) {
      StopBelowIsSafe(q, s, f, c, p, pub, i, thorough);
    } else {
      var b := c.bases[i];
      var t := SearchBelowBaseAt(q, s, c, p, path, i);
      var g := Full(q, b.cls, BaseAddress(q.vt, p, b), pub && b.isPublic);
      SearchBelowBaseStands(q, s, f, c, p, path, i);
      if !thorough { LeadingIsStillAbove(q, s, f, t, c, p, pub, i); }
      SearchBelowBasesStand(q, t, Join(f, g), c, p, path, i + 1, thorough);
      JoinIsUnion(f, g, FullFrom(q, c, p, pub, i + 1));
    }
  }

  lemma LeadingIsStillAbove(q: Query, s: State, f: Findings, t: State, c: ClassInfo, p: Ptr, pub: bool, i: nat)
    requires CalledFor(q) && i < |Bases(c)|
    requires Stands(q, s, f) && !s.done && LeadingIsAbove(q, s, c, p, i)
    requires var b := Bases(c)[i]; Stands(q, t, Join(f, Full(q, b.cls, BaseAddress(q.vt, p, b), pub && b.isPublic)))
    ensures LeadingIsAbove(q, t, c, p, i + 1)
  {
    var b := Bases(c)[i];
    if !t.done && t.dstLeading != NULL {
      FullFindsDst(q, b.cls, BaseAddress(q.vt, p, b), pub && b.isPublic, t.dstLeading);
    }
  }

  lemma StopBelowIsSafe(q: Query, s: State, f: Findings, c: ClassInfo, p: Ptr, pub: bool, i: nat, thorough: bool)
    requires c.MultiBase? && 0 < i < |c.bases| && CalledFor(q) && Sound(q.vt, c, p)
    requires Stands(q, s, f) && StopBelow(s, thorough, c.nonDiamondRepeat)
    requires !thorough ==> !c.diamondShaped && LeadingIsAbove(q, s, c, p, i)
    ensures Stands(q, s, Join(f, FullFrom(q, c, p, pub, i)))
  {
    var more := FullFrom(q, c, p, pub, i);
    FullFromFindsPathToDst(q, c, p, pub, i);
    if !s.done {
      var j :| 0 <= j < i && Reaches(q.vt, Bases(c)[j].cls, BaseAddress(q.vt, p, Bases(c)[j]), q.dstType, s.dstLeading);
      ReachesTransitive(q.vt, Bases(c)[j].cls, BaseAddress(q.vt, p, Bases(c)[j]), q.dstType, s.dstLeading, q.staticType, q.staticPtr);
      NothingLeadsBeyond(q, c, p, pub, i, j);
      if !c.nonDiamondRepeat { NothingIsBeyond(q, c, p, pub, i, j, s.dstLeading); }
    }
    AddingChangesNothing(q, s, f, more);
  }

  lemma NothingLeadsBeyond(q: Query, c: ClassInfo, p: Ptr, pub: bool, i: nat, j: nat)
    requires CalledFor(q) && NoSharedBase(q.vt, c, p) && j < i <= |Bases(c)|
    requires Reaches(q.vt, Bases(c)[j].cls, BaseAddress(q.vt, p, Bases(c)[j]), q.staticType, q.staticPtr)
    ensures forall d | d in FullFrom(q, c, p, pub, i).dsts :: !Leads(q, d)
  {
    forall d | d in FullFrom(q, c, p, pub, i).dsts ensures !Leads(q, d) {
      FullFromFindsDst(q, c, p, pub, i, d);
      var k :| i <= k < |Bases(c)| && Reaches(q.vt, Bases(c)[k].cls, BaseAddress(q.vt, p, Bases(c)[k]), q.dstType, d);
      if Leads(q, d) {
        ReachesTransitive(q.vt, Bases(c)[k].cls, BaseAddress(q.vt, p, Bases(c)[k]), q.dstType, d, q.staticType, q.staticPtr);
      }
    }
  }

  lemma NothingIsBeyond(q: Query, c: ClassInfo, p: Ptr, pub: bool, i: nat, j: nat, d: Ptr)
    requires CalledFor(q) && NoSharedBase(q.vt, c, p) && NoRepeatedClass(q.vt, c, p) && j < i <= |Bases(c)|
    requires Reaches(q.vt, Bases(c)[j].cls, BaseAddress(q.vt, p, Bases(c)[j]), q.dstType, d)
    requires Reaches(q.vt, Bases(c)[j].cls, BaseAddress(q.vt, p, Bases(c)[j]), q.staticType, q.staticPtr)
    ensures FullFrom(q, c, p, pub, i) == NOTHING
  {
    var more := FullFrom(q, c, p, pub, i);
    assert Reaches(q.vt, c, p, q.dstType, d);
    forall e | e in more.dsts ensures false {
      FullFromFindsDst(q, c, p, pub, i, e);
      assert Reaches(q.vt, c, p, q.dstType, e);
    }
    assert more.dsts == {};
    FullFromFindsStatic(q, c, p, pub, i);
    FullFromFindsPathToDst(q, c, p, pub, i);
    if more.toStatic {
      var k :| i <= k < |Bases(c)| && Bases(c)[k].isPublic &&
        PubliclyReaches(q.vt, Bases(c)[k].cls, BaseAddress(q.vt, p, Bases(c)[k]), q.staticType, q.staticPtr);
      PublicPathIsPath(q.vt, Bases(c)[k].cls, BaseAddress(q.vt, p, Bases(c)[k]), q.staticType, q.staticPtr);
    }
  }

  // ----- the answer

  lemma InitialStands(q: Query)
    ensures Stands(q, INITIAL, NOTHING)
  {
  }

  lemma AnswerIsCastTarget(q: Query, s: State, c: ClassInfo, p: Ptr)
    requires CalledFor(q) && NoNullDst(q, c, p)
    requires Stands(q, s, Full(q, c, p, true)) && Answer(s) != NULL
    ensures CastsTo(q, c, p, Answer(s))
  {
    var f, r := Full(q, c, p, true), Answer(s);
    FullDecidesRule(q, c, p);
    assert forall e :: Flavor1(q, c, p, e) <==> e in f.dsts && Leads(q, e);
    assert forall e :: Flavor2(q, c, p, e) <==> e in f.dsts && !Leads(q, e);
    if s.numberToStatic == 0 || s.pathDstToStatic != PublicPath {
      assert !s.done && !Settled(q, s) && r in f.dsts;
      forall e | e in f.dsts ensures e == r {}
      assert f.dsts == {r};
      assert !LeadsPublicly(q, r) by { MetInOrder(q, q.dstType, r); }
    }
  }

  lemma CastTargetIsAnswer(q: Query, s: State, c: ClassInfo, p: Ptr, d: Ptr)
    requires CalledFor(q) && NoNullDst(q, c, p)
    requires Stands(q, s, Full(q, c, p, true)) && CastsTo(q, c, p, d)
    ensures Answer(s) == d && d != NULL
  {
    var f := Full(q, c, p, true);
    FullDecidesRule(q, c, p);
    assert forall e :: Flavor1(q, c, p, e) <==> e in f.dsts && Leads(q, e);
    assert forall e :: Flavor2(q, c, p, e) <==> e in f.dsts && !Leads(q, e);
    MetInOrder(q, q.dstType, d);
    if !LeadsPublicly(q, d) {
      forall e | e in f.dsts ensures e == d { assert Flavor1(q, c, p, e) || Flavor2(q, c, p, e); }
      assert d in f.dsts;
      assert f.dsts == {d};
    }
  }

  /** What the state stands for decides the rule as the rule demands. */
  lemma AnswerIsCastResult(q: Query, s: State, c: ClassInfo, p: Ptr)
    requires CalledFor(q) && NoNullDst(q, c, p)
    requires Stands(q, s, Full(q, c, p, true))
    ensures IsCastResult(q, c, p, Answer(s))
  {
    if Answer(s) != NULL {
      AnswerIsCastTarget(q, s, c, p);
    } else {
      forall d | CastsTo(q, c, p, d) ensures false { CastTargetIsAnswer(q, s, c, p, d); }
    }
  }

  /** __dynamic_cast returns what the rule in words says, for every class hierarchy whose flags hold. */
  lemma DynamicCastFollowsRule(q: Query, c: ClassInfo, p: Ptr)
    requires CalledFor(q) && Sound(q.vt, c, p) && NoNullDst(q, c, p)
    ensures IsCastResult(q, c, p, DynamicCast(q, c, p))
  {
    if c == q.dstType {
      ShortCutFollowsRule(q, c, p);
    } else {
      var s := SearchBelowDst(q, INITIAL, c, p, PublicPath);
      InitialStands(q);
      SearchBelowStands(q, INITIAL, NOTHING, c, p, PublicPath);
      assert Join(NOTHING, Full(q, c, p, true)) == Full(q, c, p, true);
      AnswerIsCastResult(q, s, c, p);
    }
  }

  /** Casting to the class of the complete object only needs a public path. */
  lemma ShortCutFollowsRule(q: Query, c: ClassInfo, p: Ptr)
    requires c == q.dstType && CalledFor(q) && Sound(q.vt, c, p) && NoNullDst(q, c, p)
    ensures DynamicCast(q, c, p) == (if PubliclyReaches(q.vt, c, p, q.staticType, q.staticPtr) then p else NULL)
    ensures IsCastResult(q, c, p, DynamicCast(q, c, p))
  {
    assert Reaches(q.vt, c, p, q.dstType, p);
    SearchAboveReports(q, INITIAL.(numberOfDstType := 1), c, p, p, PublicPath);
    MetInOrder(q, c, p);
    forall d | IsDst(q, c, p, d) ensures d == p { ReachesOwnClassOnlyHere(q.vt, c, p, d); }
    assert PubliclyReaches(q.vt, c, p, q.dstType, p);
  }
}
