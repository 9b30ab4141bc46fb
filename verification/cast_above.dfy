/** What the search above one dst_type reports, whatever it skips. */
module CastAbove {
  import opened ClassHierarchy
  import opened CastFindings
  import opened CastSearch

  /** What there is above a node: the subobject cast from, a public path to it, any static_type object. */
  datatype Met = Met(our: bool, pub: bool, any: bool)

  const NONE_MET := Met(false, false, false)

  function Both(a: Met, b: Met): Met {
    Met(a.our || b.our, a.pub || b.pub, a.any || b.any)
  }

  lemma BothIsUnion(a: Met, b: Met, c: Met)
    ensures Both(Both(a, b), c) == Both(a, Both(b, c)) && Both(Both(a, b), b) == Both(a, b)
  {
  }

  function Via(m: Met, isPublic: bool): Met {
    m.(pub := isPublic && m.pub)
  }

  ghost function MetAt(q: Query, c: ClassInfo, p: Ptr): Met {
    Met(Reaches(q.vt, c, p, q.staticType, q.staticPtr),
        PubliclyReaches(q.vt, c, p, q.staticType, q.staticPtr),
        DerivesFrom(c, q.staticType))
  }

  ghost function MetAtBase(q: Query, p: Ptr, b: Base): Met {
    Via(MetAt(q, b.cls, BaseAddress(q.vt, p, b)), b.isPublic)
  }

  /** The same, through the bases of c from index i on. */
  ghost function MetFrom(q: Query, c: ClassInfo, p: Ptr, i: nat): Met {
    Met(exists j | i <= j < |Bases(c)| :: MetAtBase(q, p, Bases(c)[j]).our,
        exists j | i <= j < |Bases(c)| :: MetAtBase(q, p, Bases(c)[j]).pub,
        exists j | i <= j < |Bases(c)| :: MetAtBase(q, p, Bases(c)[j]).any)
  }

  lemma MetInOrder(q: Query, c: ClassInfo, p: Ptr)
    ensures MetAt(q, c, p).pub ==> MetAt(q, c, p).our
    ensures MetAt(q, c, p).our ==> MetAt(q, c, p).any
  {
    if MetAt(q, c, p).pub { PublicPathIsPath(q.vt, c, p, q.staticType, q.staticPtr); }
    if MetAt(q, c, p).our { ReachedClassIsBase(q.vt, c, p, q.staticType, q.staticPtr); }
  }

  lemma MetFromInOrder(q: Query, c: ClassInfo, p: Ptr, i: nat)
    ensures MetFrom(q, c, p, i).pub ==> MetFrom(q, c, p, i).our
    ensures MetFrom(q, c, p, i).our ==> MetFrom(q, c, p, i).any
  {
    forall j | i <= j < |Bases(c)|
      ensures MetAtBase(q, p, Bases(c)[j]).pub ==> MetAtBase(q, p, Bases(c)[j]).our
      ensures MetAtBase(q, p, Bases(c)[j]).our ==> MetAtBase(q, p, Bases(c)[j]).any
    {
      MetInOrder(q, Bases(c)[j].cls, BaseAddress(q.vt, p, Bases(c)[j]));
    }
  }

  lemma MetAtStaticType(q: Query, p: Ptr)
    ensures MetAt(q, q.staticType, p) == Met(p == q.staticPtr, p == q.staticPtr, true)
  {
    MetInOrder(q, q.staticType, p);
    if MetAt(q, q.staticType, p).our { ReachesOwnClassOnlyHere(q.vt, q.staticType, p, q.staticPtr); }
  }

  lemma MetAboveIsMetInBases(q: Query, c: ClassInfo, p: Ptr)
    requires c != q.staticType
    ensures MetAt(q, c, p) == MetFrom(q, c, p, 0)
  {
  }

  lemma MetInNextBase(q: Query, c: ClassInfo, p: Ptr, i: nat)
    requires i < |Bases(c)|
    ensures MetFrom(q, c, p, i) == Both(MetAtBase(q, p, Bases(c)[i]), MetFrom(q, c, p, i + 1))
  {
  }

  /** Stopping above a class without a shared base: the subobject was met through base i, so not beyond. */
  lemma StopWithoutSharedBase(q: Query, c: ClassInfo, p: Ptr, i: nat)
    requires i < |Bases(c)| && NoSharedBase(q.vt, c, p)
    requires MetAtBase(q, p, Bases(c)[i]).our
    ensures !MetFrom(q, c, p, i + 1).our
  {
  }

  /** Stopping above a class without a repeated one: another static_type object was met through
      base i, so the subobject cast from is not above c at all. */
  lemma StopWithoutRepeatedClass(q: Query, c: ClassInfo, p: Ptr, i: nat)
    requires i < |Bases(c)| && NoRepeatedClass(q.vt, c, p)
    requires MetAtBase(q, p, Bases(c)[i]).any && !MetAtBase(q, p, Bases(c)[i]).our
    ensures !MetFrom(q, c, p, i + 1).our
  {
    var r := BaseHasSubobject(q.vt, Bases(c)[i].cls, BaseAddress(q.vt, p, Bases(c)[i]), q.staticType);
    assert Reaches(q.vt, c, p, q.staticType, r);
    if MetFrom(q, c, p, i + 1).our {
      assert Reaches(q.vt, c, p, q.staticType, q.staticPtr);
    }
  }

  /** The part of the state that a search above a dst_type changes, apart from the found flags. */
  datatype Route = Route(dstLeading: Ptr, access: Access, number: nat, done: bool)

  function RouteOf(s: State): Route {
    Route(s.dstLeading, s.pathDstToStatic, s.numberToStatic, s.done)
  }

  /** The route after m has been met above the dst_type at d; `only` says that there is no other. */
  function Take(only: bool, d: Ptr, r: Route, m: Met): Route {
    if !m.our then r
    else if r.dstLeading == NULL then Route(d, AccessOf(m.pub), 1, only && m.pub)
    else if r.dstLeading == d then
      var pub := m.pub || r.access == PublicPath;
      r.(access := AccessOf(pub), done := only && pub)
    else r.(number := r.number + 1, done := true)
  }

  /** The search may enter a node with this state. */
  predicate Enterable(only: bool, r: Route, d: Ptr) {
    && d != NULL && !r.done
    && (r.dstLeading == d ==> r.access != Unknown && !(only && r.access == PublicPath))
  }

  lemma TakeTwice(only: bool, d: Ptr, r: Route, m: Met, n: Met)
    requires d != NULL && !Take(only, d, r, m).done && (m.pub ==> m.our) && (n.pub ==> n.our)
    ensures Take(only, d, Take(only, d, r, m), n) == Take(only, d, r, Both(m, n))
  {
  }

  /** Only the route and the found flags change. */
  predicate ChangesRoute(s: State, t: State) {
    t == s.(dstLeading := t.dstLeading, pathDstToStatic := t.pathDstToStatic, numberToStatic := t.numberToStatic,
            foundOur := t.foundOur, foundAny := t.foundAny, done := t.done)
  }

  lemma {:induction false} SearchAboveChangesRoute(q: Query, s: State, c: ClassInfo, d: Ptr, p: Ptr, path: Access)
    ensures ChangesRoute(s, SearchAboveDst(q, s, c, d, p, path))
    decreases c, 1, 0
  {
    if c != q.staticType {
      match c
      case NoBase(_) =>
      case SingleBase(_, base) => SearchAboveChangesRoute(q, s, base, d, p, path);
      case MultiBase(_, _, _, _) => SearchAboveBasesChangesRoute(q, s, c, d, p, path, 0, s.foundOur, s.foundAny);
    }
  }

  lemma {:induction false} SearchAboveBasesChangesRoute(q: Query, s: State, c: ClassInfo, d: Ptr, p: Ptr, path: Access, i: nat,
                                                        our: bool, any: bool)
    requires c.MultiBase? && i <= |c.bases|
    ensures ChangesRoute(s, SearchAboveBases(q, s, c, d, p, path, i, our, any))
    decreases c, 0, |c.bases| - i
  {
    if !(i == |c.bases| || (i > 0 && StopAbove(s, c.diamondShaped, c.nonDiamondRepeat))) {
      var b := c.bases[i];
      var t := SearchAboveBaseAt(q, s, c, d, p, path, i);
      SearchAboveChangesRoute(q, ClearFound(s), b.cls, d, BaseAddress(q.vt, p, b), PathThrough(b, path));
      SearchAboveBasesChangesRoute(q, t, c, d, p, path, i + 1, our || t.foundOur, any || t.foundAny);
    }
  }

  /** The search above (c, p) reports exactly what there is above (c, p), although it may stop early. */
  lemma {:induction false} SearchAboveReports(q: Query, s: State, c: ClassInfo, d: Ptr, p: Ptr, path: Access)
    requires Sound(q.vt, c, p) && path != Unknown
    requires Enterable(s.numberOfDstType == 1, RouteOf(s), d) && !s.foundOur && !s.foundAny
    ensures var t := SearchAboveDst(q, s, c, d, p, path);
      && RouteOf(t) == Take(s.numberOfDstType == 1, d, RouteOf(s), Via(MetAt(q, c, p), path == PublicPath))
      && FlagsTell(t, MetAt(q, c, p))
    decreases c, 1, 0
  {
    if c == q.staticType {
      MetAtStaticType(q, p);
    } else {
      MetAboveIsMetInBases(q, c, p);
      match c
      case NoBase(_) =>
      case SingleBase(_, base) =>
        assert Bases(c)[0] == Base(base, true, false, 0);
        SearchAboveReports(q, s, base, d, p, path);
      case MultiBase(_, _, _, _) =>
        SearchAboveBasesReports(q, s, RouteOf(s), c, d, p, path, 0, s.foundOur, s.foundAny, NONE_MET);
    }
  }

  /** Before base i: m was met through the bases before it, and the search came from the route r. */
  ghost predicate AboveSoFar(q: Query, s: State, r: Route, c: ClassInfo, d: Ptr, p: Ptr, pub: bool, i: nat,
                             our: bool, any: bool, m: Met)
    requires c.MultiBase? && i <= |c.bases|
  {
    && Enterable(s.numberOfDstType == 1, r, d)
    && RouteOf(s) == Take(s.numberOfDstType == 1, d, r, Via(m, pub)) && (m.pub ==> m.our)
    && (!s.done ==> our == m.our && any == m.any)
    && (if i == 0 then m == NONE_MET
        else FlagsTell(s, MetAtBase(q, p, c.bases[i-1])) && Both(m, MetAtBase(q, p, c.bases[i-1])) == m)
  }

  /** The same from base i on, when m was met through the bases before it. */
  lemma {:induction false} SearchAboveBasesReports(q: Query, s: State, r: Route, c: ClassInfo, d: Ptr, p: Ptr, path: Access,
                                                   i: nat, our: bool, any: bool, m: Met)
    requires c.MultiBase? && i <= |c.bases| && Sound(q.vt, c, p) && path != Unknown
    requires AboveSoFar(q, s, r, c, d, p, path == PublicPath, i, our, any, m)
    ensures var t := SearchAboveBases(q, s, c, d, p, path, i, our, any);
      && RouteOf(t) == Take(s.numberOfDstType == 1, d, r, Via(Both(m, MetFrom(q, c, p, i)), path == PublicPath))
      && FlagsTell(t, Both(m, MetFrom(q, c, p, i)))
    decreases c, 0, |c.bases| - i
  {
    if i == |c.bases| {
    } else if i > 0 && StopAbove(s, c.diamondShaped, c.nonDiamondRepeat) {
      StopAboveIsSafe(q, s, r, c, d, p, path == PublicPath, i, our, any, m);
    } else {
      var t, n := SearchAboveBaseAt(q, s, c, d, p, path, i), MetAtBase(q, p, c.bases[i]);
      SearchAboveBaseReports(q, s, r, c, d, p, path, i, our, any, m);
      SearchAboveBasesReports(q, t, r, c, d, p, path, i + 1, our || t.foundOur, any || t.foundAny, Both(m, n));
      MetInNextBase(q, c, p, i);
      BothIsUnion(m, n, MetFrom(q, c, p, i + 1));
    }
  }

  /** One more base, when m was met through the bases before it. */
  lemma {:induction false} SearchAboveBaseReports(q: Query, s: State, r: Route, c: ClassInfo, d: Ptr, p: Ptr, path: Access,
                                                  i: nat, our: bool, any: bool, m: Met)
    requires c.MultiBase? && i < |c.bases| && Sound(q.vt, c, p) && path != Unknown
    requires AboveSoFar(q, s, r, c, d, p, path == PublicPath, i, our, any, m) && !s.done
    ensures var t, n := SearchAboveBaseAt(q, s, c, d, p, path, i), MetAtBase(q, p, c.bases[i]);
      && AboveSoFar(q, t, r, c, d, p, path == PublicPath, i + 1, our || t.foundOur, any || t.foundAny, Both(m, n))
      && t.numberOfDstType == s.numberOfDstType && (!t.done && t.foundOur ==> t.foundAny)
    decreases c, 0, 0
  {
    var only, pub := s.numberOfDstType == 1, path == PublicPath;
    var b := c.bases[i];
    assert b == Bases(c)[i];
    SearchAboveReports(q, ClearFound(s), b.cls, d, BaseAddress(q.vt, p, b), PathThrough(b, path));
    SearchAboveChangesRoute(q, ClearFound(s), b.cls, d, BaseAddress(q.vt, p, b), PathThrough(b, path));
    MetInOrder(q, b.cls, BaseAddress(q.vt, p, b));
    TakeTwice(only, d, r, Via(m, pub), Via(MetAtBase(q, p, b), pub));
  }

  /** While the search goes on, the found flags say what was met. */
  predicate FlagsTell(s: State, m: Met) {
    !s.done ==> s.foundOur == m.our && s.foundAny == m.any
  }

  /** Stopping before base i changes nothing that the search would still report. */
  lemma StopAboveIsSafe(q: Query, s: State, r: Route, c: ClassInfo, d: Ptr, p: Ptr, pub: bool, i: nat,
                        our: bool, any: bool, m: Met)
    requires c.MultiBase? && 0 < i <= |c.bases| && Sound(q.vt, c, p)
    requires AboveSoFar(q, s, r, c, d, p, pub, i, our, any, m)
    requires StopAbove(s, c.diamondShaped, c.nonDiamondRepeat)
    ensures RouteOf(s) == Take(s.numberOfDstType == 1, d, r, Via(Both(m, MetFrom(q, c, p, i)), pub))
    ensures !s.done ==> our == Both(m, MetFrom(q, c, p, i)).our && any == Both(m, MetFrom(q, c, p, i)).any
  {
    MetFromInOrder(q, c, p, i);
    MetInOrder(q, c.bases[i-1].cls, BaseAddress(q.vt, p, c.bases[i-1]));
    if !s.done {
      if s.foundOur {
        if s.pathDstToStatic != PublicPath { StopWithoutSharedBase(q, c, p, i - 1); }
      } else {
        StopWithoutRepeatedClass(q, c, p, i - 1);
      }
    }
  }
}
