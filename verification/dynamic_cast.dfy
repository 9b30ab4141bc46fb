/** __dynamic_cast with its shared mutable search state, each step proved to be the step of CastSearch. */
module DynamicCasting {
  import opened ClassHierarchy
  import opened CastFindings
  import opened CastSearch
  import opened CastAbove
  import opened CastBelow

  lemma NextAbove(q: Query, s: State, c: ClassInfo, d: Ptr, p: Ptr, path: Access, i: nat, our: bool, any: bool)
    requires c.MultiBase? && i < |c.bases| && !(i > 0 && StopAbove(s, c.diamondShaped, c.nonDiamondRepeat))
    ensures var t := SearchAboveBaseAt(q, s, c, d, p, path, i);
      SearchAboveBases(q, s, c, d, p, path, i, our, any) ==
      SearchAboveBases(q, t, c, d, p, path, i + 1, our || t.foundOur, any || t.foundAny)
  {
  }

  lemma FirstBelow(q: Query, s: State, c: ClassInfo, p: Ptr, path: Access)
    requires c.MultiBase? && c != q.staticType && c != q.dstType && |c.bases| > 0
    ensures var t := SearchBelowBaseAt(q, s, c, p, path, 0);
      SearchBelowDst(q, s, c, p, path) == SearchBelowBases(q, t, c, p, path, 1, c.diamondShaped || t.numberToStatic == 1)
  {
  }

  class DynamicCastInfo {
    const q: Query
    var dstLeading: Ptr
    var dstNotLeading: Ptr
    var pathDstToStatic: Access
    var pathDynamicToStatic: Access
    var pathDynamicToDst: Access
    var numberToStatic: nat
    var numberToDst: nat
    var dstDerived: Verdict
    var numberOfDstType: nat
    var foundOur: bool
    var foundAny: bool
    var done: bool

    ghost function S(): State
      reads this
    {
      State(dstLeading, dstNotLeading, pathDstToStatic, pathDynamicToStatic, pathDynamicToDst, numberToStatic,
            numberToDst, dstDerived, numberOfDstType, foundOur, foundAny, done)
    }

    constructor (q: Query)
      ensures this.q == q && S() == INITIAL
    {
      this.q := q;
      dstLeading, dstNotLeading := NULL, NULL;
      pathDstToStatic, pathDynamicToStatic, pathDynamicToDst := Unknown, Unknown, Unknown;
      numberToStatic, numberToDst, numberOfDstType := 0, 0, 0;
      dstDerived := Undetermined;
      foundOur, foundAny, done := false, false, false;
    }

    /** The route takes in a path to an object of the class cast from, and the found flags tell what was met. */
    method ProcessStaticTypeAboveDst(dstPtr: Ptr, currentPtr: Ptr, pathBelow: Access)
      modifies this
      ensures Enterable(numberOfDstType == 1, old(RouteOf(S())), dstPtr) && pathBelow != Unknown
              && !old(foundOur) && !old(foundAny) ==>
                var met := MetAt(q, q.staticType, currentPtr);
                && RouteOf(S()) == Take(numberOfDstType == 1, dstPtr, old(RouteOf(S())), Via(met, pathBelow == PublicPath))
                && FlagsTell(S(), met)
      ensures S() == CastSearch.ProcessStaticTypeAboveDst(q, old(S()), dstPtr, currentPtr, pathBelow)
    {
      MetAtStaticType(q, currentPtr);
      foundAny := true;
      if currentPtr == q.staticPtr {
        foundOur := true;
        if dstLeading == NULL {
          dstLeading := dstPtr;
          pathDstToStatic := pathBelow;
          numberToStatic := 1;
          if numberOfDstType == 1 && pathDstToStatic == PublicPath {
            done := true;
          }
        } else if dstLeading == dstPtr {
          if pathDstToStatic == NotPublicPath {
            pathDstToStatic := pathBelow;
          }
          if numberOfDstType == 1 && pathDstToStatic == PublicPath {
            done := true;
          }
        } else {
          numberToStatic := numberToStatic + 1;
          done := true;
        }
      }
    }

    /** What the state stands for takes in a path to an object of the class cast from that avoids every dst_type. */
    method ProcessStaticTypeBelowDst(currentPtr: Ptr, pathBelow: Access)
      modifies this
      ensures CalledFor(q) && pathBelow != Unknown && !old(done) ==>
        forall f | Stands(q, old(S()), f) ::
          Stands(q, S(), Join(f, Full(q, q.staticType, currentPtr, pathBelow == PublicPath)))
      ensures S() == CastSearch.ProcessStaticTypeBelowDst(q, old(S()), currentPtr, pathBelow)
    {
      ghost var s := S();
      if currentPtr == q.staticPtr {
        if pathDynamicToStatic != PublicPath {
          pathDynamicToStatic := pathBelow;
        }
      }
      if CalledFor(q) && pathBelow != Unknown && !s.done {
        forall f | Stands(q, s, f)
          ensures Stands(q, S(), Join(f, Full(q, q.staticType, currentPtr, pathBelow == PublicPath)))
        {
          StaticTypeStands(q, s, f, currentPtr, pathBelow);
        }
      }
    }

    method SearchAboveBase(b: Base, dstPtr: Ptr, currentPtr: Ptr, pathBelow: Access)
      requires HasBases(b.cls)
      modifies this
      ensures S() == CastSearch.SearchAboveDst(q, old(S()), b.cls, dstPtr, BaseAddress(q.vt, currentPtr, b), PathThrough(b, pathBelow))
      decreases b.cls, 2
    {
      SearchAboveDst(b.cls, dstPtr, BaseAddress(q.vt, currentPtr, b), if b.isPublic then pathBelow else NotPublicPath);
    }

    method SearchAboveDst(c: ClassInfo, dstPtr: Ptr, currentPtr: Ptr, pathBelow: Access)
      requires HasBases(c)
      modifies this
      ensures S() == CastSearch.SearchAboveDst(q, old(S()), c, dstPtr, currentPtr, pathBelow)
      decreases c, 1
    {
      if c == q.staticType {
        ProcessStaticTypeAboveDst(dstPtr, currentPtr, pathBelow);
      } else {
        match c
        case NoBase(_) =>
        case SingleBase(_, base) =>
          assert Bases(c)[0].cls == base;
          SearchAboveDst(base, dstPtr, currentPtr, pathBelow);
        case MultiBase(_, _, _, _) =>
          SearchAboveMultiBase(c, dstPtr, currentPtr, pathBelow);
      }
    }

    /** Clears the found flags and searches base i. */
    method SearchAboveFresh(c: ClassInfo, dstPtr: Ptr, currentPtr: Ptr, pathBelow: Access, i: nat)
      requires c.MultiBase? && i < |c.bases| && HasBases(c.bases[i].cls)
      modifies this
      ensures S() == SearchAboveBaseAt(q, old(S()), c, dstPtr, currentPtr, pathBelow, i)
      decreases c.bases[i].cls, 3
    {
      foundOur, foundAny := false, false;
      SearchAboveBase(c.bases[i], dstPtr, currentPtr, pathBelow);
    }

    method StopsAbove(c: ClassInfo) returns (stop: bool)
      requires c.MultiBase?
      ensures stop == StopAbove(S(), c.diamondShaped, c.nonDiamondRepeat)
    {
      if done {
        return true;
      }
      if foundOur {
        // a public path was found, or the only path there is
        if pathDstToStatic == PublicPath {
          return true;
        }
        if !c.diamondShaped {
          return true;
        }
      } else if foundAny {
        // another static_type was found, and there is no second one
        if !c.nonDiamondRepeat {
          return true;
        }
      }
      return false;
    }

    method SearchAboveMultiBase(c: ClassInfo, dstPtr: Ptr, currentPtr: Ptr, pathBelow: Access)
      requires c.MultiBase? && HasBases(c)
      modifies this
      ensures S() == SearchAboveBases(q, old(S()), c, dstPtr, currentPtr, pathBelow, 0, old(foundOur), old(foundAny))
      decreases c, 0
    {
      EachBaseHasBases(c);
      ghost var goal := SearchAboveBases(q, S(), c, dstPtr, currentPtr, pathBelow, 0, foundOur, foundAny);
      // the flags of the node below are kept while those of this one are gathered
      var our, any := foundOur, foundAny;
      NextAbove(q, S(), c, dstPtr, currentPtr, pathBelow, 0, our, any);
      SearchAboveFresh(c, dstPtr, currentPtr, pathBelow, 0);
      our, any := our || foundOur, any || foundAny;
      var i := 1;
      while i < |c.bases|
        invariant 1 <= i <= |c.bases|
        invariant SearchAboveBases(q, S(), c, dstPtr, currentPtr, pathBelow, i, our, any) == goal
      {
        var stop := StopsAbove(c);
        if stop {
          break;
        }
        NextAbove(q, S(), c, dstPtr, currentPtr, pathBelow, i, our, any);
        SearchAboveFresh(c, dstPtr, currentPtr, pathBelow, i);
        our, any := our || foundOur, any || foundAny;
        i := i + 1;
      }
      foundOur, foundAny := our, any;
    }

    /** Decides whether the dst_type at d leads to the subobject cast from. */
    method DecideLeads(d: Ptr) returns (points: bool)
      requires HasBases(q.dstType)
      modifies this
      ensures (S(), points) == CastSearch.DecideLeads(q, old(S()), d)
    {
      points := false;
      if dstDerived != No {
        match q.dstType
        case NoBase(_) =>
        case SingleBase(_, base) =>
          assert Bases(q.dstType)[0].cls == base;
          foundOur, foundAny := false, false;
          SearchAboveDst(base, d, d, PublicPath);
          var derived := false;
          if foundAny {
            derived := true;
            if foundOur {
              points := true;
            }
          }
          dstDerived := if derived then Yes else No;
        case MultiBase(_, _, _, _) =>
          var derived;
          points, derived := DecideLeadsMultiBase(d);
          dstDerived := if derived then Yes else No;
      }
    }

    method DecideLeadsMultiBase(d: Ptr) returns (points: bool, derived: bool)
      requires q.dstType.MultiBase? && HasBases(q.dstType)
      modifies this
      ensures (S(), points, derived) == DecideLeadsBases(q, old(S()), d, 0, false, false)
    {
      EachBaseHasBases(q.dstType);
      ghost var goal := DecideLeadsBases(q, S(), d, 0, false, false);
      points, derived := false, false;
      var i := 0;
      while i < |q.dstType.bases|
        invariant 0 <= i <= |q.dstType.bases|
        invariant DecideLeadsBases(q, S(), d, i, points, derived) == goal
      {
        SearchAboveFresh(q.dstType, d, d, PublicPath, i);
        if done {
          break;
        }
        if foundAny {
          derived := true;
          if foundOur {
            points := true;
            // a public path was found, or the only path there is
            if pathDstToStatic == PublicPath {
              break;
            }
            if !q.dstType.diamondShaped {
              break;
            }
          } else {
            // another static_type was found, and there is no second one
            if !q.dstType.nonDiamondRepeat {
              break;
            }
          }
        }
        i := i + 1;
      }
    }

    method CountNotLeading(d: Ptr)
      modifies this
      ensures S() == CastSearch.CountNotLeading(old(S()), d)
    {
      dstNotLeading := d;
      numberToDst := numberToDst + 1;
      if numberToStatic == 1 && pathDstToStatic == NotPublicPath {
        done := true;
      }
    }

    method VisitDst(d: Ptr, pathBelow: Access)
      requires HasBases(q.dstType)
      modifies this
      ensures S() == CastSearch.VisitDst(q, old(S()), d, pathBelow)
    {
      if d == dstLeading || d == dstNotLeading {
        if pathBelow == PublicPath {
          pathDynamicToDst := PublicPath;
        }
      } else {
        pathDynamicToDst := pathBelow;
        var points := DecideLeads(d);
        if !points {
          CountNotLeading(d);
        }
        if q.dstType.NoBase? {
          dstDerived := No;
        }
      }
    }

    method SearchBelowDst(c: ClassInfo, currentPtr: Ptr, pathBelow: Access)
      requires HasBases(c) && HasBases(q.dstType)
      modifies this
      ensures S() == CastSearch.SearchBelowDst(q, old(S()), c, currentPtr, pathBelow)
      decreases c, 1
    {
      if c == q.staticType {
        ProcessStaticTypeBelowDst(currentPtr, pathBelow);
      } else if c == q.dstType {
        VisitDst(currentPtr, pathBelow);
      } else {
        match c
        case NoBase(_) =>
        case SingleBase(_, base) =>
          assert Bases(c)[0].cls == base;
          SearchBelowDst(base, currentPtr, pathBelow);
        case MultiBase(_, _, _, _) =>
          SearchBelowMultiBase(c, currentPtr, pathBelow);
      }
    }

    method SearchBelowBase(b: Base, currentPtr: Ptr, pathBelow: Access)
      requires HasBases(b.cls) && HasBases(q.dstType)
      modifies this
      ensures S() == CastSearch.SearchBelowDst(q, old(S()), b.cls, BaseAddress(q.vt, currentPtr, b), PathThrough(b, pathBelow))
      decreases b.cls, 2
    {
      SearchBelowDst(b.cls, BaseAddress(q.vt, currentPtr, b), if b.isPublic then pathBelow else NotPublicPath);
    }

    method SearchBelowMultiBase(c: ClassInfo, currentPtr: Ptr, pathBelow: Access)
      requires c.MultiBase? && c != q.staticType && c != q.dstType && HasBases(c) && HasBases(q.dstType)
      modifies this
      ensures S() == CastSearch.SearchBelowDst(q, old(S()), c, currentPtr, pathBelow)
      decreases c, 0
    {
      EachBaseHasBases(c);
      FirstBelow(q, S(), c, currentPtr, pathBelow);
      SearchBelowBase(c.bases[0], currentPtr, pathBelow);
      ghost var goal := SearchBelowBases(q, S(), c, currentPtr, pathBelow, 1, c.diamondShaped || numberToStatic == 1);
      var i := 1;
      if c.diamondShaped || numberToStatic == 1 {
        while i < |c.bases|
          invariant 1 <= i <= |c.bases|
          invariant SearchBelowBases(q, S(), c, currentPtr, pathBelow, i, true) == goal
        {
          if done {
            break;
          }
          SearchBelowBase(c.bases[i], currentPtr, pathBelow);
          i := i + 1;
        }
      } else if c.nonDiamondRepeat {
        while i < |c.bases|
          invariant 1 <= i <= |c.bases|
          invariant SearchBelowBases(q, S(), c, currentPtr, pathBelow, i, false) == goal
        {
          if done {
            break;
          }
          if numberToStatic == 1 && pathDstToStatic == PublicPath {
            break;
          }
          SearchBelowBase(c.bases[i], currentPtr, pathBelow);
          i := i + 1;
        }
      } else {
        while i < |c.bases|
          invariant 1 <= i <= |c.bases|
          invariant SearchBelowBases(q, S(), c, currentPtr, pathBelow, i, false) == goal
        {
          if done {
            break;
          }
          if numberToStatic == 1 {
            break;
          }
          SearchBelowBase(c.bases[i], currentPtr, pathBelow);
          i := i + 1;
        }
      }
    }
  }

  /** Casts within the complete object of class dynamicType at dynamicPtr. */
  method DynamicCast(q: Query, dynamicType: ClassInfo, dynamicPtr: Ptr) returns (dstPtr: Ptr)
    requires CalledFor(q) && Sound(q.vt, dynamicType, dynamicPtr) && NoNullDst(q, dynamicType, dynamicPtr)
    requires HasBases(q.dstType)
    ensures IsCastResult(q, dynamicType, dynamicPtr, dstPtr)
  {
    CastBelow.DynamicCastFollowsRule(q, dynamicType, dynamicPtr);
    SoundHasBases(q.vt, dynamicType, dynamicPtr);
    dstPtr := NULL;
    var info := new DynamicCastInfo(q);
    if dynamicType == q.dstType {
      info.numberOfDstType := 1;
      info.SearchAboveDst(dynamicType, dynamicPtr, dynamicPtr, PublicPath);
      if info.pathDstToStatic == PublicPath {
        dstPtr := dynamicPtr;
      }
    } else {
      info.SearchBelowDst(dynamicType, dynamicPtr, PublicPath);
      if info.numberToStatic == 0 {
        if info.numberToDst == 1 && info.pathDynamicToStatic == PublicPath && info.pathDynamicToDst == PublicPath {
          dstPtr := info.dstNotLeading;
        }
      } else if info.numberToStatic == 1 {
        if info.pathDstToStatic == PublicPath ||
           (info.numberToDst == 0 && info.pathDynamicToStatic == PublicPath && info.pathDynamicToDst == PublicPath) {
          dstPtr := info.dstLeading;
        }
      }
    }
  }
}
