/** What a complete search of the base-class graph finds, and the rule in words that a
    dynamic_cast follows.  Nothing here stops early. */
module CastFindings {
  import opened ClassHierarchy

  /** One dynamic_cast: the class cast to, and the subobject cast from. */
  datatype Query = Query(dstType: ClassInfo, staticPtr: Ptr, staticType: ClassInfo, vt: VTables)

  /** The dst_type object at d is derived from the subobject cast from: flavor 1 if it is, flavor 2 if not. */
  ghost predicate Leads(q: Query, d: Ptr) {
    Reaches(q.vt, q.dstType, d, q.staticType, q.staticPtr)
  }

  ghost predicate LeadsPublicly(q: Query, d: Ptr) {
    PubliclyReaches(q.vt, q.dstType, d, q.staticType, q.staticPtr)
  }

  /** What the compiler guarantees of the classes named in a call: the cast is neither to nor from
      the same class, and goes down the hierarchy. */
  ghost predicate CalledFor(q: Query) {
    q.dstType != q.staticType && !DerivesFrom(q.staticType, q.dstType)
  }

  /** The objects of class dst_type in the graph above (c, p), found without looking above
      an object of either class; whether a public path led to the subobject cast from with no
      dst_type on it; and whether a public path led to some dst_type.  A path counts as public
      only if the path to (c, p) was. */
  datatype Findings = Findings(dsts: set<Ptr>, toStatic: bool, toDst: bool)

  const NOTHING := Findings({}, false, false)

  function Join(a: Findings, b: Findings): Findings {
    Findings(a.dsts + b.dsts, a.toStatic || b.toStatic, a.toDst || b.toDst)
  }

  ghost function Full(q: Query, c: ClassInfo, p: Ptr, isPublic: bool): Findings
    decreases c, 1, 0
  {
    if c == q.staticType then Findings({}, p == q.staticPtr && isPublic, false)
    else if c == q.dstType then Findings({p}, false, isPublic)
    else FullFrom(q, c, p, isPublic, 0)
  }

  /** The findings above the bases of c from index i on. */
  ghost function FullFrom(q: Query, c: ClassInfo, p: Ptr, isPublic: bool, i: nat): Findings
    requires i <= |Bases(c)|
    decreases c, 0, |Bases(c)| - i
  {
    if i == |Bases(c)| then NOTHING
    else
      var b := Bases(c)[i];
      Join(Full(q, b.cls, BaseAddress(q.vt, p, b), isPublic && b.isPublic), FullFrom(q, c, p, isPublic, i + 1))
  }

  /** Where the rule for a cast that lands on dst_type objects `dsts` comes from: the text of the
      comment above __dynamic_cast, for the complete object (c, p). */
  ghost predicate IsDst(q: Query, c: ClassInfo, p: Ptr, d: Ptr) { Reaches(q.vt, c, p, q.dstType, d) }

  ghost predicate Flavor1(q: Query, c: ClassInfo, p: Ptr, d: Ptr) { IsDst(q, c, p, d) && Leads(q, d) }

  ghost predicate Flavor2(q: Query, c: ClassInfo, p: Ptr, d: Ptr) { IsDst(q, c, p, d) && !Leads(q, d) }

  ghost predicate PublicBothWays(q: Query, c: ClassInfo, p: Ptr, d: Ptr) {
    PubliclyReaches(q.vt, c, p, q.staticType, q.staticPtr) && PubliclyReaches(q.vt, c, p, q.dstType, d)
  }

  /** The cast succeeds with d. */
  ghost predicate CastsTo(q: Query, c: ClassInfo, p: Ptr, d: Ptr) {
    ( && Flavor1(q, c, p, d)
      && (forall e | Flavor1(q, c, p, e) :: e == d)
      && (LeadsPublicly(q, d) || ((forall e :: !Flavor2(q, c, p, e)) && PublicBothWays(q, c, p, d)))
    ) ||
    ( && (forall e :: !Flavor1(q, c, p, e))
      && Flavor2(q, c, p, d)
      && (forall e | Flavor2(q, c, p, e) :: e == d)
      && PublicBothWays(q, c, p, d)
    )
  }

  /** The rule in words: r is the object cast to, or null if there is none. */
  ghost predicate IsCastResult(q: Query, c: ClassInfo, p: Ptr, r: Ptr) {
    if exists d :: CastsTo(q, c, p, d) then CastsTo(q, c, p, r) else r == NULL
  }

  lemma {:induction false} CastTargetIsUnique(q: Query, c: ClassInfo, p: Ptr, d: Ptr, e: Ptr)
    requires CastsTo(q, c, p, d) && CastsTo(q, c, p, e)
    ensures d == e
  {
  }

  // ----- the complete search finds what the rule speaks about

  lemma {:induction false} FullFromFindsDst(q: Query, c: ClassInfo, p: Ptr, b: bool, i: nat, d: Ptr)
    requires CalledFor(q) && i <= |Bases(c)|
    ensures d in FullFrom(q, c, p, b, i).dsts <==>
      exists j | i <= j < |Bases(c)| :: Reaches(q.vt, Bases(c)[j].cls, BaseAddress(q.vt, p, Bases(c)[j]), q.dstType, d)
    decreases c, 0, |Bases(c)| - i
  {
    if i < |Bases(c)| {
      var s := Bases(c)[i];
      FullFindsDst(q, s.cls, BaseAddress(q.vt, p, s), b && s.isPublic, d);
      FullFromFindsDst(q, c, p, b, i + 1, d);
    }
  }

  lemma {:induction false} FullFindsDst(q: Query, c: ClassInfo, p: Ptr, b: bool, d: Ptr)
    requires CalledFor(q)
    ensures d in Full(q, c, p, b).dsts <==> Reaches(q.vt, c, p, q.dstType, d)
    decreases c, 1, 0
  {
    if c == q.staticType {
      if Reaches(q.vt, c, p, q.dstType, d) { ReachedClassIsBase(q.vt, c, p, q.dstType, d); }
    } else if c == q.dstType {
      if Reaches(q.vt, c, p, q.dstType, d) { ReachesOwnClassOnlyHere(q.vt, c, p, d); }
    } else {
      FullFromFindsDst(q, c, p, b, 0, d);
    }
  }

  /** A public path to the subobject cast from either meets no dst_type, or goes through one that
      leads there publicly. */
  lemma {:induction false} FullFindsStatic(q: Query, c: ClassInfo, p: Ptr, b: bool)
    requires CalledFor(q)
    ensures Full(q, c, p, b).toStatic ==> b && PubliclyReaches(q.vt, c, p, q.staticType, q.staticPtr)
    ensures b && PubliclyReaches(q.vt, c, p, q.staticType, q.staticPtr) ==>
      Full(q, c, p, b).toStatic || exists d :: d in Full(q, c, p, b).dsts && LeadsPublicly(q, d)
    decreases c, 1, 0
  {
    if c == q.staticType {
      if PubliclyReaches(q.vt, c, p, q.staticType, q.staticPtr) {
        PublicPathIsPath(q.vt, c, p, q.staticType, q.staticPtr);
        ReachesOwnClassOnlyHere(q.vt, c, p, q.staticPtr);
      }
    } else if c == q.dstType {
    } else {
      FullFromFindsStatic(q, c, p, b, 0);
    }
  }

  lemma {:induction false} FullFromFindsStatic(q: Query, c: ClassInfo, p: Ptr, b: bool, i: nat)
    requires CalledFor(q) && i <= |Bases(c)|
    ensures FullFrom(q, c, p, b, i).toStatic ==> b && PublicFrom(q.vt, c, p, i, q.staticType, q.staticPtr)
    ensures b && PublicFrom(q.vt, c, p, i, q.staticType, q.staticPtr) ==>
      FullFrom(q, c, p, b, i).toStatic || exists d :: d in FullFrom(q, c, p, b, i).dsts && LeadsPublicly(q, d)
    decreases c, 0, |Bases(c)| - i
  {
    if i < |Bases(c)| {
      var s := Bases(c)[i];
      FullFindsStatic(q, s.cls, BaseAddress(q.vt, p, s), b && s.isPublic);
      FullFromFindsStatic(q, c, p, b, i + 1);
    }
  }

  ghost predicate PublicFrom(vt: VTables, c: ClassInfo, p: Ptr, i: nat, t: ClassInfo, r: Ptr) {
    exists j | i <= j < |Bases(c)| ::
      Bases(c)[j].isPublic && PubliclyReaches(vt, Bases(c)[j].cls, BaseAddress(vt, p, Bases(c)[j]), t, r)
  }

  /** If there is a single dst_type, the recorded access is that of the best path to it. */
  lemma {:induction false} FullFindsPathToDst(q: Query, c: ClassInfo, p: Ptr, b: bool)
    requires CalledFor(q)
    ensures Full(q, c, p, b).toDst ==> exists d :: d in Full(q, c, p, b).dsts && b && PubliclyReaches(q.vt, c, p, q.dstType, d)
    ensures b && (exists d :: PubliclyReaches(q.vt, c, p, q.dstType, d)) ==> Full(q, c, p, b).toDst
    decreases c, 1, 0
  {
    if c == q.staticType {
      forall d | PubliclyReaches(q.vt, c, p, q.dstType, d) ensures false {
        PublicPathIsPath(q.vt, c, p, q.dstType, d);
        ReachedClassIsBase(q.vt, c, p, q.dstType, d);
      }
    } else if c == q.dstType {
      assert PubliclyReaches(q.vt, c, p, q.dstType, p);
    } else {
      FullFromFindsPathToDst(q, c, p, b, 0);
      forall d | PubliclyReaches(q.vt, c, p, q.dstType, d) ensures PublicFrom(q.vt, c, p, 0, q.dstType, d) {}
    }
  }

  lemma {:induction false} FullFromFindsPathToDst(q: Query, c: ClassInfo, p: Ptr, b: bool, i: nat)
    requires CalledFor(q) && i <= |Bases(c)|
    ensures FullFrom(q, c, p, b, i).toDst ==>
      exists d :: d in FullFrom(q, c, p, b, i).dsts && b && PublicFrom(q.vt, c, p, i, q.dstType, d)
    ensures b && (exists d :: PublicFrom(q.vt, c, p, i, q.dstType, d)) ==> FullFrom(q, c, p, b, i).toDst
    decreases c, 0, |Bases(c)| - i
  {
    if i < |Bases(c)| {
      var s := Bases(c)[i];
      FullFindsPathToDst(q, s.cls, BaseAddress(q.vt, p, s), b && s.isPublic);
      FullFromFindsPathToDst(q, c, p, b, i + 1);
      var f := Full(q, s.cls, BaseAddress(q.vt, p, s), b && s.isPublic);
      if f.toDst {
        var d :| d in f.dsts && PubliclyReaches(q.vt, s.cls, BaseAddress(q.vt, p, s), q.dstType, d);
        assert PublicFrom(q.vt, c, p, i, q.dstType, d);
      }
      forall d | PublicFrom(q.vt, c, p, i, q.dstType, d)
        ensures (s.isPublic && PubliclyReaches(q.vt, s.cls, BaseAddress(q.vt, p, s), q.dstType, d))
             || PublicFrom(q.vt, c, p, i + 1, q.dstType, d)
      {
      }
    }
  }

  /** Of a complete object, the findings say all that the rule asks for. */
  lemma {:induction false} FullDecidesRule(q: Query, c: ClassInfo, p: Ptr)
    requires CalledFor(q)
    ensures forall d :: IsDst(q, c, p, d) <==> d in Full(q, c, p, true).dsts
    ensures (forall d | d in Full(q, c, p, true).dsts :: !LeadsPublicly(q, d)) ==>
      (PubliclyReaches(q.vt, c, p, q.staticType, q.staticPtr) <==> Full(q, c, p, true).toStatic)
    ensures forall d | Full(q, c, p, true).dsts == {d} ::
      PubliclyReaches(q.vt, c, p, q.dstType, d) <==> Full(q, c, p, true).toDst
  {
    var f := Full(q, c, p, true);
    forall d ensures IsDst(q, c, p, d) <==> d in f.dsts { FullFindsDst(q, c, p, true, d); }
    FullFindsStatic(q, c, p, true);
    FullFindsPathToDst(q, c, p, true);
  }
}
