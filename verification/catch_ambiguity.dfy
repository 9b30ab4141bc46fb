/** When a handler catches an object although its class is an ambiguous base: the search goes on to the second base
    of a class after it has met a second address, and may come back to the first address. */
module CatchAmbiguity {
  import opened ClassHierarchy
  import opened CastSearch
  import opened CatchSearch

  datatype Found = Nowhere | At(address: Ptr)

  /** The address of the handler's class at the end of the first path to it. */
  function Leftmost(vt: VTables, h: ClassInfo, c: ClassInfo, p: Ptr): Found
    decreases c, 1, 0
  {
    if c == h then At(p) else LeftmostFrom(vt, h, c, p, 0)
  }

  function LeftmostFrom(vt: VTables, h: ClassInfo, c: ClassInfo, p: Ptr, i: nat): Found
    requires i <= |Bases(c)|
    decreases c, 0, |Bases(c)| - i
  {
    if i == |Bases(c)| then Nowhere
    else
      var l := Leftmost(vt, h, Bases(c)[i].cls, BaseAddress(vt, p, Bases(c)[i]));
      if l.At? then l else LeftmostFrom(vt, h, c, p, i + 1)
  }

  /** The handler's class is above (c, p) at another address than a. */
  ghost predicate ElsewhereAbove(vt: VTables, h: ClassInfo, c: ClassInfo, p: Ptr, a: Ptr) {
    exists q :: q != a && Reaches(vt, c, p, h, q)
  }

  ghost predicate ElsewhereAboveBase(vt: VTables, h: ClassInfo, c: ClassInfo, p: Ptr, a: Ptr, i: nat)
    requires i < |Bases(c)|
  {
    ElsewhereAbove(vt, h, Bases(c)[i].cls, BaseAddress(vt, p, Bases(c)[i]), a)
  }

  /** The subobjects of the handler's class on the paths that take the first or the second base of each class. */
  function AboveTwoBases(vt: VTables, h: ClassInfo, c: ClassInfo, p: Ptr, isPublic: bool): seq<Visit>
    decreases c
  {
    if c == h then [Visit(p, isPublic)]
    else
      var bs := Bases(c);
      (if |bs| > 0
       then AboveTwoBases(vt, h, bs[0].cls, BaseAddress(vt, p, bs[0]), isPublic && bs[0].isPublic) else [])
      + (if |bs| > 1
         then AboveTwoBases(vt, h, bs[1].cls, BaseAddress(vt, p, bs[1]), isPublic && bs[1].isPublic) else [])
  }

  /** The last of these subobjects are at a, and one of them is public. */
  predicate EndsPubliclyAt(vs: seq<Visit>, a: Ptr) {
    exists k | 0 <= k < |vs| :: vs[k].at == a && vs[k].isPublic && forall j | k < j < |vs| :: vs[j].at == a
  }

  predicate AllAt(vs: seq<Visit>, a: Ptr) {
    forall k | 0 <= k < |vs| :: vs[k].at == a
  }

  /**
   * The class that completes the ambiguity is on a path that takes, at each class, the first base with the handler's
   * class at another address than a. At some class on this path that is the first of several bases, and what the
   * second base adds ends publicly at a; at such classes further out it only adds subobjects at a.
   */
  ghost predicate ComesBack(vt: VTables, h: ClassInfo, c: ClassInfo, p: Ptr, a: Ptr, isPublic: bool)
    decreases c, 1, 0
  {
    c != h && ComesBackFrom(vt, h, c, p, a, isPublic, 0)
  }

  ghost predicate ComesBackFrom(vt: VTables, h: ClassInfo, c: ClassInfo, p: Ptr, a: Ptr, isPublic: bool, i: nat)
    requires i <= |Bases(c)|
    decreases c, 0, |Bases(c)| - i
  {
    i < |Bases(c)| &&
    var b := Bases(c)[i];
    if !ElsewhereAboveBase(vt, h, c, p, a, i) then ComesBackFrom(vt, h, c, p, a, isPublic, i + 1)
    else if i == 0 && |Bases(c)| > 1 then
      var second := Bases(c)[1];
      var vs := AboveTwoBases(vt, h, second.cls, BaseAddress(vt, p, second), isPublic && second.isPublic);
      || EndsPubliclyAt(vs, a)
      || (AllAt(vs, a) && ComesBack(vt, h, b.cls, BaseAddress(vt, p, b), a, isPublic && b.isPublic))
    else ComesBack(vt, h, b.cls, BaseAddress(vt, p, b), a, isPublic && b.isPublic)
  }

  /** The handler's class is an ambiguous base, and the search comes back to where it was met first. */
  ghost predicate CaughtThoughAmbiguous(vt: VTables, h: ClassInfo, c: ClassInfo, p: Ptr) {
    var l := Leftmost(vt, h, c, p);
    l.At? && ElsewhereAbove(vt, h, c, p, l.address) && ComesBack(vt, h, c, p, l.address, true)
  }

  // ----- the search after it has met two addresses

  lemma {:induction false} StoppedSearch(vt: VTables, h: ClassInfo, c: ClassInfo, p: Ptr, isPublic: bool, vs: seq<Visit>)
    requires TwoAddresses(vs)
    ensures Visits(vt, h, c, p, isPublic, vs) == vs + AboveTwoBases(vt, h, c, p, isPublic)
    decreases c, 1
  {
    hide TwoAddresses;
    if c != h {
      match c
      case NoBase(_) =>
      case SingleBase(_, base) =>
        assert Bases(c) == [Base(base, true, false, 0)];
        StoppedSearch(vt, h, base, p, isPublic, vs);
      case MultiBase(_, _, _, bs) =>
        if |bs| > 0 { StoppedBases(vt, h, c, p, isPublic, vs); }
    }
  }

  /** What base k adds to a search that has met two addresses. */
  function BaseVisits(vt: VTables, h: ClassInfo, c: ClassInfo, p: Ptr, isPublic: bool, k: nat): seq<Visit>
    requires k < |Bases(c)|
  {
    var b := Bases(c)[k];
    AboveTwoBases(vt, h, b.cls, BaseAddress(vt, p, b), isPublic && b.isPublic)
  }

  lemma AboveFirstAndSecond(vt: VTables, h: ClassInfo, c: ClassInfo, p: Ptr, isPublic: bool)
    requires c != h && |Bases(c)| > 0
    ensures var b := Bases(c)[0];
      BaseVisits(vt, h, c, p, isPublic, 0) == AboveTwoBases(vt, h, b.cls, BaseAddress(vt, p, b), isPublic && b.isPublic)
    ensures AboveTwoBases(vt, h, c, p, isPublic) ==
      BaseVisits(vt, h, c, p, isPublic, 0) + if |Bases(c)| > 1 then BaseVisits(vt, h, c, p, isPublic, 1) else []
  {
  }

  lemma StoppedBases(vt: VTables, h: ClassInfo, c: ClassInfo, p: Ptr, isPublic: bool, vs: seq<Visit>)
    requires c.MultiBase? && c != h && |c.bases| > 0 && TwoAddresses(vs)
    ensures Visits(vt, h, c, p, isPublic, vs) == vs + AboveTwoBases(vt, h, c, p, isPublic)
    decreases c, 0, 1
  {
    hide TwoAddresses, AboveTwoBases, BaseVisits;
    AboveFirstAndSecond(vt, h, c, p, isPublic);
    var b := Bases(c)[0];
    var ws := vs + BaseVisits(vt, h, c, p, isPublic, 0);
    StoppedSearch(vt, h, b.cls, BaseAddress(vt, p, b), isPublic && b.isPublic, vs);
    MoreAddresses(vs, ws);
    assert VisitsFrom(vt, h, c, p, isPublic, vs, 0) == VisitsFrom(vt, h, c, p, isPublic, ws, 1);
    if |c.bases| > 1 {
      StoppedSecondBase(vt, h, c, p, isPublic, ws);
    }
  }

  /** The second base is searched all the same, the third is not. */
  lemma StoppedSecondBase(vt: VTables, h: ClassInfo, c: ClassInfo, p: Ptr, isPublic: bool, ws: seq<Visit>)
    requires c.MultiBase? && |c.bases| > 1 && TwoAddresses(ws)
    ensures VisitsFrom(vt, h, c, p, isPublic, ws, 1) == ws + BaseVisits(vt, h, c, p, isPublic, 1)
    decreases c, 0, 0
  {
    var b := Bases(c)[1];
    StoppedSearch(vt, h, b.cls, BaseAddress(vt, p, b), isPublic && b.isPublic, ws);
    MoreAddresses(ws, Visits(vt, h, b.cls, BaseAddress(vt, p, b), isPublic && b.isPublic, ws));
  }

  lemma MoreAddresses(vs: seq<Visit>, ws: seq<Visit>)
    requires TwoAddresses(vs) && vs <= ws
    ensures TwoAddresses(ws) && ws[0] == vs[0]
  {
    var k :| 0 <= k < |vs| && vs[k].at != vs[0].at;
    assert ws[k].at != ws[0].at;
  }

  lemma SeenAfter(vs: seq<Visit>, us: seq<Visit>)
    requires vs != []
    ensures LastSeenPublic(vs + us) <==>
      EndsPubliclyAt(us, vs[0].at) || (AllAt(us, vs[0].at) && LastSeenPublic(vs))
  {
    var ws, a := vs + us, vs[0].at;
    assert forall k | 0 <= k < |vs| :: ws[k] == vs[k];
    assert forall k | 0 <= k < |us| :: ws[|vs| + k] == us[k];
    if LastSeenPublic(ws) {
      var k :| 0 <= k < |ws| && ws[k].at == ws[0].at && ws[k].isPublic && forall j | k < j < |ws| :: ws[j].at == ws[0].at;
      if k >= |vs| {
        assert us[k - |vs|].at == a && us[k - |vs|].isPublic
               && forall j | k - |vs| < j < |us| :: us[j] == ws[|vs| + j] && us[j].at == a;
      } else {
        assert vs[k].at == vs[0].at && vs[k].isPublic && forall j | k < j < |vs| :: vs[j].at == ws[j].at == vs[0].at;
        assert forall j | 0 <= j < |us| :: us[j].at == ws[|vs| + j].at == a;
      }
    }
    if EndsPubliclyAt(us, a) {
      var k :| 0 <= k < |us| && us[k].at == a && us[k].isPublic && forall j | k < j < |us| :: us[j].at == a;
      assert ws[|vs| + k].at == ws[0].at && ws[|vs| + k].isPublic
             && forall j | |vs| + k < j < |ws| :: ws[j] == us[j - |vs|] && ws[j].at == ws[0].at;
    } else if AllAt(us, a) && LastSeenPublic(vs) {
      var k :| 0 <= k < |vs| && vs[k].at == vs[0].at && vs[k].isPublic && forall j | k < j < |vs| :: vs[j].at == vs[0].at;
      forall j | k < j < |ws| ensures ws[j].at == ws[0].at {
        if j >= |vs| { assert ws[j] == us[j - |vs|]; }
      }
      assert ws[k].at == ws[0].at && ws[k].isPublic;
    }
  }

  // ----- the search until it has met two addresses

  /** What was met so far is at a only; if nothing was, a is where it will be met first. */
  predicate OnlyMetAt(vs: seq<Visit>, l: Found, a: Ptr) {
    if vs == [] then l == Nowhere || l == At(a) else vs[0].at == a && !TwoAddresses(vs)
  }

  /** Either nothing else is there, or it was met, and the search came back to a or it did not. */
  ghost predicate SearchedTo(ws: seq<Visit>, a: Ptr, elsewhere: bool, back: bool) {
    && (TwoAddresses(ws) <==> elsewhere)
    && (ws != [] ==> ws[0].at == a)
    && (elsewhere ==> (LastSeenPublic(ws) <==> back))
  }

  lemma {:induction false} Searched(vt: VTables, h: ClassInfo, c: ClassInfo, p: Ptr, a: Ptr, isPublic: bool, vs: seq<Visit>)
    requires OnlyMetAt(vs, Leftmost(vt, h, c, p), a)
    ensures SearchedTo(Visits(vt, h, c, p, isPublic, vs), a, ElsewhereAbove(vt, h, c, p, a),
                       ComesBack(vt, h, c, p, a, isPublic))
    decreases c, 1, 0
  {
    if c == h {
      var ws := vs + [Visit(p, isPublic)];
      AppendVisit(vs, Visit(p, isPublic));
      forall q | Reaches(vt, c, p, h, q) ensures q == p { ReachesOwnClassOnlyHere(vt, c, p, q); }
      assert Reaches(vt, c, p, h, p);
      assert vs != [] ==> ws[0] == vs[0];
    } else {
      match c
      case NoBase(_) =>
      case SingleBase(_, base) => SearchedSingle(vt, h, c, p, a, isPublic, vs);
      case MultiBase(_, _, _, _) =>
        SearchedFrom(vt, h, c, p, a, isPublic, vs, 0);
        assert ElsewhereAbove(vt, h, c, p, a) <==> exists i: nat | i < |Bases(c)| :: ElsewhereAboveBase(vt, h, c, p, a, i) by {
          ElsewhereIsAboveBase(vt, h, c, p, a);
        }
    }
  }

  lemma ElsewhereIsAboveBase(vt: VTables, h: ClassInfo, c: ClassInfo, p: Ptr, a: Ptr)
    requires c != h
    ensures ElsewhereAbove(vt, h, c, p, a) <==> exists i: nat | i < |Bases(c)| :: ElsewhereAboveBase(vt, h, c, p, a, i)
  {
    if q :| q != a && Reaches(vt, c, p, h, q) {
      var i :| 0 <= i < |Bases(c)| && Reaches(vt, Bases(c)[i].cls, BaseAddress(vt, p, Bases(c)[i]), h, q);
      assert ElsewhereAboveBase(vt, h, c, p, a, i);
    }
    if i: nat :| i < |Bases(c)| && ElsewhereAboveBase(vt, h, c, p, a, i) {
      var q :| q != a && Reaches(vt, Bases(c)[i].cls, BaseAddress(vt, p, Bases(c)[i]), h, q);
      assert Reaches(vt, c, p, h, q);
    }
  }

  lemma LeftmostOfSingle(vt: VTables, h: ClassInfo, c: ClassInfo, p: Ptr)
    requires c != h && c.SingleBase?
    ensures Leftmost(vt, h, c, p) == Leftmost(vt, h, c.base, p)
  {
    assert Bases(c) == [Base(c.base, true, false, 0)];
    assert LeftmostFrom(vt, h, c, p, 1) == Nowhere;
    assert LeftmostFrom(vt, h, c, p, 0) == Leftmost(vt, h, c.base, BaseAddress(vt, p, Bases(c)[0]));
  }

  lemma {:induction false} SearchedSingle(vt: VTables, h: ClassInfo, c: ClassInfo, p: Ptr, a: Ptr, isPublic: bool, vs: seq<Visit>)
    requires c != h && c.SingleBase? && OnlyMetAt(vs, Leftmost(vt, h, c, p), a)
    ensures SearchedTo(Visits(vt, h, c, p, isPublic, vs), a, ElsewhereAbove(vt, h, c, p, a),
                       ComesBack(vt, h, c, p, a, isPublic))
    decreases c, 0, 0
  {
    assert Bases(c) == [Base(c.base, true, false, 0)];
    LeftmostOfSingle(vt, h, c, p);
    assert !ComesBackFrom(vt, h, c, p, a, isPublic, 1);
    Searched(vt, h, c.base, p, a, isPublic, vs);
    ElsewhereIsAboveBase(vt, h, c, p, a);
    assert ElsewhereAboveBase(vt, h, c, p, a, 0) <==> ElsewhereAbove(vt, h, c.base, p, a);
  }

  ghost predicate ElsewhereFrom(vt: VTables, h: ClassInfo, c: ClassInfo, p: Ptr, a: Ptr, i: nat) {
    exists j: nat | i <= j < |Bases(c)| :: ElsewhereAboveBase(vt, h, c, p, a, j)
  }

  /** From base i on, when the bases before it added nothing elsewhere. */
  lemma {:induction false} SearchedFrom(vt: VTables, h: ClassInfo, c: ClassInfo, p: Ptr, a: Ptr, isPublic: bool,
                                        vs: seq<Visit>, i: nat)
    requires c != h && c.MultiBase? && i <= |c.bases| && OnlyMetAt(vs, LeftmostFrom(vt, h, c, p, i), a)
    ensures SearchedTo(VisitsFrom(vt, h, c, p, isPublic, vs, i), a, ElsewhereFrom(vt, h, c, p, a, i),
                       ComesBackFrom(vt, h, c, p, a, isPublic, i))
    decreases c, 0, |c.bases| - i
  {
    if i < |c.bases| {
      var b := Bases(c)[i];
      var x, pub := BaseAddress(vt, p, b), isPublic && b.isPublic;
      var ws := Visits(vt, h, b.cls, x, pub, vs);
      Searched(vt, h, b.cls, x, a, pub, vs);
      if !ElsewhereAboveBase(vt, h, c, p, a, i) {
        NothingMet(vt, h, b.cls, x, pub, vs);
        SearchedFrom(vt, h, c, p, a, isPublic, ws, i + 1);
        assert ElsewhereFrom(vt, h, c, p, a, i) <==> ElsewhereFrom(vt, h, c, p, a, i + 1);
      } else {
        assert ElsewhereFrom(vt, h, c, p, a, i);
        if i == 0 && |c.bases| > 1 {
          var second := Bases(c)[1];
          var us := AboveTwoBases(vt, h, second.cls, BaseAddress(vt, p, second), isPublic && second.isPublic);
          StoppedSecondBase(vt, h, c, p, isPublic, ws);
          MoreAddresses(ws, ws + us);
          SeenAfter(ws, us);
        }
      }
    }
  }

  /** A search that meets nothing changes nothing; one that does meets the leftmost first. */
  lemma {:induction false} NothingMet(vt: VTables, h: ClassInfo, c: ClassInfo, p: Ptr, isPublic: bool, vs: seq<Visit>)
    ensures var ws := Visits(vt, h, c, p, isPublic, vs);
      vs <= ws && (Leftmost(vt, h, c, p) == Nowhere ==> ws == vs) && (Leftmost(vt, h, c, p).At? ==> ws != [])
    decreases c, 1, 0
  {
    if c != h {
      match c
      case NoBase(_) => assert LeftmostFrom(vt, h, c, p, 0) == Nowhere;
      case SingleBase(_, base) =>
        LeftmostOfSingle(vt, h, c, p);
        NothingMet(vt, h, base, p, isPublic, vs);
      case MultiBase(_, _, _, _) => NothingMetFrom(vt, h, c, p, isPublic, vs, 0);
    }
  }

  lemma {:induction false} NothingMetFrom(vt: VTables, h: ClassInfo, c: ClassInfo, p: Ptr, isPublic: bool,
                                          vs: seq<Visit>, i: nat)
    requires c.MultiBase? && i <= |c.bases|
    ensures var ws, l := VisitsFrom(vt, h, c, p, isPublic, vs, i), LeftmostFrom(vt, h, c, p, i);
      vs <= ws && (l == Nowhere ==> ws == vs) && (l.At? ==> ws != [])
    decreases c, 0, |c.bases| - i
  {
    if i < |c.bases| {
      var b := Bases(c)[i];
      var ws := Visits(vt, h, b.cls, BaseAddress(vt, p, b), isPublic && b.isPublic, vs);
      NothingMet(vt, h, b.cls, BaseAddress(vt, p, b), isPublic && b.isPublic, vs);
      NothingMetFrom(vt, h, c, p, isPublic, ws, i + 1);
    }
  }

  // ----- when a handler matches

  lemma LeftmostIsReached(vt: VTables, h: ClassInfo, c: ClassInfo, p: Ptr)
    ensures Leftmost(vt, h, c, p) == Nowhere ==> Visits(vt, h, c, p, true, []) == []
    ensures Leftmost(vt, h, c, p).At? ==>
      var vs := Visits(vt, h, c, p, true, []);
      vs != [] && vs[0].at == Leftmost(vt, h, c, p).address
  {
    NothingMet(vt, h, c, p, true, []);
    var l := Leftmost(vt, h, c, p);
    if l.At? { Searched(vt, h, c, p, l.address, true, []); }
  }

  /** What the search says of a hierarchy, with nothing left of the search. */
  lemma SearchMeaning(vt: VTables, h: ClassInfo, c: ClassInfo, p: Ptr)
    ensures LastSeenPublic(Visits(vt, h, c, p, true, [])) <==>
      (exists q :: UnambiguousPublicBase(vt, h, c, p, q)) || CaughtThoughAmbiguous(vt, h, c, p)
  {
    var vs, l := Visits(vt, h, c, p, true, []), Leftmost(vt, h, c, p);
    VisitsDecide(vt, h, c, p);
    LeftmostIsReached(vt, h, c, p);
    if l.At? {
      Searched(vt, h, c, p, l.address, true, []);
      if ElsewhereAbove(vt, h, c, p, l.address) {
        forall q ensures !UnambiguousPublicBase(vt, h, c, p, q) {}
      } else {
        assert LastSeenPublic(vs) <==> UnambiguousPublicBase(vt, h, c, p, vs[0].at);
        forall q | UnambiguousPublicBase(vt, h, c, p, q) ensures q == vs[0].at {}
      }
    } else {
      forall q ensures !UnambiguousPublicBase(vt, h, c, p, q) { assert !Reaches(vt, c, p, h, q); }
    }
  }

  /**
   * Whether a handler of class h catches an object of class c at p, and where it then points: exactly the
   * unambiguous public bases are caught, and besides them the ambiguous ones that the search comes back to.
   */
  method CanCatch(vt: VTables, h: ClassInfo, c: ClassInfo, p: Ptr) returns (caught: bool, adjusted: Ptr)
    requires HasBases(c) && NoNullAt(vt, h, c, p)
    ensures caught <==> (exists q :: UnambiguousPublicBase(vt, h, c, p, q)) || CaughtThoughAmbiguous(vt, h, c, p)
    ensures caught ==> Leftmost(vt, h, c, p) == At(adjusted)
    ensures (exists q :: UnambiguousPublicBase(vt, h, c, p, q)) ==> UnambiguousPublicBase(vt, h, c, p, adjusted)
  {
    SearchMeaning(vt, h, c, p);
    if c == h {
      forall r | Reaches(vt, c, p, h, r) ensures r == p { ReachesOwnClassOnlyHere(vt, c, p, r); }
      assert UnambiguousPublicBase(vt, h, c, p, p);
      return true, p;
    }
    var info := new CatchInfo(h, vt);
    info.HasUnambiguousPublicBase(c, p, PublicPath, []);
    CaughtIfUnambiguous(vt, h, c, p, info.R());
    LeftmostIsReached(vt, h, c, p);
    if info.access == PublicPath {
      return true, info.leading;
    }
    return false, p;
  }

  /** The handler catches exactly what it should if and only if the hierarchy is not of that kind. */
  lemma CatchesRightlyUnless(vt: VTables, h: ClassInfo, c: ClassInfo, p: Ptr)
    ensures var caught := LastSeenPublic(Visits(vt, h, c, p, true, []));
      (caught <==> exists q :: UnambiguousPublicBase(vt, h, c, p, q)) <==> !CaughtThoughAmbiguous(vt, h, c, p)
  {
    SearchMeaning(vt, h, c, p);
    var l := Leftmost(vt, h, c, p);
    LeftmostIsReached(vt, h, c, p);
    if l.At? && ElsewhereAbove(vt, h, c, p, l.address) {
      VisitsAreReal(vt, h, c, p, true, []);
      assert Reaches(vt, c, p, h, l.address);
    }
  }

  // ----- hierarchies without shared subobjects

  /** No class met reaches one subobject of the handler's class through two of its bases. */
  ghost predicate Unshared(vt: VTables, h: ClassInfo, c: ClassInfo, p: Ptr)
    decreases c
  {
    && (forall i, j, q | 0 <= i < j < |Bases(c)| ::
          !(Reaches(vt, Bases(c)[i].cls, BaseAddress(vt, p, Bases(c)[i]), h, q) &&
            Reaches(vt, Bases(c)[j].cls, BaseAddress(vt, p, Bases(c)[j]), h, q)))
    && forall i | 0 <= i < |Bases(c)| :: Unshared(vt, h, Bases(c)[i].cls, BaseAddress(vt, p, Bases(c)[i]))
  }

  /** Without virtual bases that are shared no handler catches an ambiguous base. */
  lemma UnsharedIsCaughtRightly(vt: VTables, h: ClassInfo, c: ClassInfo, p: Ptr)
    requires Unshared(vt, h, c, p)
    ensures LastSeenPublic(Visits(vt, h, c, p, true, [])) <==> exists q :: UnambiguousPublicBase(vt, h, c, p, q)
  {
    CatchesRightlyUnless(vt, h, c, p);
    var l := Leftmost(vt, h, c, p);
    if CaughtThoughAmbiguous(vt, h, c, p) { UnsharedStaysAway(vt, h, c, p, l.address, true); }
  }

  lemma {:induction false} AboveTwoBasesIsReal(vt: VTables, h: ClassInfo, c: ClassInfo, p: Ptr, isPublic: bool)
    ensures forall k | 0 <= k < |AboveTwoBases(vt, h, c, p, isPublic)| ::
              Reaches(vt, c, p, h, AboveTwoBases(vt, h, c, p, isPublic)[k].at)
    decreases c
  {
    if c != h {
      var bs := Bases(c);
      if |bs| > 0 { AboveTwoBasesIsReal(vt, h, bs[0].cls, BaseAddress(vt, p, bs[0]), isPublic && bs[0].isPublic); }
      if |bs| > 1 { AboveTwoBasesIsReal(vt, h, bs[1].cls, BaseAddress(vt, p, bs[1]), isPublic && bs[1].isPublic); }
    }
  }

  lemma {:induction false} UnsharedStaysAway(vt: VTables, h: ClassInfo, c: ClassInfo, p: Ptr, a: Ptr, isPublic: bool)
    requires Unshared(vt, h, c, p) && Leftmost(vt, h, c, p) == At(a)
    ensures !ComesBack(vt, h, c, p, a, isPublic)
    decreases c, 1, 0
  {
    if c != h { UnsharedStaysAwayFrom(vt, h, c, p, a, isPublic, 0, |Bases(c)|); }
  }

  lemma {:induction false} BackIsReached(vt: VTables, h: ClassInfo, c: ClassInfo, p: Ptr, a: Ptr, isPublic: bool)
    requires ComesBack(vt, h, c, p, a, isPublic)
    ensures Reaches(vt, c, p, h, a)
    decreases c, 1, 0
  {
    BackIsReachedFrom(vt, h, c, p, a, isPublic, 0);
  }

  lemma {:induction false} BackIsReachedFrom(vt: VTables, h: ClassInfo, c: ClassInfo, p: Ptr, a: Ptr, isPublic: bool, i: nat)
    requires i <= |Bases(c)| && ComesBackFrom(vt, h, c, p, a, isPublic, i)
    ensures exists j | i <= j < |Bases(c)| :: Reaches(vt, Bases(c)[j].cls, BaseAddress(vt, p, Bases(c)[j]), h, a)
    ensures Reaches(vt, c, p, h, a)
    decreases c, 0, |Bases(c)| - i
  {
    var b := Bases(c)[i];
    if !ElsewhereAboveBase(vt, h, c, p, a, i) {
      BackIsReachedFrom(vt, h, c, p, a, isPublic, i + 1);
    } else if ComesBack(vt, h, b.cls, BaseAddress(vt, p, b), a, isPublic && b.isPublic) {
      BackIsReached(vt, h, b.cls, BaseAddress(vt, p, b), a, isPublic && b.isPublic);
    } else {
      var second := Bases(c)[1];
      AboveTwoBasesIsReal(vt, h, second.cls, BaseAddress(vt, p, second), isPublic && second.isPublic);
      assert Reaches(vt, second.cls, BaseAddress(vt, p, second), h, a);
    }
  }

  /** The first base with the handler's class has it at a first; so no later base has it at a. */
  lemma {:induction false} UnsharedStaysAwayFrom(vt: VTables, h: ClassInfo, c: ClassInfo, p: Ptr, a: Ptr, isPublic: bool,
                                                 i: nat, n: nat)
    requires c != h && n == |Bases(c)| && i <= n && Unshared(vt, h, c, p)
    requires LeftmostFrom(vt, h, c, p, i) == At(a)
    requires forall j | 0 <= j < i :: Leftmost(vt, h, Bases(c)[j].cls, BaseAddress(vt, p, Bases(c)[j])) == Nowhere
    ensures !ComesBackFrom(vt, h, c, p, a, isPublic, i)
    decreases c, 0, n - i
  {
    var b := Bases(c)[i];
    var x := BaseAddress(vt, p, b);
    if Leftmost(vt, h, b.cls, x) == Nowhere {
      NothingThere(vt, h, b.cls, x);
      UnsharedStaysAwayFrom(vt, h, c, p, a, isPublic, i + 1, n);
    } else {
      LeftmostIsThere(vt, h, b.cls, x);
      UnsharedStaysAway(vt, h, b.cls, x, a, isPublic && b.isPublic);
      if i + 1 < n && ComesBackFrom(vt, h, c, p, a, isPublic, i + 1) {
        BackIsReachedFrom(vt, h, c, p, a, isPublic, i + 1);
      }
      if i == 0 && n > 1 {
        var second := Bases(c)[1];
        AboveTwoBasesIsReal(vt, h, second.cls, BaseAddress(vt, p, second), isPublic && second.isPublic);
      }
    }
  }

  lemma LeftmostIsThere(vt: VTables, h: ClassInfo, c: ClassInfo, p: Ptr)
    requires Leftmost(vt, h, c, p).At?
    ensures Reaches(vt, c, p, h, Leftmost(vt, h, c, p).address)
  {
    LeftmostIsReached(vt, h, c, p);
    VisitsAreReal(vt, h, c, p, true, []);
  }

  lemma NothingThere(vt: VTables, h: ClassInfo, c: ClassInfo, p: Ptr)
    requires Leftmost(vt, h, c, p) == Nowhere
    ensures forall q :: !Reaches(vt, c, p, h, q)
  {
    LeftmostIsReached(vt, h, c, p);
    VisitsDecide(vt, h, c, p);
  }

  // ----- a hierarchy of that kind

  const HANDLER := NoBase("Handler")
  const PLAIN := SingleBase("Plain", HANDLER)
  const FIRST := MultiBase("First", false, true, [Base(HANDLER, true, true, -24), Base(PLAIN, true, false, 8)])
  const SECOND := MultiBase("Second", false, false, [Base(HANDLER, true, true, -24)])
  const THROWN := MultiBase("Thrown", true, true, [Base(FIRST, true, false, 0), Base(SECOND, true, false, 16)])
  const TABLES: VTables := map[(100, -24) := 50, (116, -24) := 34]

  /** A class whose first base is ambiguous and whose second shares a virtual base with it: the handler
      catches the object although its class is a base at two addresses. */
  lemma AmbiguousBaseIsCaught()
    ensures Visits(TABLES, HANDLER, THROWN, 100, true, []) == [Visit(150, true), Visit(108, true), Visit(150, true)]
    ensures LastSeenPublic(Visits(TABLES, HANDLER, THROWN, 100, true, []))
    ensures CaughtThoughAmbiguous(TABLES, HANDLER, THROWN, 100)
    ensures Reaches(TABLES, THROWN, 100, HANDLER, 150) && Reaches(TABLES, THROWN, 100, HANDLER, 108)
  {
    var v1 := [Visit(150, true)];
    var v2 := v1 + [Visit(108, true)];
    var v3 := v2 + [Visit(150, true)];
    assert Visits(TABLES, HANDLER, PLAIN, 108, true, v1) == v2;
    assert VisitsFrom(TABLES, HANDLER, FIRST, 100, true, v1, 1) == v2 by {
      assert v2[1].at != v2[0].at;
    }
    assert Visits(TABLES, HANDLER, HANDLER, 150, true, []) == v1;
    assert FIRST.bases[0].cls == HANDLER && FIRST.bases[1].cls == PLAIN;
    assert VisitsFrom(TABLES, HANDLER, FIRST, 100, true, [], 0) == VisitsFrom(TABLES, HANDLER, FIRST, 100, true, v1, 1);
    assert Visits(TABLES, HANDLER, FIRST, 100, true, []) == v2;
    assert Visits(TABLES, HANDLER, HANDLER, 150, true, v2) == v3;
    assert VisitsFrom(TABLES, HANDLER, SECOND, 116, true, v2, 0) == VisitsFrom(TABLES, HANDLER, SECOND, 116, true, v3, 1);
    assert Visits(TABLES, HANDLER, SECOND, 116, true, v2) == v3;
    assert VisitsFrom(TABLES, HANDLER, THROWN, 100, true, v2, 1) == v3 by {
      assert v3[1].at != v3[0].at;
    }
    assert VisitsFrom(TABLES, HANDLER, THROWN, 100, true, [], 0) == v3;
    VisitsAreReal(TABLES, HANDLER, THROWN, 100, true, []);
    var vs := Visits(TABLES, HANDLER, THROWN, 100, true, []);
    assert vs[2].at == 150 && vs[1].at == 108;
    SearchMeaning(TABLES, HANDLER, THROWN, 100);
    forall q ensures !UnambiguousPublicBase(TABLES, HANDLER, THROWN, 100, q) {
      assert Reaches(TABLES, THROWN, 100, HANDLER, if q == 150 then 108 else 150);
    }
  }
}
