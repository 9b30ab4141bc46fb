/** Matching a thrown object against a handler of class type: the search for the handler's class among
    the bases of the thrown class, in __class_type_info::can_catch. */
module CatchSearch {
  import opened ClassHierarchy
  import opened CastSearch

  /** The handler's class was met at an address, on a public path or not. */
  datatype Visit = Visit(at: Ptr, isPublic: bool)

  /** The visits of a search of class c at p for class h, after those in vs.  The search stops between
      bases once two addresses were met, but only after the second base. */
  function Visits(vt: VTables, h: ClassInfo, c: ClassInfo, p: Ptr, isPublic: bool, vs: seq<Visit>): seq<Visit>
    decreases c, 1, 0
  {
    if c == h then vs + [Visit(p, isPublic)]
    else match c
      case NoBase(_) => vs
      case SingleBase(_, base) => Visits(vt, h, base, p, isPublic, vs)
      case MultiBase(_, _, _, _) => VisitsFrom(vt, h, c, p, isPublic, vs, 0)
  }

  function VisitsFrom(vt: VTables, h: ClassInfo, c: ClassInfo, p: Ptr, isPublic: bool, vs: seq<Visit>, i: nat): seq<Visit>
    requires c.MultiBase? && i <= |c.bases|
    decreases c, 0, |c.bases| - i
  {
    if i == |c.bases| then vs
    else
      var b := c.bases[i];
      var ws := Visits(vt, h, b.cls, BaseAddress(vt, p, b), isPublic && b.isPublic, vs);
      if i > 0 && TwoAddresses(ws) then ws else VisitsFrom(vt, h, c, p, isPublic, ws, i + 1)
  }

  predicate TwoAddresses(vs: seq<Visit>) {
    exists k | 0 <= k < |vs| :: vs[k].at != vs[0].at
  }

  /** After the last visit elsewhere, if any, there was a public visit to the address met first. */
  predicate LastSeenPublic(vs: seq<Visit>) {
    exists k | 0 <= k < |vs| ::
      vs[k].at == vs[0].at && vs[k].isPublic && forall j | k < j < |vs| :: vs[j].at == vs[0].at
  }

  /** The fields of the search state that this search uses. */
  datatype Record = Record(leading: Ptr, access: Access, number: nat, done: bool)

  function Elsewhere(vs: seq<Visit>): nat {
    if |vs| <= 1 then 0
    else Elsewhere(vs[..|vs| - 1]) + if vs[|vs| - 1].at != vs[0].at then 1 else 0
  }

  /** What the state remembers of the visits. */
  ghost predicate Remembers(r: Record, vs: seq<Visit>) {
    if vs == [] then r == Record(NULL, Unknown, 0, false)
    else
      && r.leading == vs[0].at != NULL
      && r.number == 1 + Elsewhere(vs)
      && r.done == TwoAddresses(vs)
      && r.access == AccessOf(LastSeenPublic(vs))
  }

  lemma {:induction false} ElsewhereIsTwoAddresses(vs: seq<Visit>)
    ensures Elsewhere(vs) > 0 <==> TwoAddresses(vs)
  {
    if |vs| > 1 {
      var init := vs[..|vs| - 1];
      ElsewhereIsTwoAddresses(init);
      if k :| 0 <= k < |vs| && vs[k].at != vs[0].at {
        assert k == |vs| - 1 || init[k].at != init[0].at;
      }
    }
  }

  class CatchInfo {
    const handler: ClassInfo
    const vt: VTables
    var leading: Ptr
    var access: Access
    var number: nat
    var done: bool

    ghost function R(): Record
      reads this
    {
      Record(leading, access, number, done)
    }

    constructor (handler: ClassInfo, vt: VTables)
      ensures this.handler == handler && this.vt == vt && Remembers(R(), [])
    {
      this.handler, this.vt := handler, vt;
      leading, access, number, done := NULL, Unknown, 0, false;
    }

    method ProcessFoundBaseClass(p: Ptr, pathBelow: Access, ghost vs: seq<Visit>)
      requires Remembers(R(), vs) && p != NULL && pathBelow != Unknown
      modifies this
      ensures Remembers(R(), vs + [Visit(p, pathBelow == PublicPath)])
    {
      ghost var ws := vs + [Visit(p, pathBelow == PublicPath)];
      AppendVisit(vs, Visit(p, pathBelow == PublicPath));
      if leading == NULL {
        leading := p;
        access := pathBelow;
        number := 1;
      } else if leading == p {
        if access == NotPublicPath {
          access := pathBelow;
        }
      } else {
        number := number + 1;
        access := NotPublicPath;
        done := true;
      }
    }

    method HasUnambiguousPublicBase(c: ClassInfo, p: Ptr, pathBelow: Access, ghost vs: seq<Visit>)
      requires HasBases(c) && NoNullAt(vt, handler, c, p) && pathBelow != Unknown
      requires Remembers(R(), vs)
      modifies this
      ensures Remembers(R(), Visits(vt, handler, c, p, pathBelow == PublicPath, vs))
      decreases c, 1
    {
      if c == handler {
        assert Reaches(vt, c, p, handler, p);
        ProcessFoundBaseClass(p, pathBelow, vs);
      } else {
        match c
        case NoBase(_) =>
        case SingleBase(_, base) =>
          assert Bases(c)[0] == Base(base, true, false, 0);
          NoNullAtBase(vt, handler, c, p, 0);
          HasUnambiguousPublicBase(base, p, pathBelow, vs);
        case MultiBase(_, _, _, _) =>
          SearchBases(c, p, pathBelow, vs);
      }
    }

    method SearchBases(c: ClassInfo, p: Ptr, pathBelow: Access, ghost vs: seq<Visit>)
      requires c.MultiBase? && HasBases(c) && NoNullAt(vt, handler, c, p) && pathBelow != Unknown
      requires Remembers(R(), vs)
      modifies this
      ensures Remembers(R(), VisitsFrom(vt, handler, c, p, pathBelow == PublicPath, vs, 0))
      decreases c, 0
    {
      EachBaseHasBases(c);
      ghost var isPublic := pathBelow == PublicPath;
      ghost var goal := VisitsFrom(vt, handler, c, p, isPublic, vs, 0);
      ghost var ws := SearchBase(c, p, pathBelow, vs, 0);
      var i := 1;
      while i < |c.bases|
        invariant 1 <= i <= |c.bases|
        invariant Remembers(R(), ws)
        invariant VisitsFrom(vt, handler, c, p, isPublic, ws, i) == goal
      {
        ws := SearchBase(c, p, pathBelow, ws, i);
        if done {
          break;
        }
        i := i + 1;
      }
    }

    method SearchBase(c: ClassInfo, p: Ptr, pathBelow: Access, ghost vs: seq<Visit>, i: nat) returns (ghost ws: seq<Visit>)
      requires c.MultiBase? && i < |c.bases| && HasBases(c.bases[i].cls)
      requires NoNullAt(vt, handler, c, p) && pathBelow != Unknown
      requires Remembers(R(), vs)
      modifies this
      ensures ws == Visits(vt, handler, c.bases[i].cls, BaseAddress(vt, p, c.bases[i]),
                           pathBelow == PublicPath && c.bases[i].isPublic, vs)
      ensures Remembers(R(), ws)
      decreases c.bases[i].cls, 2
    {
      var b := c.bases[i];
      NoNullAtBase(vt, handler, c, p, i);
      HasUnambiguousPublicBase(b.cls, BaseAddress(vt, p, b), if b.isPublic then pathBelow else NotPublicPath, vs);
      ws := Visits(vt, handler, b.cls, BaseAddress(vt, p, b), pathBelow == PublicPath && b.isPublic, vs);
    }
  }

  ghost predicate NoNullAt(vt: VTables, h: ClassInfo, c: ClassInfo, p: Ptr) {
    forall q | Reaches(vt, c, p, h, q) :: q != NULL
  }

  lemma NoNullAtBase(vt: VTables, h: ClassInfo, c: ClassInfo, p: Ptr, i: nat)
    requires i < |Bases(c)| && NoNullAt(vt, h, c, p)
    ensures NoNullAt(vt, h, Bases(c)[i].cls, BaseAddress(vt, p, Bases(c)[i]))
  {
    forall q | Reaches(vt, Bases(c)[i].cls, BaseAddress(vt, p, Bases(c)[i]), h, q) ensures q != NULL {
      assert Reaches(vt, c, p, h, q);
    }
  }

  lemma AppendVisit(vs: seq<Visit>, v: Visit)
    ensures var ws := vs + [v];
      && Elsewhere(ws) == Elsewhere(vs) + (if v.at != ws[0].at then 1 else 0)
      && (TwoAddresses(ws) <==> TwoAddresses(vs) || v.at != ws[0].at)
      && (LastSeenPublic(ws) <==> v.at == ws[0].at && (v.isPublic || LastSeenPublic(vs)))
  {
    var ws := vs + [v];
    assert ws[..|ws| - 1] == vs;
    assert forall k | 0 <= k < |vs| :: ws[k] == vs[k];
    assert ws[|vs|] == v;
    if LastSeenPublic(vs) && v.at == ws[0].at {
      var k :| 0 <= k < |vs| && vs[k].at == vs[0].at && vs[k].isPublic && forall j | k < j < |vs| :: vs[j].at == vs[0].at;
      assert ws[k].at == ws[0].at && ws[k].isPublic && forall j | k < j < |ws| :: ws[j].at == ws[0].at;
    }
  }

  // ----- what the visits tell about the hierarchy

  /** The visits after those in vs are to objects that are there, and public visits came by public paths. */
  ghost predicate RealVisits(vt: VTables, h: ClassInfo, c: ClassInfo, p: Ptr, isPublic: bool, vs: seq<Visit>, ws: seq<Visit>) {
    && vs <= ws
    && forall k | |vs| <= k < |ws| ::
      Reaches(vt, c, p, h, ws[k].at) && (ws[k].isPublic ==> isPublic && PubliclyReaches(vt, c, p, h, ws[k].at))
  }

  lemma {:induction false} VisitsAreReal(vt: VTables, h: ClassInfo, c: ClassInfo, p: Ptr, isPublic: bool, vs: seq<Visit>)
    ensures RealVisits(vt, h, c, p, isPublic, vs, Visits(vt, h, c, p, isPublic, vs))
    decreases c, 1, 0
  {
    if c != h {
      match c
      case NoBase(_) =>
      case SingleBase(_, base) =>
        assert Bases(c)[0] == Base(base, true, false, 0);
        VisitsAreReal(vt, h, base, p, isPublic, vs);
      case MultiBase(_, _, _, _) => VisitsFromAreReal(vt, h, c, p, isPublic, vs, 0);
    }
  }

  lemma {:induction false} VisitsFromAreReal(vt: VTables, h: ClassInfo, c: ClassInfo, p: Ptr, isPublic: bool, vs: seq<Visit>, i: nat)
    requires c.MultiBase? && c != h && i <= |c.bases|
    ensures RealVisits(vt, h, c, p, isPublic, vs, VisitsFrom(vt, h, c, p, isPublic, vs, i))
    decreases c, 0, |c.bases| - i
  {
    if i < |c.bases| {
      var b := Bases(c)[i];
      var ws := Visits(vt, h, b.cls, BaseAddress(vt, p, b), isPublic && b.isPublic, vs);
      VisitsAreReal(vt, h, b.cls, BaseAddress(vt, p, b), isPublic && b.isPublic, vs);
      VisitsFromAreReal(vt, h, c, p, isPublic, ws, i + 1);
    }
  }

  ghost predicate Visited(ws: seq<Visit>, q: Ptr, isPublic: bool) {
    exists k | 0 <= k < |ws| :: ws[k].at == q && (isPublic ==> ws[k].isPublic)
  }

  /** Unless the search was stopped, all that there is above (c, p) was visited. */
  ghost predicate AllVisited(vt: VTables, h: ClassInfo, c: ClassInfo, p: Ptr, isPublic: bool, ws: seq<Visit>) {
    !TwoAddresses(ws) ==>
      forall q ::
        && (Reaches(vt, c, p, h, q) ==> Visited(ws, q, false))
        && (isPublic && PubliclyReaches(vt, c, p, h, q) ==> Visited(ws, q, true))
  }

  lemma {:induction false} VisitsAreComplete(vt: VTables, h: ClassInfo, c: ClassInfo, p: Ptr, isPublic: bool, vs: seq<Visit>)
    ensures AllVisited(vt, h, c, p, isPublic, Visits(vt, h, c, p, isPublic, vs))
    decreases c, 1, 0
  {
    if c == h {
      var ws := vs + [Visit(p, isPublic)];
      assert ws[|vs|] == Visit(p, isPublic);
      forall q | Reaches(vt, c, p, h, q) ensures q == p { ReachesOwnClassOnlyHere(vt, c, p, q); }
      forall q | PubliclyReaches(vt, c, p, h, q) ensures Reaches(vt, c, p, h, q) { PublicPathIsPath(vt, c, p, h, q); }
    } else {
      match c
      case NoBase(_) =>
      case SingleBase(_, base) =>
        assert Bases(c)[0] == Base(base, true, false, 0);
        VisitsAreComplete(vt, h, base, p, isPublic, vs);
      case MultiBase(_, _, _, _) =>
        VisitsFromAreComplete(vt, h, c, p, isPublic, vs, 0);
    }
  }

  /** The same for the bases of c from index i on, when those before it were searched. */
  lemma {:induction false} VisitsFromAreComplete(vt: VTables, h: ClassInfo, c: ClassInfo, p: Ptr, isPublic: bool, vs: seq<Visit>, i: nat)
    requires c.MultiBase? && c != h && i <= |c.bases|
    requires forall j | 0 <= j < i :: AllVisited(vt, h, c.bases[j].cls, BaseAddress(vt, p, c.bases[j]), isPublic && c.bases[j].isPublic, vs)
    ensures AllVisited(vt, h, c, p, isPublic, VisitsFrom(vt, h, c, p, isPublic, vs, i))
    decreases c, 0, |c.bases| - i
  {
    if i < |c.bases| {
      var b := c.bases[i];
      var ws := Visits(vt, h, b.cls, BaseAddress(vt, p, b), isPublic && b.isPublic, vs);
      assert b == Bases(c)[i];
      VisitsAreReal(vt, h, b.cls, BaseAddress(vt, p, b), isPublic && b.isPublic, vs);
      VisitsAreComplete(vt, h, b.cls, BaseAddress(vt, p, b), isPublic && b.isPublic, vs);
      forall j | 0 <= j < i
        ensures AllVisited(vt, h, c.bases[j].cls, BaseAddress(vt, p, c.bases[j]), isPublic && c.bases[j].isPublic, ws)
      {
        MoreVisits(vt, h, c.bases[j].cls, BaseAddress(vt, p, c.bases[j]), isPublic && c.bases[j].isPublic, vs, ws);
      }
      VisitsFromAreComplete(vt, h, c, p, isPublic, ws, i + 1);
    } else {
      assert forall j | 0 <= j < |Bases(c)| :: AllVisited(vt, h, Bases(c)[j].cls, BaseAddress(vt, p, Bases(c)[j]), isPublic && Bases(c)[j].isPublic, vs);
    }
  }

  lemma MoreVisits(vt: VTables, h: ClassInfo, c: ClassInfo, p: Ptr, isPublic: bool, vs: seq<Visit>, ws: seq<Visit>)
    requires vs <= ws && AllVisited(vt, h, c, p, isPublic, vs)
    ensures AllVisited(vt, h, c, p, isPublic, ws)
  {
    if !TwoAddresses(ws) {
      forall k | 0 <= k < |vs| ensures vs[k] == ws[k] {}
      forall q, pub | Visited(vs, q, pub) ensures Visited(ws, q, pub) {
        var k :| 0 <= k < |vs| && vs[k].at == q && (pub ==> vs[k].isPublic);
        assert ws[k].at == q;
      }
    }
  }

  // ----- when a handler matches

  /** The handler's class is a base of the thrown class at address q only. */
  ghost predicate OnlyAt(vt: VTables, h: ClassInfo, c: ClassInfo, p: Ptr, q: Ptr) {
    Reaches(vt, c, p, h, q) && forall r | Reaches(vt, c, p, h, r) :: r == q
  }

  ghost predicate UnambiguousPublicBase(vt: VTables, h: ClassInfo, c: ClassInfo, p: Ptr, q: Ptr) {
    OnlyAt(vt, h, c, p, q) && PubliclyReaches(vt, c, p, h, q)
  }

  /** A search that met one address only met all there is. */
  lemma {:induction false} OneAddressDecides(vt: VTables, h: ClassInfo, c: ClassInfo, p: Ptr)
    requires var vs := Visits(vt, h, c, p, true, []); vs != [] && !TwoAddresses(vs)
    ensures var q := Visits(vt, h, c, p, true, [])[0].at;
      OnlyAt(vt, h, c, p, q) && (LastSeenPublic(Visits(vt, h, c, p, true, [])) <==> PubliclyReaches(vt, c, p, h, q))
  {
    var vs := Visits(vt, h, c, p, true, []);
    VisitsAreReal(vt, h, c, p, true, []);
    VisitsAreComplete(vt, h, c, p, true, []);
    assert forall k | 0 <= k < |vs| :: vs[k].at == vs[0].at;
    assert Reaches(vt, c, p, h, vs[0].at);
    forall q | Reaches(vt, c, p, h, q) ensures q == vs[0].at { assert Visited(vs, q, false); }
    if PubliclyReaches(vt, c, p, h, vs[0].at) { assert Visited(vs, vs[0].at, true); }
  }

  lemma {:induction false} VisitsDecide(vt: VTables, h: ClassInfo, c: ClassInfo, p: Ptr)
    ensures var vs := Visits(vt, h, c, p, true, []);
      && (vs == [] <==> forall q :: !Reaches(vt, c, p, h, q))
      && (forall q | OnlyAt(vt, h, c, p, q) :: vs != [] && !TwoAddresses(vs) && q == vs[0].at)
      && (vs != [] && !TwoAddresses(vs) ==>
           OnlyAt(vt, h, c, p, vs[0].at) && (LastSeenPublic(vs) <==> PubliclyReaches(vt, c, p, h, vs[0].at)))
  {
    var vs := Visits(vt, h, c, p, true, []);
    VisitsAreReal(vt, h, c, p, true, []);
    if vs == [] {
      VisitsAreComplete(vt, h, c, p, true, []);
      assert forall q | Reaches(vt, c, p, h, q) :: Visited(vs, q, false);
    } else {
      assert Reaches(vt, c, p, h, vs[0].at);
      if TwoAddresses(vs) {
        var k :| 0 <= k < |vs| && vs[k].at != vs[0].at;
        assert Reaches(vt, c, p, h, vs[k].at);
      } else {
        OneAddressDecides(vt, h, c, p);
      }
    }
  }

  /** The number in the search state is 0, 1 or more as there are no, one or several such addresses. */
  lemma NumberClassifies(vt: VTables, h: ClassInfo, c: ClassInfo, p: Ptr, r: Record)
    requires Remembers(r, Visits(vt, h, c, p, true, []))
    ensures r.number == 0 <==> forall q :: !Reaches(vt, c, p, h, q)
    ensures r.number == 1 <==> exists q :: OnlyAt(vt, h, c, p, q)
    ensures r.number == 1 ==> OnlyAt(vt, h, c, p, r.leading) && (r.access == PublicPath <==> PubliclyReaches(vt, c, p, h, r.leading))
  {
    VisitsDecide(vt, h, c, p);
    ElsewhereIsTwoAddresses(Visits(vt, h, c, p, true, []));
  }

  lemma CaughtIfUnambiguous(vt: VTables, h: ClassInfo, c: ClassInfo, p: Ptr, r: Record)
    requires Remembers(r, Visits(vt, h, c, p, true, []))
    ensures forall q | UnambiguousPublicBase(vt, h, c, p, q) :: r.access == PublicPath && r.leading == q
  {
    VisitsDecide(vt, h, c, p);
    forall q | UnambiguousPublicBase(vt, h, c, p, q) ensures r.access == PublicPath && r.leading == q {
      assert OnlyAt(vt, h, c, p, q) && Reaches(vt, c, p, h, q);
    }
  }
}
