/** The search behind __dynamic_cast as a function of its state: a walk over the base-class graph
    that records what it meets and looks for excuses to stop early. */
module CastSearch {
  import opened ClassHierarchy
  import opened CastFindings

  datatype Access = Unknown | PublicPath | NotPublicPath

  datatype Verdict = Undetermined | Yes | No

  datatype State = State(
    dstLeading: Ptr,
    dstNotLeading: Ptr,
    pathDstToStatic: Access,
    pathDynamicToStatic: Access,
    pathDynamicToDst: Access,
    numberToStatic: nat,
    numberToDst: nat,
    dstDerived: Verdict,
    numberOfDstType: nat,
    foundOur: bool,
    foundAny: bool,
    done: bool)

  const INITIAL := State(NULL, NULL, Unknown, Unknown, Unknown, 0, 0, Undetermined, 0, false, false, false)

  function AccessOf(isPublic: bool): Access {
    if isPublic then PublicPath else NotPublicPath
  }

  function PathThrough(b: Base, path: Access): Access {
    if b.isPublic then path else NotPublicPath
  }

  function ClearFound(s: State): State {
    s.(foundOur := false, foundAny := false)
  }

  // ----- above a dst_type

  /** A static_type object was met above the dst_type at d. */
  function ProcessStaticTypeAboveDst(q: Query, s: State, d: Ptr, p: Ptr, path: Access): State {
    if p != q.staticPtr then s.(foundAny := true)
    else if s.dstLeading == NULL then
      s.(foundAny := true, foundOur := true, dstLeading := d, pathDstToStatic := path, numberToStatic := 1,
         done := s.done || (s.numberOfDstType == 1 && path == PublicPath))
    else if s.dstLeading == d then
      var access := if s.pathDstToStatic == NotPublicPath then path else s.pathDstToStatic;
      s.(foundAny := true, foundOur := true, pathDstToStatic := access,
         done := s.done || (s.numberOfDstType == 1 && access == PublicPath))
    else
      s.(foundAny := true, foundOur := true, numberToStatic := s.numberToStatic + 1, done := true)
  }

  /** Looks for the subobject cast from, from class c at p, above the dst_type at d. */
  function SearchAboveDst(q: Query, s: State, c: ClassInfo, d: Ptr, p: Ptr, path: Access): State
    decreases c, 1, 0
  {
    if c == q.staticType then ProcessStaticTypeAboveDst(q, s, d, p, path)
    else match c
      case NoBase(_) => s
      case SingleBase(_, base) => SearchAboveDst(q, s, base, d, p, path)
      case MultiBase(_, _, _, _) => SearchAboveBases(q, s, c, d, p, path, 0, s.foundOur, s.foundAny)
  }

  /** The excuses to stop above a class, tested between its bases: the search is over, a public path
      was found, or what was found cannot be found again beyond this base. */
  predicate StopAbove(s: State, diamondShaped: bool, nonDiamondRepeat: bool) {
    s.done ||
    (if s.foundOur then s.pathDstToStatic == PublicPath || !diamondShaped else s.foundAny && !nonDiamondRepeat)
  }

  function SearchAboveBaseAt(q: Query, s: State, c: ClassInfo, d: Ptr, p: Ptr, path: Access, i: nat): State
    requires c.MultiBase? && i < |c.bases|
    decreases c, 0, 0
  {
    var b := c.bases[i];
    SearchAboveDst(q, ClearFound(s), b.cls, d, BaseAddress(q.vt, p, b), PathThrough(b, path))
  }

  /** The bases of c from index i on; our and any gather the found flags. */
  function SearchAboveBases(q: Query, s: State, c: ClassInfo, d: Ptr, p: Ptr, path: Access, i: nat,
                            our: bool, any: bool): State
    requires c.MultiBase? && i <= |c.bases|
    decreases c, 0, |c.bases| - i
  {
    if i == |c.bases| || (i > 0 && StopAbove(s, c.diamondShaped, c.nonDiamondRepeat)) then
      s.(foundOur := our, foundAny := any)
    else
      var t := SearchAboveBaseAt(q, s, c, d, p, path, i);
      SearchAboveBases(q, t, c, d, p, path, i + 1, our || t.foundOur, any || t.foundAny)
  }

  // ----- below the dst_types

  /** A static_type object was met with no dst_type below it. */
  function ProcessStaticTypeBelowDst(q: Query, s: State, p: Ptr, path: Access): State {
    if p == q.staticPtr && s.pathDynamicToStatic != PublicPath then s.(pathDynamicToStatic := path) else s
  }

  /** Finds out whether the dst_type at d leads to the subobject cast from, unless dst_type is known
      not to derive from static_type; records whether it does. */
  function DecideLeads(q: Query, s: State, d: Ptr): (State, bool) {
    if s.dstDerived == No then (s, false)
    else match q.dstType
      case NoBase(_) => (s, false)
      case SingleBase(_, base) =>
        var t := SearchAboveDst(q, ClearFound(s), base, d, d, PublicPath);
        (t.(dstDerived := if t.foundAny then Yes else No), t.foundAny && t.foundOur)
      case MultiBase(_, _, _, _) =>
        var (t, points, derived) := DecideLeadsBases(q, s, d, 0, false, false);
        (t.(dstDerived := if derived then Yes else No), points)
  }

  /** The bases of dst_type from index i on. */
  function DecideLeadsBases(q: Query, s: State, d: Ptr, i: nat, points: bool, derived: bool): (State, bool, bool)
    requires q.dstType.MultiBase? && i <= |q.dstType.bases|
    decreases |q.dstType.bases| - i
  {
    var c := q.dstType;
    if i == |c.bases| then (s, points, derived)
    else
      var t := SearchAboveBaseAt(q, s, c, d, d, PublicPath, i);
      if t.done then (t, points, derived)
      else if !t.foundAny then DecideLeadsBases(q, t, d, i + 1, points, derived)
      else if t.foundOur then
        if t.pathDstToStatic == PublicPath || !c.diamondShaped then (t, true, true)
        else DecideLeadsBases(q, t, d, i + 1, true, true)
      else
        if !c.nonDiamondRepeat then (t, points, true)
        else DecideLeadsBases(q, t, d, i + 1, points, true)
  }

  /** The dst_type at d does not lead to the subobject cast from. */
  function CountNotLeading(s: State, d: Ptr): State {
    s.(dstNotLeading := d, numberToDst := s.numberToDst + 1,
       done := s.done || (s.numberToStatic == 1 && s.pathDstToStatic == NotPublicPath))
  }

  /** A dst_type was met at d. */
  function VisitDst(q: Query, s: State, d: Ptr, path: Access): State {
    if d == s.dstLeading || d == s.dstNotLeading then
      if path == PublicPath then s.(pathDynamicToDst := PublicPath) else s
    else
      var (t, points) := DecideLeads(q, s.(pathDynamicToDst := path), d);
      var u := if points then t else CountNotLeading(t, d);
      if q.dstType.NoBase? then u.(dstDerived := No) else u
  }

  /** Looks for dst_types, and for paths to the subobject cast from that avoid them, from class c at p. */
  function SearchBelowDst(q: Query, s: State, c: ClassInfo, p: Ptr, path: Access): State
    decreases c, 1, 0
  {
    if c == q.staticType then ProcessStaticTypeBelowDst(q, s, p, path)
    else if c == q.dstType then VisitDst(q, s, p, path)
    else match c
      case NoBase(_) => s
      case SingleBase(_, base) => SearchBelowDst(q, s, base, p, path)
      case MultiBase(_, diamondShaped, _, bases) =>
        if |bases| == 0 then s
        else
          var t := SearchBelowBaseAt(q, s, c, p, path, 0);
          SearchBelowBases(q, t, c, p, path, 1, diamondShaped || t.numberToStatic == 1)
  }

  function SearchBelowBaseAt(q: Query, s: State, c: ClassInfo, p: Ptr, path: Access, i: nat): State
    requires c.MultiBase? && i < |c.bases|
    decreases c, 0, 0
  {
    var b := c.bases[i];
    SearchBelowDst(q, s, b.cls, BaseAddress(q.vt, p, b), PathThrough(b, path))
  }

  /** The excuses to stop below the dst_types, tested between the bases of a class: the search is over, or
      a dst_type that leads to the subobject cast from was found above this class. */
  predicate StopBelow(s: State, thorough: bool, nonDiamondRepeat: bool) {
    s.done ||
    (!thorough && s.numberToStatic == 1 && (nonDiamondRepeat ==> s.pathDstToStatic == PublicPath))
  }

  function SearchBelowBases(q: Query, s: State, c: ClassInfo, p: Ptr, path: Access, i: nat, thorough: bool): State
    requires c.MultiBase? && i <= |c.bases|
    decreases c, 0, |c.bases| - i
  {
    if i == |c.bases| || StopBelow(s, thorough, c.nonDiamondRepeat) then s
    else SearchBelowBases(q, SearchBelowBaseAt(q, s, c, p, path, i), c, p, path, i + 1, thorough)
  }

  /** The object to return after a complete search. */
  function Answer(s: State): Ptr {
    if s.numberToStatic == 0 then
      if s.numberToDst == 1 && s.pathDynamicToStatic == PublicPath && s.pathDynamicToDst == PublicPath
      then s.dstNotLeading else NULL
    else if s.numberToStatic == 1 then
      if s.pathDstToStatic == PublicPath ||
         (s.numberToDst == 0 && s.pathDynamicToStatic == PublicPath && s.pathDynamicToDst == PublicPath)
      then s.dstLeading else NULL
    else NULL
  }

  /** The cast from within the complete object of class c at p. */
  function DynamicCast(q: Query, c: ClassInfo, p: Ptr): Ptr {
    if c == q.dstType then
      var s := SearchAboveDst(q, INITIAL.(numberOfDstType := 1), c, p, p, PublicPath);
      if s.pathDstToStatic == PublicPath then p else NULL
    else
      Answer(SearchBelowDst(q, INITIAL, c, p, PublicPath))
  }
}
