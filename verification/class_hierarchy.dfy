/** The run-time type information of a class hierarchy, and the graph of base subobjects
    that it describes for one complete object.

    A node of the graph is a pair (class, address).  A class description is a finite tree, so
    no class is a base of itself; base addresses come from the fixed offset of the base or,
    for a virtual base, from the object's virtual table. */
module ClassHierarchy {

  type Ptr = int

  const NULL: Ptr := 0

  /** What the virtual tables of the objects hold: the base offset found through the table of the
      object at an address, at a position of that table. */
  type VTables = map<(Ptr, int), int>

  function ReadVTable(vt: VTables, p: Ptr, position: int): int {
    if (p, position) in vt then vt[(p, position)] else 0
  }

  datatype Base = Base(cls: ClassInfo, isPublic: bool, isVirtual: bool, offset: int)

  datatype ClassInfo =
    | NoBase(name: string)
    | SingleBase(name: string, base: ClassInfo)
    | MultiBase(name: string, diamondShaped: bool, nonDiamondRepeat: bool, bases: seq<Base>)

  /** A class with a single base keeps it public, non-virtual and at offset zero. */
  function Bases(c: ClassInfo): (bs: seq<Base>)
    ensures forall i | 0 <= i < |bs| :: bs[i].cls < c
  {
    match c
    case NoBase(_) => []
    case SingleBase(_, b) => [Base(b, true, false, 0)]
    case MultiBase(_, _, _, bs) => bs
  }

  function BaseAddress(vt: VTables, p: Ptr, b: Base): Ptr {
    p + if b.isVirtual then ReadVTable(vt, p, b.offset) else b.offset
  }

  /** Some path of base-class edges leads from (c, p) to (t, q). */
  ghost predicate Reaches(vt: VTables, c: ClassInfo, p: Ptr, t: ClassInfo, q: Ptr)
    decreases c
  {
    (c == t && p == q) ||
    exists i | 0 <= i < |Bases(c)| :: Reaches(vt, Bases(c)[i].cls, BaseAddress(vt, p, Bases(c)[i]), t, q)
  }

  /** Some path of public base-class edges leads from (c, p) to (t, q). */
  ghost predicate PubliclyReaches(vt: VTables, c: ClassInfo, p: Ptr, t: ClassInfo, q: Ptr)
    decreases c
  {
    (c == t && p == q) ||
    exists i | 0 <= i < |Bases(c)| ::
      Bases(c)[i].isPublic && PubliclyReaches(vt, Bases(c)[i].cls, BaseAddress(vt, p, Bases(c)[i]), t, q)
  }

  /** Class t is c or one of its bases, direct or not. */
  ghost predicate DerivesFrom(c: ClassInfo, t: ClassInfo)
    decreases c
  {
    c == t || exists i | 0 <= i < |Bases(c)| :: DerivesFrom(Bases(c)[i].cls, t)
  }

  /** What the two flags of a class with several bases promise about the objects above (c, p):
      without the first no subobject is reached through two of the bases, without the second no
      class occurs twice. */
  ghost predicate FlagsHold(vt: VTables, c: ClassInfo, p: Ptr) {
    c.MultiBase? ==>
      && |c.bases| > 0
      && (!c.diamondShaped ==> NoSharedBase(vt, c, p))
      && (!c.nonDiamondRepeat ==> NoRepeatedClass(vt, c, p))
  }

  ghost predicate NoSharedBase(vt: VTables, c: ClassInfo, p: Ptr) {
    forall i, j, t, q | 0 <= i < j < |Bases(c)| ::
      !(Reaches(vt, Bases(c)[i].cls, BaseAddress(vt, p, Bases(c)[i]), t, q) &&
        Reaches(vt, Bases(c)[j].cls, BaseAddress(vt, p, Bases(c)[j]), t, q))
  }

  ghost predicate NoRepeatedClass(vt: VTables, c: ClassInfo, p: Ptr) {
    forall t, q, r | Reaches(vt, c, p, t, q) && Reaches(vt, c, p, t, r) :: q == r
  }

  /** The flags are right at every node of the graph that starts at (c, p). */
  ghost predicate Sound(vt: VTables, c: ClassInfo, p: Ptr)
    decreases c
  {
    && FlagsHold(vt, c, p)
    && forall i | 0 <= i < |Bases(c)| :: Sound(vt, Bases(c)[i].cls, BaseAddress(vt, p, Bases(c)[i]))
  }

  /** Every class described as having several bases has at least one. */
  predicate HasBases(c: ClassInfo)
    decreases c
  {
    (c.MultiBase? ==> |c.bases| > 0) && forall i | 0 <= i < |Bases(c)| :: HasBases(Bases(c)[i].cls)
  }

  lemma EachBaseHasBases(c: ClassInfo)
    requires c.MultiBase? && HasBases(c)
    ensures |c.bases| > 0 && forall i | 0 <= i < |c.bases| :: HasBases(c.bases[i].cls)
  {
    forall i | 0 <= i < |c.bases| ensures HasBases(c.bases[i].cls) {
      assert HasBases(Bases(c)[i].cls);
    }
  }

  lemma {:induction false} SoundHasBases(vt: VTables, c: ClassInfo, p: Ptr)
    requires Sound(vt, c, p)
    ensures HasBases(c)
    decreases c
  {
    forall i | 0 <= i < |Bases(c)| ensures HasBases(Bases(c)[i].cls) {
      SoundHasBases(vt, Bases(c)[i].cls, BaseAddress(vt, p, Bases(c)[i]));
    }
  }

  lemma {:induction false} ReachesTransitive(vt: VTables, c: ClassInfo, p: Ptr, d: ClassInfo, q: Ptr, e: ClassInfo, r: Ptr)
    requires Reaches(vt, c, p, d, q) && Reaches(vt, d, q, e, r)
    ensures Reaches(vt, c, p, e, r)
    decreases c
  {
    if !(c == d && p == q) {
      var i :| 0 <= i < |Bases(c)| && Reaches(vt, Bases(c)[i].cls, BaseAddress(vt, p, Bases(c)[i]), d, q);
      ReachesTransitive(vt, Bases(c)[i].cls, BaseAddress(vt, p, Bases(c)[i]), d, q, e, r);
    }
  }

  lemma {:induction false} PublicPathIsPath(vt: VTables, c: ClassInfo, p: Ptr, t: ClassInfo, q: Ptr)
    requires PubliclyReaches(vt, c, p, t, q)
    ensures Reaches(vt, c, p, t, q)
    decreases c
  {
    if !(c == t && p == q) {
      var i :| 0 <= i < |Bases(c)| && Bases(c)[i].isPublic &&
        PubliclyReaches(vt, Bases(c)[i].cls, BaseAddress(vt, p, Bases(c)[i]), t, q);
      PublicPathIsPath(vt, Bases(c)[i].cls, BaseAddress(vt, p, Bases(c)[i]), t, q);
    }
  }

  lemma {:induction false} ReachedClassIsBase(vt: VTables, c: ClassInfo, p: Ptr, t: ClassInfo, q: Ptr)
    requires Reaches(vt, c, p, t, q)
    ensures DerivesFrom(c, t)
    decreases c
  {
    if !(c == t && p == q) {
      var i :| 0 <= i < |Bases(c)| && Reaches(vt, Bases(c)[i].cls, BaseAddress(vt, p, Bases(c)[i]), t, q);
      ReachedClassIsBase(vt, Bases(c)[i].cls, BaseAddress(vt, p, Bases(c)[i]), t, q);
    }
  }

  /** Every base class has at least one subobject. */
  lemma {:induction false} BaseHasSubobject(vt: VTables, c: ClassInfo, p: Ptr, t: ClassInfo) returns (q: Ptr)
    requires DerivesFrom(c, t)
    ensures Reaches(vt, c, p, t, q)
    decreases c
  {
    if c == t {
      q := p;
    } else {
      var i :| 0 <= i < |Bases(c)| && DerivesFrom(Bases(c)[i].cls, t);
      q := BaseHasSubobject(vt, Bases(c)[i].cls, BaseAddress(vt, p, Bases(c)[i]), t);
    }
  }

  /** A proper base of a class is smaller than the class, so a class occurs once on a path. */
  lemma {:induction false} BaseIsSmaller(c: ClassInfo, t: ClassInfo)
    requires DerivesFrom(c, t)
    ensures c == t || t < c
    decreases c
  {
    if c != t {
      var i :| 0 <= i < |Bases(c)| && DerivesFrom(Bases(c)[i].cls, t);
      BaseIsSmaller(Bases(c)[i].cls, t);
    }
  }

  lemma {:induction false} ReachesOwnClassOnlyHere(vt: VTables, c: ClassInfo, p: Ptr, q: Ptr)
    requires Reaches(vt, c, p, c, q)
    ensures p == q
  {
    if p != q {
      var i :| 0 <= i < |Bases(c)| && Reaches(vt, Bases(c)[i].cls, BaseAddress(vt, p, Bases(c)[i]), c, q);
      ReachedClassIsBase(vt, Bases(c)[i].cls, BaseAddress(vt, p, Bases(c)[i]), c, q);
      BaseIsSmaller(Bases(c)[i].cls, c);
      assert false;
    }
  }
}
