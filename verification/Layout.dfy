/** Sizes, alignments and struct layouts under a table of alignments, over unbounded numbers
    and in the 64-bit arithmetic of the original. */
module Layout {
  import opened Bits
  import opened MathExtras

  datatype Option<T> = None | Some(value: T)

  datatype AlignKind = IntegerAlign | FloatAlign | VectorAlign | AggregateAlign

  datatype AlignElem = AlignElem(kind: AlignKind, bitWidth: nat, abi: nat, pref: nat)

  datatype PointerElem = PointerElem(addrSpace: nat, abi: nat, pref: nat, byteWidth: nat)

  datatype Tables = Tables(alignments: seq<AlignElem>, pointers: seq<PointerElem>)

  type uint32 = x: nat | x < 0x1_0000_0000

  type uint64 = x: nat | x < WORD

  datatype Type =
    | Label
    | Integer(width: uint32)
    | Half | Float | Double | Fp128 | PpcFp128 | X86Fp80
    | Pointer(addrSpace: nat)
    | Array(count: uint64, elem: Type)
    | Vector(lanes: uint32, elem: Type)
    | Struct(packed: bool, elems: seq<Type>)

  // ----- the tables

  /** A power of two in a 32-bit register. */
  predicate IsAlignment(v: nat): (yes: bool)
    ensures yes ==> 0 < v < 0x1_0000_0000
  {
    IsPowerOfTwo(v) && v < 0x1_0000_0000
  }

  predicate IsPower(v: nat, orZero: bool) {
    IsAlignment(v) || (orZero && v == 0)
  }

  predicate EntryOk(e: AlignElem) {
    IsPower(e.abi, e.kind == AggregateAlign) && IsPower(e.pref, e.kind == AggregateAlign) && e.abi <= e.pref
  }

  /** Alignments are powers of two, or 0 for aggregates only, and the preferred one is not
      below the ABI's; there is an entry for integers and one for aggregates. */
  ghost predicate SoundEntries(es: seq<AlignElem>) {
    && (forall e :: e in es ==> EntryOk(e))
    && (exists w :: Has(es, IntegerAlign, w))
    && Has(es, AggregateAlign, 0)
  }

  ghost predicate Has(es: seq<AlignElem>, kind: AlignKind, width: nat) {
    exists i :: 0 <= i < |es| && es[i].kind == kind && es[i].bitWidth == width
  }

  /** Pointer entries are in order and start with address space 0. */
  ghost predicate SoundPointers(ps: seq<PointerElem>) {
    && (forall i, j :: 0 <= i < j < |ps| ==> ps[i].addrSpace < ps[j].addrSpace)
    && (forall i :: 0 <= i < |ps| ==>
          IsAlignment(ps[i].abi) && IsAlignment(ps[i].pref) && ps[i].abi <= ps[i].pref && 0 < ps[i].byteWidth < 0x2000_0000)
    && ps != [] && ps[0].addrSpace == 0
  }

  ghost predicate Sound(t: Tables) {
    SoundEntries(t.alignments) && SoundPointers(t.pointers)
  }

  /** The first place whose address space is not below the one looked for. */
  function LowerBound(pointers: seq<PointerElem>, addrSpace: nat): (k: nat)
    ensures k <= |pointers| && forall i :: 0 <= i < k ==> pointers[i].addrSpace < addrSpace
    ensures k < |pointers| ==> pointers[k].addrSpace >= addrSpace
  {
    if pointers == [] || pointers[0].addrSpace >= addrSpace then 0 else 1 + LowerBound(pointers[1..], addrSpace)
  }

  /** The entry for an address space, or the one for space 0. */
  function PointerFor(t: Tables, addrSpace: nat): PointerElem
    requires t.pointers != []
  {
    var k := LowerBound(t.pointers, addrSpace);
    if k == |t.pointers| || t.pointers[k].addrSpace != addrSpace then
      var z := LowerBound(t.pointers, 0);
      if z < |t.pointers| then t.pointers[z] else t.pointers[0]
    else t.pointers[k]
  }

  lemma PointerForFinds(t: Tables, addrSpace: nat)
    requires Sound(t)
    ensures PointerFor(t, addrSpace) in t.pointers
    ensures forall i :: 0 <= i < |t.pointers| && t.pointers[i].addrSpace == addrSpace ==> PointerFor(t, addrSpace) == t.pointers[i]
    ensures (forall i :: 0 <= i < |t.pointers| ==> t.pointers[i].addrSpace != addrSpace) ==> PointerFor(t, addrSpace) == t.pointers[0]
  {
  }

  function Pick(e: AlignElem, abi: bool): nat {
    if abi then e.abi else e.pref
  }

  /** The first entry of just that kind and width. */
  function Exact(es: seq<AlignElem>, kind: AlignKind, width: nat): Option<AlignElem> {
    if es == [] then None else
      var k := |es| - 1;
      var before := Exact(es[..k], kind, width);
      if before.None? && es[k].kind == kind && es[k].bitWidth == width then Some(es[k]) else before
  }

  /** The narrowest integer wider than the width, the first on a tie. */
  function Narrowest(es: seq<AlignElem>, width: nat): Option<AlignElem> {
    if es == [] then None else
      var k := |es| - 1;
      var before := Narrowest(es[..k], width);
      if es[k].kind == IntegerAlign && es[k].bitWidth > width && (before.None? || es[k].bitWidth < before.value.bitWidth)
      then Some(es[k]) else before
  }

  /** The widest integer, the first on a tie. */
  function Widest(es: seq<AlignElem>): Option<AlignElem> {
    if es == [] then None else
      var k := |es| - 1;
      var before := Widest(es[..k]);
      if es[k].kind == IntegerAlign && (before.None? || es[k].bitWidth > before.value.bitWidth) then Some(es[k]) else before
  }

  /** The size itself or the next power of two. */
  function Natural(size: nat): nat {
    if size != 0 && And(size, size - 1) != 0 then NextPowerOf2(size) else size
  }

  /** The alignment for a kind and width; storeSize is the size of the type asked for. */
  function AlignmentInfo(t: Tables, kind: AlignKind, width: nat, abi: bool, storeSize: nat): nat {
    var exact := Exact(t.alignments, kind, width);
    if exact.Some? then Pick(exact.value, abi)
    else if kind == IntegerAlign then
      var wider, widest := Narrowest(t.alignments, width), Widest(t.alignments);
      if wider.Some? then Pick(wider.value, abi)
      else if widest.Some? then Pick(widest.value, abi)
      else Natural(storeSize)
    else Natural(storeSize)
  }

  lemma {:induction false} ExactMeans(es: seq<AlignElem>, kind: AlignKind, width: nat)
    ensures var r := Exact(es, kind, width);
      && (r.Some? ==> r.value in es && r.value.kind == kind && r.value.bitWidth == width)
      && (r.None? ==> forall i :: 0 <= i < |es| ==> es[i].kind != kind || es[i].bitWidth != width)
  {
    if es != [] {
      ExactMeans(es[..|es| - 1], kind, width);
    }
  }

  lemma {:induction false} ExactStays(es: seq<AlignElem>, kind: AlignKind, width: nat, i: nat)
    requires i <= |es| && Exact(es[..i], kind, width).Some?
    ensures Exact(es, kind, width) == Exact(es[..i], kind, width)
  {
    if i == |es| {
      assert es[..i] == es;
    } else {
      assert es[..|es| - 1][..i] == es[..i];
      ExactStays(es[..|es| - 1], kind, width, i);
    }
  }

  ghost predicate FirstAt(es: seq<AlignElem>, kind: AlignKind, width: nat, i: nat) {
    && i < |es| && es[i].kind == kind && es[i].bitWidth == width
    && forall j :: 0 <= j < i ==> es[j].kind != kind || es[j].bitWidth != width
  }

  lemma ExactFirst(es: seq<AlignElem>, kind: AlignKind, width: nat, i: nat)
    requires FirstAt(es, kind, width, i)
    ensures Exact(es, kind, width) == Some(es[i])
  {
    ExactMeans(es[..i], kind, width);
    assert es[..i + 1][..i] == es[..i];
    ExactStays(es, kind, width, i + 1);
  }

  /** The first entry of the kind and width decides: its ABI alignment or its preferred one. */
  lemma FirstDecides(t: Tables, kind: AlignKind, width: nat, abi: bool, storeSize: nat)
    ensures forall i :: 0 <= i < |t.alignments| && FirstAt(t.alignments, kind, width, i) ==>
      AlignmentInfo(t, kind, width, abi, storeSize) == if abi then t.alignments[i].abi else t.alignments[i].pref
  {
    hide FirstAt, Exact;
    forall i | 0 <= i < |t.alignments| && FirstAt(t.alignments, kind, width, i)
      ensures AlignmentInfo(t, kind, width, abi, storeSize) == if abi then t.alignments[i].abi else t.alignments[i].pref
    {
      ExactFirst(t.alignments, kind, width, i);
    }
  }

  /** Without an entry of its own an integer takes that of the narrowest wider one. */
  lemma {:induction false} NarrowestMeans(es: seq<AlignElem>, width: nat)
    ensures var r := Narrowest(es, width);
      && (r.Some? ==> r.value in es && r.value.kind == IntegerAlign && r.value.bitWidth > width)
      && (forall i :: 0 <= i < |es| && es[i].kind == IntegerAlign && es[i].bitWidth > width ==> r.Some? && r.value.bitWidth <= es[i].bitWidth)
  {
    if es != [] {
      NarrowestMeans(es[..|es| - 1], width);
    }
  }

  /** And without a wider one, that of the widest there is. */
  lemma {:induction false} WidestMeans(es: seq<AlignElem>)
    ensures var r := Widest(es);
      && (r.Some? ==> r.value in es && r.value.kind == IntegerAlign)
      && (forall i :: 0 <= i < |es| && es[i].kind == IntegerAlign ==> r.Some? && r.value.bitWidth >= es[i].bitWidth)
  {
    if es != [] {
      WidestMeans(es[..|es| - 1]);
    }
  }

  lemma AlignmentPower(t: Tables, kind: AlignKind, width: nat, abi: bool, storeSize: nat)
    requires Sound(t) && kind != VectorAlign
    requires kind == FloatAlign ==> 0 < storeSize <= 16
    requires kind == AggregateAlign ==> width == 0
    ensures IsPower(AlignmentInfo(t, kind, width, abi, storeSize), kind == AggregateAlign)
  {
    ExactMeans(t.alignments, kind, width);
    if kind == IntegerAlign {
      NarrowestMeans(t.alignments, width);
      WidestMeans(t.alignments);
    } else if kind == FloatAlign {
      NaturalPower(storeSize);
    }
    hide Exact, Narrowest, Widest, Natural;
  }

  lemma NaturalPower(size: nat)
    requires 0 < size <= 16
    ensures IsAlignment(Natural(size))
  {
    hide NextPowerOf2, And;
    assert Pow2(5) == 32;
    hide Pow2;
    Pow2Monotone(5, 63);
    Pow2Monotone(63, 64);
    NextPowerOf2Least(size);
  }

  function Max(a: nat, b: nat): nat {
    if a < b then b else a
  }

  function FloatBits(ty: Type): (bits: nat)
    ensures bits <= 128
  {
    match ty
    case Half => 16
    case Float => 32
    case Double => 64
    case Fp128 => 128
    case PpcFp128 => 128
    case X86Fp80 => 80
    case _ => 0
  }

  // ----- alignments

  function PointerAlignment(t: Tables, addrSpace: nat, abi: bool): (a: nat)
    requires Sound(t)
    ensures IsAlignment(a)
  {
    PointerForFinds(t, addrSpace);
    var p := PointerFor(t, addrSpace);
    if abi then p.abi else p.pref
  }

  function ScalarAlignment(t: Tables, kind: AlignKind, width: nat, abi: bool): (a: nat)
    requires Sound(t) && (kind == IntegerAlign || (kind == FloatAlign && 0 < width <= 128))
    ensures IsAlignment(a)
  {
    AlignmentPower(t, kind, width, abi, (width + 7) / 8);
    AlignmentInfo(t, kind, width, abi, (width + 7) / 8)
  }

  function AggregateAlignment(t: Tables, abi: bool, members: nat): (a: nat)
    requires Sound(t) && IsAlignment(members)
    ensures IsAlignment(a)
  {
    AlignmentPower(t, AggregateAlign, 0, abi, 0);
    Max(AlignmentInfo(t, AggregateAlign, 0, abi, 0), members)
  }

  /** Alignments do not depend on sizes that can wrap. */
  function Alignment(t: Tables, ty: Type, abi: bool): (a: nat)
    requires Sound(t)
    ensures IsAlignment(a)
    decreases ty, 2
  {
    match ty
    case Label => PointerAlignment(t, 0, abi)
    case Pointer(s) => PointerAlignment(t, s, abi)
    case Array(_, e) => Alignment(t, e, abi)
    case Vector(_, e) => Alignment(t, e, abi)
    case Struct(packed, _) =>
      PowerOne();
      if packed && abi then 1 else AggregateAlignment(t, abi, StructAlignment(t, ty))
    case Integer(w) => ScalarAlignment(t, IntegerAlign, w, abi)
    case _ => ScalarAlignment(t, FloatAlign, FloatBits(ty), abi)
  }

  lemma PowerOne()
    ensures IsAlignment(1)
  {
  }

  function MemberAlignment(t: Tables, packed: bool, ty: Type): (a: nat)
    requires Sound(t)
    ensures IsAlignment(a)
    decreases ty, 3
  {
    PowerOne();
    if packed then 1 else Alignment(t, ty, true)
  }

  /** The largest alignment of the first k members. */
  function MembersAlignment(t: Tables, ty: Type, k: nat): (a: nat)
    requires Sound(t) && ty.Struct? && k <= |ty.elems|
    ensures IsPower(a, k == 0) && forall i :: 0 <= i < k ==> MemberAlignment(t, ty.packed, ty.elems[i]) <= a
    decreases ty, 0, k
  {
    if k == 0 then 0 else Max(MemberAlignment(t, ty.packed, ty.elems[k - 1]), MembersAlignment(t, ty, k - 1))
  }

  function StructAlignment(t: Tables, ty: Type): (a: nat)
    requires Sound(t) && ty.Struct?
    ensures IsAlignment(a)
    decreases ty, 1
  {
    PowerOne();
    Max(MembersAlignment(t, ty, |ty.elems|), 1)
  }

  // ----- which alignment is which

  /** An integer with an entry of its own has its ABI and its preferred alignment. */
  lemma IntegerAlignments(t: Tables, w: uint32, i: nat)
    requires Sound(t) && FirstAt(t.alignments, IntegerAlign, w, i)
    ensures Alignment(t, Integer(w), true) == t.alignments[i].abi
    ensures Alignment(t, Integer(w), false) == t.alignments[i].pref
  {
    hide Sound, IsAlignment, Exact, Narrowest, Widest, Natural;
    ExactFirst(t.alignments, IntegerAlign, w, i);
  }

  /** Without one it has those of the narrowest wider integer, or of the widest when none is
      wider. */
  lemma NearestAlignments(t: Tables, w: uint32) returns (e: AlignElem)
    requires Sound(t) && forall i :: 0 <= i < |t.alignments| ==> t.alignments[i].kind != IntegerAlign || t.alignments[i].bitWidth != w
    ensures e in t.alignments && e.kind == IntegerAlign
    ensures Alignment(t, Integer(w), true) == e.abi && Alignment(t, Integer(w), false) == e.pref
    ensures forall i :: 0 <= i < |t.alignments| && t.alignments[i].kind == IntegerAlign ==>
      if t.alignments[i].bitWidth > w then w < e.bitWidth <= t.alignments[i].bitWidth
      else e.bitWidth >= t.alignments[i].bitWidth
  {
    var es := t.alignments;
    var k :| Has(es, IntegerAlign, k);
    var j :| 0 <= j < |es| && es[j].kind == IntegerAlign && es[j].bitWidth == k;
    ExactMeans(es, IntegerAlign, w);
    NarrowestMeans(es, w);
    WidestMeans(es);
    hide Sound, IsAlignment, Exact, Narrowest, Widest, Natural, Has;
    e := if Narrowest(es, w).Some? then Narrowest(es, w).value else Widest(es).value;
  }

  predicate IsFloat(ty: Type) {
    ty.Half? || ty.Float? || ty.Double? || ty.Fp128? || ty.PpcFp128? || ty.X86Fp80?
  }

  /** A floating-point type with an entry of its own has its alignments. */
  lemma FloatAlignments(t: Tables, ty: Type, width: nat, i: nat)
    requires Sound(t) && IsFloat(ty) && FirstAt(t.alignments, FloatAlign, width, i)
    requires width == match ty
      case Half => 16 case Float => 32 case Double => 64 case X86Fp80 => 80 case _ => 128
    ensures Alignment(t, ty, true) == t.alignments[i].abi
    ensures Alignment(t, ty, false) == t.alignments[i].pref
  {
    hide Sound, IsAlignment, Exact, Narrowest, Widest, Natural;
    ExactFirst(t.alignments, FloatAlign, width, i);
  }

  /** Without one both are the least power of two not below its size in bytes. */
  lemma UnlistedFloat(t: Tables, ty: Type, width: nat, abi: bool)
    requires Sound(t) && IsFloat(ty)
    requires width == match ty
      case Half => 16 case Float => 32 case Double => 64 case X86Fp80 => 80 case _ => 128
    requires forall i :: 0 <= i < |t.alignments| ==> t.alignments[i].kind != FloatAlign || t.alignments[i].bitWidth != width
    ensures IsPowerOfTwo(Alignment(t, ty, abi)) && Alignment(t, ty, abi) / 2 < width / 8 <= Alignment(t, ty, abi)
  {
    hide Sound, IsAlignment, IsPowerOfTwo, Exact, Narrowest, Widest, Natural;
    ExactMeans(t.alignments, FloatAlign, width);
    assert Exact(t.alignments, FloatAlign, width).None?;
    NaturalLeast(width / 8);
  }

  lemma NaturalLeast(size: nat)
    requires 0 < size <= 16
    ensures IsPowerOfTwo(Natural(size)) && Natural(size) / 2 < size <= Natural(size)
  {
    hide NextPowerOf2;
    assert Pow2(5) == 32;
    hide Pow2;
    Pow2Monotone(5, 63);
    Pow2Monotone(63, 64);
    NextPowerOf2Least(size);
    if !IsPowerOfTwo(size) && NextPowerOf2(size) / 2 == size {
      HalfPower(NextPowerOf2(size));
    }
  }

  lemma HalfPower(p: nat)
    requires IsPowerOfTwo(p) && p > 1
    ensures IsPowerOfTwo(p / 2)
  {
    var k := PowerOfTwoExponent(p);
    if k > 0 {
      NextShift(k);
      Pow2IsPowerOfTwo(k - 1);
    }
  }

  /** A struct has the alignment of the aggregate entry or of its members, whichever is
      larger; a packed one has ABI alignment 1. */
  lemma StructAlignments(t: Tables, ty: Type, i: nat)
    requires Sound(t) && ty.Struct? && FirstAt(t.alignments, AggregateAlign, 0, i)
    ensures Alignment(t, ty, true) == if ty.packed then 1 else Max(t.alignments[i].abi, StructAlignment(t, ty))
    ensures Alignment(t, ty, false) == Max(t.alignments[i].pref, StructAlignment(t, ty))
  {
    hide Sound, IsAlignment, Exact, Narrowest, Widest, Natural, StructAlignment;
    ExactFirst(t.alignments, AggregateAlign, 0, i);
  }

  /** A pointer, and a label as one in space 0, has those of the entry for its space. */
  lemma PointerAlignments(t: Tables, addrSpace: nat, i: nat)
    requires Sound(t) && i < |t.pointers| && t.pointers[i].addrSpace == addrSpace
    ensures Alignment(t, Pointer(addrSpace), true) == t.pointers[i].abi
    ensures Alignment(t, Pointer(addrSpace), false) == t.pointers[i].pref
    ensures addrSpace == 0 ==> forall abi :: Alignment(t, Label, abi) == Alignment(t, Pointer(0), abi)
    ensures PointerBits(t, addrSpace) == 8 * t.pointers[i].byteWidth
  {
    PointerForFinds(t, addrSpace);
    hide Sound, IsAlignment, PointerFor;
  }

  /** The preferred alignment is never below the ABI's. */
  lemma {:induction false} AbiAtMostPreferred(t: Tables, ty: Type)
    requires Sound(t)
    ensures Alignment(t, ty, true) <= Alignment(t, ty, false)
  {
    hide Exact, Narrowest, Widest, Natural, PointerFor, StructAlignment;
    match ty
    case Array(_, e) => AbiAtMostPreferred(t, e);
    case Vector(_, e) => AbiAtMostPreferred(t, e);
    case Label => PointerForFinds(t, 0);
    case Pointer(s) => PointerForFinds(t, s);
    case Integer(w) => InfoAtMost(t, IntegerAlign, w, (w + 7) / 8);
    case Struct(_, _) => InfoAtMost(t, AggregateAlign, 0, 0);
    case _ => InfoAtMost(t, FloatAlign, FloatBits(ty), (FloatBits(ty) + 7) / 8);
  }

  lemma InfoAtMost(t: Tables, kind: AlignKind, width: nat, storeSize: nat)
    requires Sound(t)
    ensures AlignmentInfo(t, kind, width, true, storeSize) <= AlignmentInfo(t, kind, width, false, storeSize)
  {
    ExactMeans(t.alignments, kind, width);
    NarrowestMeans(t.alignments, width);
    WidestMeans(t.alignments);
    hide Exact, Narrowest, Widest, Natural, IsAlignment;
  }

  // ----- sizes and layouts

  /** Numbers without end, or the original's 64-bit ones. */
  datatype Arithmetic = Unbounded | Word64

  function Fit(a: Arithmetic, x: nat): (r: nat)
    ensures a == Word64 ==> r < WORD
    ensures a == Unbounded ==> r == x
  {
    if a == Word64 then x % WORD else x
  }

  /** The next multiple of the alignment. */
  function AlignTo(a: Arithmetic, x: nat, align: nat): (r: nat)
    requires align > 0
    ensures a == Word64 ==> r < WORD
  {
    Fit(a, RoundUp(x, align))
  }

  datatype StructLayout = StructLayout(size: nat, alignment: nat, offsets: seq<nat>)

  /** The bits of so many elements of so many bytes. */
  function BitsOfElements(a: Arithmetic, count: nat, size: nat): nat {
    Fit(a, count * Fit(a, 8 * size))
  }

  function PointerBits(t: Tables, addrSpace: nat): (bits: nat)
    requires Sound(t)
    ensures bits < 0x1_0000_0000
  {
    PointerForFinds(t, addrSpace);
    8 * PointerFor(t, addrSpace).byteWidth
  }

  function TypeSizeInBits(a: Arithmetic, t: Tables, ty: Type): (bits: nat)
    requires Sound(t)
    ensures a == Word64 ==> bits < WORD
    decreases ty, 2
  {
    match ty
    case Label => PointerBits(t, 0)
    case Pointer(s) => PointerBits(t, s)
    case Array(n, e) => BitsOfElements(a, n, TypeAllocSize(a, t, e))
    case Vector(n, e) => BitsOfElements(a, n, TypeAllocSize(a, t, e))
    case Struct(_, _) => Fit(a, 8 * LayoutOf(a, t, ty).size)
    case Integer(w) => w
    case _ => FloatBits(ty)
  }

  function TypeStoreSize(a: Arithmetic, t: Tables, ty: Type): (size: nat)
    requires Sound(t)
    ensures a == Word64 ==> size < WORD
    decreases ty, 3
  {
    Fit(a, TypeSizeInBits(a, t, ty) + 7) / 8
  }

  /** The size with the padding that puts the next one in its place. */
  function TypeAllocSize(a: Arithmetic, t: Tables, ty: Type): (size: nat)
    requires Sound(t)
    ensures a == Word64 ==> size < WORD
    decreases ty, 4
  {
    AlignTo(a, TypeStoreSize(a, t, ty), Alignment(t, ty, true))
  }

  /** One more member behind those in place. */
  function PlaceNext(a: Arithmetic, before: StructLayout, align: nat, size: nat): (r: StructLayout)
    requires align > 0
    ensures |r.offsets| == |before.offsets| + 1 && r.alignment == Max(align, before.alignment)
    ensures a == Word64 ==> r.size < WORD
  {
    var at := AlignTo(a, before.size, align);
    StructLayout(Fit(a, at + size), Max(align, before.alignment), before.offsets + [at])
  }

  /** The first k members in place; the size is where they end. */
  function Placed(a: Arithmetic, t: Tables, ty: Type, k: nat): (r: StructLayout)
    requires Sound(t) && ty.Struct? && k <= |ty.elems|
    ensures |r.offsets| == k && r.alignment == MembersAlignment(t, ty, k)
    ensures a == Word64 ==> r.size < WORD
    decreases ty, 0, k
  {
    if k == 0 then StructLayout(0, 0, []) else
      var e := ty.elems[k - 1];
      PlaceNext(a, Placed(a, t, ty, k - 1), MemberAlignment(t, ty.packed, e), TypeAllocSize(a, t, e))
  }

  function LayoutOf(a: Arithmetic, t: Tables, ty: Type): (r: StructLayout)
    requires Sound(t) && ty.Struct?
    ensures |r.offsets| == |ty.elems| && r.alignment == StructAlignment(t, ty)
    ensures a == Word64 ==> r.size < WORD
    decreases ty, 1
  {
    var all := Placed(a, t, ty, |ty.elems|);
    var align := if all.alignment == 0 then 1 else all.alignment;
    PowerOne();
    StructLayout(AlignTo(a, all.size, align), align, all.offsets)
  }

  lemma FitStays(x: nat)
    requires x < WORD
    ensures Fit(Word64, x) == x
  {
  }

  lemma ScalarStoreSize(t: Tables, ty: Type)
    requires Sound(t) && (ty.Integer? || FloatBits(ty) > 0)
    ensures TypeStoreSize(Word64, t, ty) == ((if ty.Integer? then ty.width else FloatBits(ty)) + 7) / 8
  {
    hide Sound, PointerBits, BitsOfElements, TypeAllocSize, LayoutOf, Fit;
    FitStays((if ty.Integer? then ty.width else FloatBits(ty)) + 7);
  }

  /** The bits of the scalar types. */
  lemma ScalarSizes(a: Arithmetic, t: Tables, w: uint32)
    requires Sound(t)
    ensures TypeSizeInBits(a, t, Integer(w)) == w
    ensures TypeSizeInBits(a, t, Half) == 16 && TypeSizeInBits(a, t, Float) == 32 && TypeSizeInBits(a, t, Double) == 64
    ensures TypeSizeInBits(a, t, Fp128) == TypeSizeInBits(a, t, PpcFp128) == 128 && TypeSizeInBits(a, t, X86Fp80) == 80
  {
    hide Sound, PointerBits, BitsOfElements, LayoutOf;
  }

  lemma PointerSizes(a: Arithmetic, t: Tables, addrSpace: nat, i: nat)
    requires Sound(t) && i < |t.pointers| && t.pointers[i].addrSpace == addrSpace
    ensures TypeSizeInBits(a, t, Pointer(addrSpace)) == 8 * t.pointers[i].byteWidth
    ensures addrSpace == 0 ==> TypeSizeInBits(a, t, Label) == 8 * t.pointers[i].byteWidth
  {
    PointerAlignments(t, addrSpace, i);
    hide Sound, PointerBits;
  }

  lemma ElementAlignments(t: Tables, n: uint32, e: Type)
    requires Sound(t)
    ensures forall abi :: Alignment(t, Array(n, e), abi) == Alignment(t, Vector(n, e), abi) == Alignment(t, e, abi)
  {
    hide Sound, IsAlignment;
  }

  /** Elements lie side by side, each with its padding, and stay aligned. */
  lemma ElementsSideBySide(t: Tables, n: uint32, e: Type, at: nat, k: nat)
    requires Sound(t) && at % Alignment(t, Array(n, e), true) == 0
    ensures TypeSizeInBits(Unbounded, t, Array(n, e)) == TypeSizeInBits(Unbounded, t, Vector(n, e)) == n * (8 * TypeAllocSize(Unbounded, t, e))
    ensures (at + k * TypeAllocSize(Unbounded, t, e)) % Alignment(t, e, true) == 0
  {
    hide Sound, TypeAllocSize, TypeSizeInBits, TypeStoreSize, Alignment, IsAlignment;
    AllocSizeAligned(Unbounded, t, e);
    ElementAlignments(t, n, e);
    ElementBits(t, n, e);
    StaysAligned(at, k, TypeAllocSize(Unbounded, t, e), Alignment(t, e, true));
  }

  lemma ElementBits(t: Tables, n: uint32, e: Type)
    requires Sound(t)
    ensures TypeSizeInBits(Unbounded, t, Array(n, e)) == TypeSizeInBits(Unbounded, t, Vector(n, e)) == n * (8 * TypeAllocSize(Unbounded, t, e))
  {
    hide Sound, TypeAllocSize, Alignment, IsAlignment;
  }

  lemma StaysAligned(at: nat, k: nat, size: nat, align: nat)
    requires align > 0 && at % align == 0 && size % align == 0
    ensures (at + k * size) % align == 0
  {
    MultipleOf(k, size, align);
    SumOfMultiples(at, k * size, align);
  }

  lemma MultipleOf(k: nat, x: nat, d: nat)
    requires d > 0 && x % d == 0
    ensures (k * x) % d == 0
  {
    MulAssoc(k, x / d, d);
    assert x == x / d * d;
    DivModUnique(k * x, d, k * (x / d), 0);
  }

  lemma SumOfMultiples(x: nat, y: nat, d: nat)
    requires d > 0 && x % d == 0 && y % d == 0
    ensures (x + y) % d == 0
  {
    MulAdd(d, x / d, y / d);
    DivModUnique(x + y, d, x / d + y / d, 0);
  }

  // ----- how the 64-bit sizes wrap

  lemma SpanIsPower(align: nat)
    requires IsAlignment(align)
    ensures SPAN % align == 0 && 0 < align <= SPAN
  {
    assert align > 0;
    WordIsPower();
    hide IsPowerOfTwo;
    PowersDivide(align, SPAN);
  }

  lemma ModMultiple(r: nat, q: nat, m: nat)
    requires m > 0
    ensures (r + q * m) % m == r % m
  {
    MulAdd(m, r / m, q);
    DivModUnique(r + q * m, m, r / m + q, r % m);
  }

  lemma RoundUpResidue(x: nat, align: nat, m: nat)
    requires 0 < align && 0 < m && m % align == 0
    ensures RoundUp(x, align) % m == RoundUp(x % m, align) % m
  {
    hide RoundUp;
    RoundUpShift(x % m, align, x / m, m);
    ModMultiple(RoundUp(x % m, align), x / m, m);
    assert x == x % m + x / m * m;
  }

  lemma AlignToWraps(x: nat, y: nat, align: nat)
    requires IsAlignment(align) && x % SPAN == y % SPAN
    ensures AlignTo(Word64, x, align) % SPAN == AlignTo(Unbounded, y, align) % SPAN
  {
    hide IsPowerOfTwo, RoundUp;
    SpanIsPower(align);
    RoundUpResidue(x, align, SPAN);
    RoundUpResidue(y, align, SPAN);
    FitWraps(RoundUp(x, align));
  }

  lemma FitWraps(x: nat)
    ensures Fit(Word64, x) % SPAN == x % SPAN
  {
  }

  lemma SumWraps(x: nat, x': nat, y: nat, y': nat)
    requires x % SPAN == x' % SPAN && y % SPAN == y' % SPAN
    ensures Fit(Word64, x + y) % SPAN == (x' + y') % SPAN
  {
    hide Fit;
    FitWraps(x + y);
    AddWraps(x, x', y);
    AddWraps(y, y', x');
  }

  lemma AddWraps(x: nat, x': nat, y: nat)
    requires x % SPAN == x' % SPAN
    ensures (x + y) % SPAN == (x' + y) % SPAN
  {
  }

  lemma StoreWraps(bits: nat, bits': nat)
    requires bits == bits' % WORD
    ensures Fit(Word64, bits + 7) / 8 == (bits' + 7) / 8 % SPAN
  {
  }

  lemma StoreFits(bits: nat)
    ensures (bits + 7) / 8 / SPAN == 0 <==> bits + 7 < WORD
  {
  }

  /** A size in whole bytes is padded without wrapping. */
  lemma AlignToRoom(a: Arithmetic, x: nat, align: nat)
    requires IsAlignment(align) && (a == Word64 ==> x < SPAN)
    ensures AlignTo(a, x, align) == RoundUp(x, align)
  {
    hide IsPowerOfTwo, RoundUp;
  }

  lemma AlignToExact(size: nat, align: nat)
    requires IsAlignment(align)
    ensures AlignTo(Unbounded, size, align) == AlignTo(Word64, size % SPAN, align) + size / SPAN * SPAN
  {
    hide IsAlignment, AlignTo, RoundUp;
    SpanIsPower(align);
    RoundUpShift(size % SPAN, align, size / SPAN, SPAN);
    AlignToRoom(Unbounded, size, align);
    AlignToRoom(Word64, size % SPAN, align);
  }

  lemma AlignToFits(x: nat, align: nat)
    requires align > 0 && AlignTo(Unbounded, x, align) < WORD
    ensures AlignTo(Word64, Fit(Word64, x), align) == AlignTo(Unbounded, x, align)
  {
    hide Fit, RoundUp;
    FitStays(x);
    FitStays(RoundUp(x, align));
  }

  lemma AlignToMoves(x: nat, q: nat, align: nat)
    requires IsAlignment(align) && q > 0 && AlignTo(Unbounded, x + q * SPAN, align) < WORD
    ensures AlignTo(Word64, Fit(Word64, x), align) != AlignTo(Unbounded, x + q * SPAN, align)
  {
    hide IsAlignment, AlignTo, RoundUp, Fit;
    SpanIsPower(align);
    RoundUpShift(x, align, q, SPAN);
    AlignToRoom(Unbounded, x, align);
    AlignToRoom(Unbounded, x + q * SPAN, align);
    AlignToFits(x, align);
  }

  lemma ProductWraps(n: nat, x: nat, w: nat)
    requires w > 0
    ensures (n * (x % w)) % w == (n * x) % w
  {
    var q, r := x / w, x % w;
    MulAdd(n, w * q, r);
    MulAssoc(n, w, q);
    MulAssoc(w, n, q);
    var q2, r2 := (n * r) / w, (n * r) % w;
    MulAdd(w, n * q, q2);
    DivModUnique(n * x, w, n * q + q2, r2);
  }

  lemma BytesWrap(size: nat, size': nat)
    requires size % SPAN == size' % SPAN
    ensures Fit(Word64, 8 * size) == Fit(Word64, 8 * size') == Fit(Unbounded, 8 * size') % WORD
  {
    DivModUnique(8 * size, WORD, size / SPAN, 8 * (size % SPAN));
    DivModUnique(8 * size', WORD, size' / SPAN, 8 * (size' % SPAN));
  }

  lemma FitProduct(n: nat, x: nat)
    ensures Fit(Word64, n * Fit(Word64, x)) == Fit(Unbounded, n * Fit(Unbounded, x)) % WORD
  {
    ProductWraps(n, x, WORD);
  }

  lemma ElementsWrap(n: nat, size: nat, size': nat)
    requires size % SPAN == size' % SPAN
    ensures BitsOfElements(Word64, n, size) == BitsOfElements(Unbounded, n, size') % WORD
  {
    hide Fit;
    BytesWrap(size, size');
    FitProduct(n, 8 * size');
  }

  /** The 64-bit size of every type is the unbounded one modulo 2^64. */
  lemma {:induction false} SizesWrap(t: Tables, ty: Type)
    requires Sound(t)
    ensures TypeSizeInBits(Word64, t, ty) == TypeSizeInBits(Unbounded, t, ty) % WORD
    decreases ty, 2
  {
    hide BitsOfElements, Sound, TypeAllocSize, LayoutOf, PointerBits, FloatBits, Fit;
    match ty
    case Array(n, e) =>
      AllocWraps(t, e);
      ElementsWrap(n, TypeAllocSize(Word64, t, e), TypeAllocSize(Unbounded, t, e));
    case Vector(n, e) =>
      AllocWraps(t, e);
      ElementsWrap(n, TypeAllocSize(Word64, t, e), TypeAllocSize(Unbounded, t, e));
    case Struct(_, _) =>
      LayoutWraps(t, ty);
      BytesWrap(LayoutOf(Word64, t, ty).size, LayoutOf(Unbounded, t, ty).size);
    case _ =>
  }

  lemma {:induction false} AllocWraps(t: Tables, ty: Type)
    requires Sound(t)
    ensures TypeStoreSize(Word64, t, ty) == TypeStoreSize(Unbounded, t, ty) % SPAN
    ensures TypeAllocSize(Word64, t, ty) % SPAN == TypeAllocSize(Unbounded, t, ty) % SPAN
    decreases ty, 3
  {
    hide Sound, TypeSizeInBits, Alignment, AlignTo, Fit, IsPowerOfTwo;
    SizesWrap(t, ty);
    StoreWraps(TypeSizeInBits(Word64, t, ty), TypeSizeInBits(Unbounded, t, ty));
    var size, size' := TypeStoreSize(Word64, t, ty), TypeStoreSize(Unbounded, t, ty);
    assert size == size' % SPAN;
    hide TypeStoreSize;
    AlignToWraps(size, size', Alignment(t, ty, true));
  }

  lemma PlacedNext(a: Arithmetic, t: Tables, ty: Type, k: nat)
    requires Sound(t) && ty.Struct? && 0 < k <= |ty.elems|
    ensures var e := ty.elems[k - 1];
      Placed(a, t, ty, k).size
      == Fit(a, AlignTo(a, Placed(a, t, ty, k - 1).size, MemberAlignment(t, ty.packed, e)) + TypeAllocSize(a, t, e))
  {
    hide Sound, TypeAllocSize, MemberAlignment, AlignTo, Fit, IsAlignment;
  }

  lemma {:induction false} PlacedWraps(t: Tables, ty: Type, k: nat)
    requires Sound(t) && ty.Struct? && k <= |ty.elems|
    ensures Placed(Word64, t, ty, k).size % SPAN == Placed(Unbounded, t, ty, k).size % SPAN
    decreases ty, 0, k
  {
    hide Sound, TypeAllocSize, MemberAlignment, AlignTo, Fit, IsAlignment;
    if k > 0 {
      hide Placed;
      PlacedNext(Word64, t, ty, k);
      PlacedNext(Unbounded, t, ty, k);
      PlacedWraps(t, ty, k - 1);
      AllocWraps(t, ty.elems[k - 1]);
      var align := MemberAlignment(t, ty.packed, ty.elems[k - 1]);
      var x, y := Placed(Word64, t, ty, k - 1).size, Placed(Unbounded, t, ty, k - 1).size;
      AlignToWraps(x, y, align);
      SumWraps(AlignTo(Word64, x, align), AlignTo(Unbounded, y, align),
               TypeAllocSize(Word64, t, ty.elems[k - 1]), TypeAllocSize(Unbounded, t, ty.elems[k - 1]));
    }
  }

  lemma {:induction false} LayoutWraps(t: Tables, ty: Type)
    requires Sound(t) && ty.Struct?
    ensures LayoutOf(Word64, t, ty).size % SPAN == LayoutOf(Unbounded, t, ty).size % SPAN
    decreases ty, 1
  {
    PlacedWraps(t, ty, |ty.elems|);
    hide Sound, Placed, AlignTo, Fit, IsPowerOfTwo;
    AlignToWraps(Placed(Word64, t, ty, |ty.elems|).size, Placed(Unbounded, t, ty, |ty.elems|).size, StructAlignment(t, ty));
  }

  /** A size with its padding is the unbounded one exactly when the bits, rounded up to whole
      bytes, fit in 64 bits; else it falls short by a multiple of 2^61. */
  lemma AllocExact(t: Tables, ty: Type)
    requires Sound(t)
    ensures var q := TypeStoreSize(Unbounded, t, ty) / SPAN;
      && TypeAllocSize(Unbounded, t, ty) == TypeAllocSize(Word64, t, ty) + q * SPAN
      && (q == 0 <==> TypeSizeInBits(Unbounded, t, ty) + 7 < WORD)
  {
    hide Sound, TypeSizeInBits, Alignment, AlignTo, Fit, IsPowerOfTwo;
    StoreFits(TypeSizeInBits(Unbounded, t, ty));
    assert TypeStoreSize(Unbounded, t, ty) == (TypeSizeInBits(Unbounded, t, ty) + 7) / 8;
    hide TypeStoreSize;
    AllocWraps(t, ty);
    AlignToExact(TypeStoreSize(Unbounded, t, ty), Alignment(t, ty, true));
  }

  // ----- what a layout is made of

  /** Where member i starts; past the last one, the size. */
  function Position(r: StructLayout, i: nat): nat {
    if i < |r.offsets| then r.offsets[i] else r.size
  }

  function AlignmentAt(t: Tables, ty: Type, i: nat): (align: nat)
    requires Sound(t) && ty.Struct?
    ensures IsAlignment(align)
  {
    if i < |ty.elems| then MemberAlignment(t, ty.packed, ty.elems[i]) else StructAlignment(t, ty)
  }

  /** Where the members before i end. */
  function EndBefore(a: Arithmetic, t: Tables, ty: Type, r: StructLayout, i: nat): nat
    requires Sound(t) && ty.Struct? && i <= |ty.elems| && i <= |r.offsets|
  {
    if i == 0 then 0 else Fit(a, r.offsets[i - 1] + TypeAllocSize(a, t, ty.elems[i - 1]))
  }

  ghost predicate Stepped(a: Arithmetic, t: Tables, ty: Type, r: StructLayout, i: nat)
    requires Sound(t) && ty.Struct? && i <= |ty.elems| && i <= |r.offsets|
  {
    Position(r, i) == AlignTo(a, EndBefore(a, t, ty, r, i), AlignmentAt(t, ty, i))
  }

  lemma {:induction false} PlacedSteps(a: Arithmetic, t: Tables, ty: Type, k: nat)
    requires Sound(t) && ty.Struct? && k <= |ty.elems|
    ensures var r := Placed(a, t, ty, k);
      && (forall i :: 0 <= i < k ==> Stepped(a, t, ty, r, i))
      && r.size == EndBefore(a, t, ty, r, k)
  {
    hide Sound, TypeAllocSize, MemberAlignment, MembersAlignment, Fit, AlignTo, IsAlignment;
    if k > 0 {
      PlacedSteps(a, t, ty, k - 1);
      var before, r := Placed(a, t, ty, k - 1), Placed(a, t, ty, k);
      forall i | 0 <= i < k
        ensures Stepped(a, t, ty, r, i)
      {
        assert i < k - 1 ==> Stepped(a, t, ty, before, i);
      }
    }
  }

  /** Each member starts at the next multiple of its alignment behind the one before it, and
      so does what follows the struct. */
  lemma LayoutSteps(a: Arithmetic, t: Tables, ty: Type, i: nat)
    requires Sound(t) && ty.Struct? && i <= |ty.elems|
    ensures Stepped(a, t, ty, LayoutOf(a, t, ty), i)
  {
    hide Sound, TypeAllocSize, MemberAlignment, MembersAlignment, Fit, AlignTo, IsAlignment, Placed;
    var all := Placed(a, t, ty, |ty.elems|);
    PlacedSteps(a, t, ty, |ty.elems|);
    assert i < |ty.elems| ==> Stepped(a, t, ty, all, i);
  }

  // ----- when the 64-bit layout is the unbounded one

  /** The size fits, and so do the bits of each member rounded up to whole bytes. */
  predicate LayoutFits(t: Tables, ty: Type)
    requires Sound(t) && ty.Struct?
  {
    && LayoutOf(Unbounded, t, ty).size < WORD
    && forall i :: 0 <= i < |ty.elems| ==> TypeSizeInBits(Unbounded, t, ty.elems[i]) + 7 < WORD
  }

  lemma {:induction false} PositionsClimb(t: Tables, ty: Type, i: nat)
    requires Sound(t) && ty.Struct? && i <= |ty.elems|
    ensures var r := LayoutOf(Unbounded, t, ty); EndBefore(Unbounded, t, ty, r, i) <= Position(r, i) <= r.size
    decreases |ty.elems| - i
  {
    hide Sound, LayoutOf, TypeAllocSize, AlignmentAt, IsAlignment;
    LayoutSteps(Unbounded, t, ty, i);
    if i < |ty.elems| {
      PositionsClimb(t, ty, i + 1);
    }
  }

  lemma {:induction false} PositionsExact(t: Tables, ty: Type, i: nat)
    requires Sound(t) && ty.Struct? && i <= |ty.elems| && LayoutFits(t, ty)
    ensures Position(LayoutOf(Word64, t, ty), i) == Position(LayoutOf(Unbounded, t, ty), i)
  {
    hide Sound, LayoutOf, TypeSizeInBits, TypeAllocSize, TypeStoreSize, AlignmentAt, IsAlignment, Fit, AlignTo;
    FitStays(0);
    LayoutSteps(Unbounded, t, ty, i);
    LayoutSteps(Word64, t, ty, i);
    var u := LayoutOf(Unbounded, t, ty);
    PositionsClimb(t, ty, i);
    AlignToFits(EndBefore(Unbounded, t, ty, u, i), AlignmentAt(t, ty, i));
    if i > 0 {
      PositionsExact(t, ty, i - 1);
      AllocExact(t, ty.elems[i - 1]);
    }
  }

  /** A member whose bits do not fit moves what comes behind it. */
  lemma MemberWraps(t: Tables, ty: Type, i: nat)
    requires Sound(t) && ty.Struct? && i < |ty.elems| && LayoutOf(Unbounded, t, ty).size < WORD
    requires TypeSizeInBits(Unbounded, t, ty.elems[i]) + 7 >= WORD
    requires LayoutOf(Word64, t, ty).offsets[i] == LayoutOf(Unbounded, t, ty).offsets[i]
    ensures Position(LayoutOf(Word64, t, ty), i + 1) != Position(LayoutOf(Unbounded, t, ty), i + 1)
  {
    hide Sound, LayoutOf, TypeSizeInBits, TypeAllocSize, TypeStoreSize, AlignmentAt, IsAlignment, Fit, AlignTo;
    LayoutSteps(Unbounded, t, ty, i + 1);
    LayoutSteps(Word64, t, ty, i + 1);
    PositionsClimb(t, ty, i + 1);
    AllocExact(t, ty.elems[i]);
    var q := TypeStoreSize(Unbounded, t, ty.elems[i]) / SPAN;
    var x := LayoutOf(Word64, t, ty).offsets[i] + TypeAllocSize(Word64, t, ty.elems[i]);
    AlignToMoves(x, q, AlignmentAt(t, ty, i + 1));
  }

  /** The 64-bit layout of a struct is the unbounded one exactly when its size and the bits of
      its members fit. */
  lemma LayoutExact(t: Tables, ty: Type)
    requires Sound(t) && ty.Struct?
    ensures LayoutOf(Word64, t, ty) == LayoutOf(Unbounded, t, ty) <==> LayoutFits(t, ty)
  {
    hide Sound, LayoutOf, TypeSizeInBits;
    var u, m := LayoutOf(Unbounded, t, ty), LayoutOf(Word64, t, ty);
    if LayoutFits(t, ty) {
      PositionsExact(t, ty, |ty.elems|);
      forall i | 0 <= i < |ty.elems|
        ensures m.offsets[i] == u.offsets[i]
      {
        PositionsExact(t, ty, i);
      }
      assert m.offsets == u.offsets;
    } else if m == u {
      var i :| 0 <= i < |ty.elems| && TypeSizeInBits(Unbounded, t, ty.elems[i]) + 7 >= WORD;
      MemberWraps(t, ty, i);
    }
  }

  // ----- what a layout promises

  function End(a: Arithmetic, t: Tables, ty: Type, r: StructLayout, i: nat): nat
    requires Sound(t) && ty.Struct? && i < |ty.elems| && i < |r.offsets|
  {
    r.offsets[i] + TypeAllocSize(a, t, ty.elems[i])
  }

  /** Member i is aligned, behind the member before it, and as close to it as its own
      alignment allows. */
  ghost predicate InPlace(a: Arithmetic, t: Tables, ty: Type, r: StructLayout, i: nat)
    requires Sound(t) && ty.Struct? && i < |ty.elems| && i < |r.offsets|
  {
    var align := if ty.packed then 1 else Alignment(t, ty.elems[i], true);
    var free := if i == 0 then 0 else End(a, t, ty, r, i - 1);
    r.offsets[i] % align == 0 && free <= r.offsets[i] < free + align && r.alignment % align == 0
  }

  /** Every member is in place; the struct's alignment is a multiple of each member's and is
      one of them, or 1; the size is its next multiple behind the last member. */
  ghost predicate Proper(a: Arithmetic, t: Tables, ty: Type, r: StructLayout)
    requires Sound(t) && ty.Struct? && |r.offsets| == |ty.elems|
  {
    && (forall i :: 0 <= i < |ty.elems| ==> InPlace(a, t, ty, r, i))
    && r.alignment > 0 && r.size % r.alignment == 0
    && (r.alignment == 1 || exists i :: 0 <= i < |ty.elems| && !ty.packed && r.alignment == Alignment(t, ty.elems[i], true))
    && (var end := if ty.elems == [] then 0 else End(a, t, ty, r, |ty.elems| - 1); end <= r.size < end + r.alignment)
  }

  lemma MemberAlignmentIs(t: Tables, packed: bool, ty: Type)
    requires Sound(t)
    ensures MemberAlignment(t, packed, ty) == if packed then 1 else Alignment(t, ty, true)
  {
    hide Sound, Alignment;
  }

  /** The largest alignment is that of a member. */
  lemma {:induction false} LargestMember(t: Tables, ty: Type, k: nat) returns (i: nat)
    requires Sound(t) && ty.Struct? && 0 < k <= |ty.elems|
    ensures i < k && MembersAlignment(t, ty, k) == MemberAlignment(t, ty.packed, ty.elems[i])
  {
    hide Sound, MemberAlignment, IsAlignment;
    i := k - 1;
    if k > 1 {
      var j := LargestMember(t, ty, k - 1);
      i := if MembersAlignment(t, ty, k) == MembersAlignment(t, ty, k - 1) then j else k - 1;
    }
  }

  lemma StructAlignmentIs(t: Tables, ty: Type)
    requires Sound(t) && ty.Struct?
    ensures StructAlignment(t, ty) == 1
         || exists i :: 0 <= i < |ty.elems| && !ty.packed && StructAlignment(t, ty) == Alignment(t, ty.elems[i], true)
  {
    hide Sound, MemberAlignment, MembersAlignment, IsAlignment, Alignment;
    if ty.elems != [] {
      var i := LargestMember(t, ty, |ty.elems|);
      MemberAlignmentIs(t, ty.packed, ty.elems[i]);
    } else {
      assert MembersAlignment(t, ty, 0) == 0 by { NoMembers(t, ty); }
    }
  }

  lemma BelowStruct(t: Tables, ty: Type, i: nat)
    requires Sound(t) && ty.Struct? && i < |ty.elems|
    ensures MemberAlignment(t, ty.packed, ty.elems[i]) <= StructAlignment(t, ty)
  {
    hide Sound, MemberAlignment, MembersAlignment;
  }

  lemma NoMembers(t: Tables, ty: Type)
    requires Sound(t) && ty.Struct?
    ensures MembersAlignment(t, ty, 0) == 0
  {
  }

  lemma UnboundedProper(t: Tables, ty: Type)
    requires Sound(t) && ty.Struct?
    ensures Proper(Unbounded, t, ty, LayoutOf(Unbounded, t, ty))
  {
    hide Sound, LayoutOf, TypeAllocSize, MemberAlignment, Alignment, StructAlignment, RoundUp, IsPowerOfTwo;
    var r := LayoutOf(Unbounded, t, ty);
    LayoutSteps(Unbounded, t, ty, |ty.elems|);
    StructAlignmentIs(t, ty);
    forall i | 0 <= i < |ty.elems|
      ensures InPlace(Unbounded, t, ty, r, i)
    {
      LayoutSteps(Unbounded, t, ty, i);
      MemberAlignmentIs(t, ty.packed, ty.elems[i]);
      BelowStruct(t, ty, i);
      PowersDivide(MemberAlignment(t, ty.packed, ty.elems[i]), r.alignment);
    }
  }

  /** Layouts are proper, in 64-bit arithmetic where they fit. */
  lemma LayoutMeans(a: Arithmetic, t: Tables, ty: Type)
    requires Sound(t) && ty.Struct? && (a == Word64 ==> LayoutFits(t, ty))
    ensures Proper(a, t, ty, LayoutOf(a, t, ty))
  {
    UnboundedProper(t, ty);
    if a == Word64 {
      hide Sound, LayoutOf, TypeSizeInBits, TypeStoreSize, TypeAllocSize, MemberAlignment, IsPowerOfTwo;
      var r := LayoutOf(Unbounded, t, ty);
      LayoutExact(t, ty);
      forall i | 0 <= i < |ty.elems|
        ensures TypeAllocSize(Word64, t, ty.elems[i]) == TypeAllocSize(Unbounded, t, ty.elems[i])
      {
        AllocExact(t, ty.elems[i]);
      }
      forall i | 0 <= i < |ty.elems|
        ensures InPlace(Word64, t, ty, r, i)
      {
        assert InPlace(Unbounded, t, ty, r, i);
      }
    }
  }

  lemma {:induction false} EndsInside(a: Arithmetic, t: Tables, ty: Type, r: StructLayout, j: nat)
    requires Sound(t) && ty.Struct? && j < |ty.elems| == |r.offsets| && Proper(a, t, ty, r)
    ensures End(a, t, ty, r, j) <= r.size
    decreases |ty.elems| - j
  {
    if j + 1 < |ty.elems| {
      assert InPlace(a, t, ty, r, j + 1);
      EndsInside(a, t, ty, r, j + 1);
    }
  }

  lemma {:induction false} EndsBefore(a: Arithmetic, t: Tables, ty: Type, r: StructLayout, i: nat, j: nat)
    requires Sound(t) && ty.Struct? && i < j < |ty.elems| == |r.offsets| && Proper(a, t, ty, r)
    ensures End(a, t, ty, r, i) <= r.offsets[j]
    decreases j - i
  {
    assert InPlace(a, t, ty, r, j);
    if i + 1 < j {
      EndsBefore(a, t, ty, r, i, j - 1);
    }
  }

  /** The members of a packed struct follow each other without a gap, to its very end. */
  lemma PackedTight(a: Arithmetic, t: Tables, ty: Type, i: nat)
    requires Sound(t) && ty.Struct? && ty.packed && i < |ty.elems| && (a == Word64 ==> LayoutFits(t, ty))
    ensures var r := LayoutOf(a, t, ty);
      && r.alignment == 1
      && (if i + 1 < |ty.elems| then r.offsets[i + 1] else r.size) == End(a, t, ty, r, i)
  {
    hide LayoutOf, LayoutFits, End, Sound, Alignment, IsPowerOfTwo;
    LayoutMeans(a, t, ty);
    if i + 1 < |ty.elems| {
      assert InPlace(a, t, ty, LayoutOf(a, t, ty), i + 1);
    }
  }

  /** Members do not overlap and lie inside the struct, in 64-bit arithmetic where it fits. */
  lemma MembersApart(a: Arithmetic, t: Tables, ty: Type, i: nat, j: nat)
    requires Sound(t) && ty.Struct? && i < j < |ty.elems| && (a == Word64 ==> LayoutFits(t, ty))
    ensures var r := LayoutOf(a, t, ty); End(a, t, ty, r, i) <= r.offsets[j] && End(a, t, ty, r, j) <= r.size
  {
    hide LayoutOf, LayoutFits, Proper, End;
    LayoutMeans(a, t, ty);
    EndsBefore(a, t, ty, LayoutOf(a, t, ty), i, j);
    EndsInside(a, t, ty, LayoutOf(a, t, ty), j);
  }

  /** How many offsets from the start are at most the one given. */
  function UpperBound(offsets: seq<nat>, offset: nat): (k: nat)
    ensures k <= |offsets| && forall i :: 0 <= i < k ==> offsets[i] <= offset
    ensures k < |offsets| ==> offsets[k] > offset
  {
    if offsets == [] || offsets[0] > offset then 0 else 1 + UpperBound(offsets[1..], offset)
  }

  function ElementContainingOffset(r: StructLayout, offset: nat): nat
    requires r.offsets != [] && r.offsets[0] <= offset
  {
    UpperBound(r.offsets, offset) - 1
  }

  /** The last member whose offset is at most the one given; every offset has one in a struct
      with members. */
  lemma LastMemberBelow(a: Arithmetic, t: Tables, ty: Type, offset: nat)
    requires Sound(t) && ty.Struct? && ty.elems != [] && (a == Word64 ==> LayoutFits(t, ty))
    ensures var r := LayoutOf(a, t, ty);
      && r.offsets[0] == 0
      && (var e := ElementContainingOffset(r, offset);
          e < |r.offsets| && r.offsets[e] <= offset && forall j :: e < j < |r.offsets| ==> r.offsets[j] > offset)
  {
    hide Sound, LayoutOf, LayoutFits, End, Alignment, IsPowerOfTwo;
    var r := LayoutOf(a, t, ty);
    LayoutMeans(a, t, ty);
    assert InPlace(a, t, ty, r, 0);
    var align := if ty.packed then 1 else Alignment(t, ty.elems[0], true);
    DivModUnique(r.offsets[0], align, 0, r.offsets[0]);
    var k := UpperBound(r.offsets, offset);
    forall j | k <= j < |r.offsets|
      ensures r.offsets[j] > offset
    {
      OffsetsInOrder(a, t, ty, k, j);
    }
  }

  lemma OffsetsInOrder(a: Arithmetic, t: Tables, ty: Type, i: nat, j: nat)
    requires Sound(t) && ty.Struct? && i <= j < |ty.elems| && (a == Word64 ==> LayoutFits(t, ty))
    ensures LayoutOf(a, t, ty).offsets[i] <= LayoutOf(a, t, ty).offsets[j]
  {
    hide LayoutOf, LayoutFits, Sound;
    if i < j {
      MembersApart(a, t, ty, i, j);
    }
  }

  /** The size an element takes is a multiple of its alignment, so that elements of an array
      stay aligned; in 64-bit arithmetic the padding never wraps. */
  lemma AllocSizeAligned(a: Arithmetic, t: Tables, ty: Type)
    requires Sound(t)
    ensures TypeAllocSize(a, t, ty) % Alignment(t, ty, true) == 0
    ensures TypeStoreSize(a, t, ty) <= TypeAllocSize(a, t, ty) < TypeStoreSize(a, t, ty) + Alignment(t, ty, true)
  {
    hide Sound, TypeSizeInBits, Alignment, AlignTo, IsAlignment, RoundUp;
    AlignToRoom(a, TypeStoreSize(a, t, ty), Alignment(t, ty, true));
  }

  // ----- the tables under construction

  /** The entry of that kind and width replaced, or added at the end. */
  function WithAlignment(es: seq<AlignElem>, e: AlignElem): seq<AlignElem> {
    if es == [] then [e]
    else if es[0].kind == e.kind && es[0].bitWidth == e.bitWidth then [e] + es[1..]
    else [es[0]] + WithAlignment(es[1..], e)
  }

  function WithPointer(ps: seq<PointerElem>, p: PointerElem): seq<PointerElem> {
    var k := LowerBound(ps, p.addrSpace);
    if k == |ps| || ps[k].addrSpace != p.addrSpace then ps[..k] + [p] + ps[k..] else ps[k := p]
  }

  /** What is asked of an entry. */
  predicate Accepts(e: AlignElem) {
    && e.bitWidth < Pow2(24) && e.abi < Pow2(16) && e.pref < Pow2(16)
    && (e.abi == 0 || IsPowerOfTwo(e.abi)) && (e.pref == 0 || IsPowerOfTwo(e.pref))
    && e.abi <= e.pref
  }

  /** A specifier of a description, with its numbers in bits. */
  datatype Specifier =
    | PointerSpec(addrSpace: uint32, size: uint32, abi: uint32, pref: Option<uint32>)
    | AlignSpec(kind: AlignKind, width: uint32, abi: uint32, pref: Option<uint32>)
    | OtherSpec

  function PrefBits(spec: Specifier): uint32
    requires !spec.OtherSpec?
  {
    if spec.pref.Some? then spec.pref.value else spec.abi
  }

  /** Sizes and alignments are whole bytes; pointers have a size and alignments that are
      powers of two; only aggregates may have alignment 0, and they have no width. */
  predicate Allowed(spec: Specifier) {
    match spec
    case PointerSpec(a, size, abi, _) =>
      && a < Pow2(24) && size % 8 == 0 && size / 8 > 0
      && abi % 8 == 0 && IsPowerOfTwo(abi / 8) && PrefBits(spec) % 8 == 0 && IsPowerOfTwo(PrefBits(spec) / 8)
      && abi / 8 <= PrefBits(spec) / 8
    case AlignSpec(kind, width, abi, _) =>
      && abi % 8 == 0 && PrefBits(spec) % 8 == 0
      && (if kind == AggregateAlign then width == 0 else abi / 8 > 0)
      && Accepts(AlignElem(kind, width, abi / 8, PrefBits(spec) / 8))
    case OtherSpec => true
  }

  function With(t: Tables, spec: Specifier): Tables {
    match spec
    case PointerSpec(a, size, abi, _) => t.(pointers := WithPointer(t.pointers, PointerElem(a, abi / 8, PrefBits(spec) / 8, size / 8)))
    case AlignSpec(kind, width, abi, _) => t.(alignments := WithAlignment(t.alignments, AlignElem(kind, width, abi / 8, PrefBits(spec) / 8)))
    case OtherSpec => t
  }

  const DEFAULT_ALIGNMENTS := [
    AlignElem(IntegerAlign, 1, 1, 1),
    AlignElem(IntegerAlign, 8, 1, 1),
    AlignElem(IntegerAlign, 16, 2, 2),
    AlignElem(IntegerAlign, 32, 4, 4),
    AlignElem(IntegerAlign, 64, 4, 8),
    AlignElem(FloatAlign, 16, 2, 2),
    AlignElem(FloatAlign, 32, 4, 4),
    AlignElem(FloatAlign, 64, 8, 8),
    AlignElem(FloatAlign, 128, 16, 16),
    AlignElem(VectorAlign, 64, 8, 8),
    AlignElem(VectorAlign, 128, 16, 16),
    AlignElem(AggregateAlign, 0, 0, 8)
  ]

  function AllOf(entries: seq<AlignElem>): seq<AlignElem> {
    if entries == [] then [] else
      var k := |entries| - 1; WithAlignment(AllOf(entries[..k]), entries[k])
  }

  function DefaultTables(): Tables {
    Tables(AllOf(DEFAULT_ALIGNMENTS), WithPointer([], PointerElem(0, 8, 8, 8)))
  }

  function Described(specs: seq<Specifier>): Tables {
    if specs == [] then DefaultTables() else
      var k := |specs| - 1; With(Described(specs[..k]), specs[k])
  }

  // ----- soundness is kept

  lemma {:induction false} WithAlignmentHolds(es: seq<AlignElem>, e: AlignElem)
    ensures e in WithAlignment(es, e)
    ensures forall x :: x in WithAlignment(es, e) ==> x == e || x in es
    ensures forall x :: x in es && (x.kind != e.kind || x.bitWidth != e.bitWidth) ==> x in WithAlignment(es, e)
  {
    if es != [] {
      WithAlignmentHolds(es[1..], e);
    }
  }

  /** Setting an entry takes no kind and width away. */
  lemma WithAlignmentHas(es: seq<AlignElem>, e: AlignElem, kind: AlignKind, width: nat)
    requires Has(es, kind, width) || (e.kind == kind && e.bitWidth == width)
    ensures Has(WithAlignment(es, e), kind, width)
  {
    var r := WithAlignment(es, e);
    WithAlignmentHolds(es, e);
    hide WithAlignment;
    if e.kind == kind && e.bitWidth == width {
      var i :| 0 <= i < |r| && r[i] == e;
    } else {
      var j :| 0 <= j < |es| && es[j].kind == kind && es[j].bitWidth == width;
      var i :| 0 <= i < |r| && r[i] == es[j];
    }
  }

  lemma SoundAlignment(t: Tables, e: AlignElem)
    requires Sound(t) && Accepts(e) && (e.kind != AggregateAlign ==> e.abi > 0)
    ensures Sound(t.(alignments := WithAlignment(t.alignments, e)))
  {
    assert EntryOk(e) by {
      hide IsPowerOfTwo, Pow2;
      Pow2Monotone(16, 32);
      Pow2Constants();
    }
    hide EntryOk, SoundPointers, Accepts, Has;
    var es := t.alignments;
    var w :| Has(es, IntegerAlign, w);
    WithAlignmentHas(es, e, IntegerAlign, w);
    WithAlignmentHas(es, e, AggregateAlign, 0);
    WithAlignmentHolds(es, e);
    hide WithAlignment;
  }

  lemma SoundPointer(t: Tables, p: PointerElem)
    requires Sound(t) && IsAlignment(p.abi) && IsAlignment(p.pref) && p.abi <= p.pref && 0 < p.byteWidth < 0x2000_0000
    ensures Sound(t.(pointers := WithPointer(t.pointers, p)))
  {
    hide IsAlignment, IsPower;
  }

  lemma DefaultsAccepted(i: nat)
    requires i < |DEFAULT_ALIGNMENTS|
    ensures Accepts(DEFAULT_ALIGNMENTS[i]) && EntryOk(DEFAULT_ALIGNMENTS[i])
  {
    assert Pow2(0) == 1 && Pow2(1) == 2 && Pow2(2) == 4 && Pow2(3) == 8 && Pow2(4) == 16 && Pow2(8) == 256;
    Pow2IsPowerOfTwo(0);
    Pow2IsPowerOfTwo(1);
    Pow2IsPowerOfTwo(2);
    Pow2IsPowerOfTwo(3);
    Pow2IsPowerOfTwo(4);
    Pow2Monotone(8, 16);
    Pow2Monotone(8, 24);
    hide Pow2, IsPowerOfTwo;
  }

  lemma AllOfNext(entries: seq<AlignElem>, i: nat)
    requires i < |entries|
    ensures AllOf(entries[..i + 1]) == WithAlignment(AllOf(entries[..i]), entries[i])
  {
    assert entries[..i + 1][..i] == entries[..i];
  }

  lemma {:induction false} AllOfHolds(entries: seq<AlignElem>)
    ensures forall x :: x in AllOf(entries) ==> x in entries
    ensures forall i :: 0 <= i < |entries| ==> Has(AllOf(entries), entries[i].kind, entries[i].bitWidth)
  {
    if entries != [] {
      var k := |entries| - 1;
      var before := AllOf(entries[..k]);
      AllOfHolds(entries[..k]);
      WithAlignmentHolds(before, entries[k]);
      forall i | 0 <= i < |entries|
        ensures Has(AllOf(entries), entries[i].kind, entries[i].bitWidth)
      {
        assert i < k ==> entries[..k][i] == entries[i];
        WithAlignmentHas(before, entries[k], entries[i].kind, entries[i].bitWidth);
      }
    }
  }

  lemma DefaultsSound()
    ensures Sound(DefaultTables())
  {
    AllOfHolds(DEFAULT_ALIGNMENTS);
    assert Has(AllOf(DEFAULT_ALIGNMENTS), DEFAULT_ALIGNMENTS[0].kind, DEFAULT_ALIGNMENTS[0].bitWidth);
    assert Has(AllOf(DEFAULT_ALIGNMENTS), DEFAULT_ALIGNMENTS[11].kind, DEFAULT_ALIGNMENTS[11].bitWidth);
    forall x | x in AllOf(DEFAULT_ALIGNMENTS)
      ensures EntryOk(x)
    {
      var i :| 0 <= i < |DEFAULT_ALIGNMENTS| && DEFAULT_ALIGNMENTS[i] == x;
      DefaultsAccepted(i);
    }
    EightIsPower();
    hide AllOf, EntryOk, Has, IsPowerOfTwo;
  }

  // ----- what a specifier sets

  lemma FirstOrNone(es: seq<AlignElem>, kind: AlignKind, width: nat) returns (i: nat)
    ensures i <= |es| && if i < |es| then FirstAt(es, kind, width, i)
      else forall j :: 0 <= j < |es| ==> es[j].kind != kind || es[j].bitWidth != width
  {
    i := 0;
    while i < |es| && (es[i].kind != kind || es[i].bitWidth != width)
      invariant i <= |es| && forall j :: 0 <= j < i ==> es[j].kind != kind || es[j].bitWidth != width
    {
      i := i + 1;
    }
  }

  lemma {:induction false} WithAlignmentAt(es: seq<AlignElem>, e: AlignElem, i: nat)
    requires i <= |es| && if i < |es| then FirstAt(es, e.kind, e.bitWidth, i)
      else forall j :: 0 <= j < |es| ==> es[j].kind != e.kind || es[j].bitWidth != e.bitWidth
    ensures WithAlignment(es, e) == if i < |es| then es[i := e] else es + [e]
  {
    if i > 0 {
      WithAlignmentAt(es[1..], e, i - 1);
    }
  }

  /** Setting an entry sets the one of its kind and width and no other. */
  lemma WithAlignmentSets(es: seq<AlignElem>, e: AlignElem, kind: AlignKind, width: nat)
    ensures Exact(WithAlignment(es, e), kind, width) ==
      if kind == e.kind && width == e.bitWidth then Some(e) else Exact(es, kind, width)
  {
    hide Exact, WithAlignment;
    var i := FirstOrNone(es, e.kind, e.bitWidth);
    var k := FirstOrNone(es, kind, width);
    WithAlignmentAt(es, e, i);
    var r := WithAlignment(es, e);
    if kind == e.kind && width == e.bitWidth {
      ExactFirst(r, kind, width, i);
    } else if k < |es| {
      ExactFirst(es, kind, width, k);
      ExactFirst(r, kind, width, k);
    } else {
      ExactMeans(es, kind, width);
      ExactMeans(r, kind, width);
    }
  }

  lemma WithPointerSets(t: Tables, p: PointerElem, addrSpace: nat)
    requires Sound(t) && IsAlignment(p.abi) && IsAlignment(p.pref) && p.abi <= p.pref && 0 < p.byteWidth < 0x2000_0000
    ensures PointerFor(t.(pointers := WithPointer(t.pointers, p)), p.addrSpace) == p
    ensures addrSpace != p.addrSpace && (exists i :: 0 <= i < |t.pointers| && t.pointers[i].addrSpace == addrSpace) ==>
      PointerFor(t.(pointers := WithPointer(t.pointers, p)), addrSpace) == PointerFor(t, addrSpace)
  {
    hide IsAlignment;
    var ps := WithPointer(t.pointers, p);
    var k := LowerBound(t.pointers, p.addrSpace);
    assert ps[k] == p;
    if i :| 0 <= i < |t.pointers| && t.pointers[i].addrSpace == addrSpace && addrSpace != p.addrSpace {
      var j := if i < k || |ps| == |t.pointers| then i else i + 1;
      assert ps[j] == t.pointers[i];
      SoundPointer(t, p);
      PointerForFinds(t.(pointers := ps), addrSpace);
      PointerForFinds(t, addrSpace);
    }
    SoundPointer(t, p);
    PointerForFinds(t.(pointers := ps), p.addrSpace);
  }

  /** A specifier, in bits, sets the bytes of the entry it names: first the ABI alignment, then
      the preferred one, which is the ABI's when it is left out. */
  lemma SpecifierSets(t: Tables, spec: Specifier, kind: AlignKind, width: nat, addrSpace: nat)
    requires Sound(t) && Allowed(spec)
    ensures spec.AlignSpec? ==>
      && With(t, spec).pointers == t.pointers
      && Exact(With(t, spec).alignments, spec.kind, spec.width)
         == Some(AlignElem(spec.kind, spec.width, spec.abi / 8, (if spec.pref == None then spec.abi else spec.pref.value) / 8))
      && (kind != spec.kind || width != spec.width ==>
          Exact(With(t, spec).alignments, kind, width) == Exact(t.alignments, kind, width))
    ensures spec.PointerSpec? ==>
      && With(t, spec).alignments == t.alignments
      && PointerFor(With(t, spec), spec.addrSpace)
         == PointerElem(spec.addrSpace, spec.abi / 8, (if spec.pref == None then spec.abi else spec.pref.value) / 8, spec.size / 8)
      && (addrSpace != spec.addrSpace && (exists i :: 0 <= i < |t.pointers| && t.pointers[i].addrSpace == addrSpace) ==>
          PointerFor(With(t, spec), addrSpace) == PointerFor(t, addrSpace))
  {
    hide Exact, WithAlignment, WithPointer, PointerFor, IsPowerOfTwo, Pow2;
    match spec
    case AlignSpec(k, w, abi, _) =>
      var e := AlignElem(k, w, abi / 8, PrefBits(spec) / 8);
      WithAlignmentSets(t.alignments, e, k, w);
      WithAlignmentSets(t.alignments, e, kind, width);
    case PointerSpec(a, size, abi, _) =>
      WithPointerSets(t, PointerElem(a, abi / 8, PrefBits(spec) / 8, size / 8), addrSpace);
    case OtherSpec =>
  }

  /** A later specifier is applied to what the earlier ones have left. */
  lemma LaterSpecifier(specs: seq<Specifier>, spec: Specifier)
    ensures Described([]) == DefaultTables() && Described(specs + [spec]) == With(Described(specs), spec)
  {
    assert (specs + [spec])[..|specs|] == specs;
  }

  // ----- the default layouts

  /** Under the default tables i64 has ABI alignment 4 and preferred alignment 8, and a struct
      of one float takes 4 bytes although its preferred alignment is 8. */
  lemma DefaultLayouts()
    ensures Sound(DefaultTables())
    ensures var t := DefaultTables();
      && Alignment(t, Integer(1), true) == Alignment(t, Integer(8), true) == 1
      && Alignment(t, Integer(16), true) == 2 && Alignment(t, Integer(32), true) == 4
      && Alignment(t, Integer(64), true) == 4 && Alignment(t, Integer(64), false) == 8
      && Alignment(t, Half, true) == 2 && Alignment(t, Float, true) == 4 && Alignment(t, Double, true) == 8
      && Alignment(t, Fp128, true) == 16 && Alignment(t, Pointer(0), true) == 8 && PointerBits(t, 0) == 64
    ensures LayoutOf(Word64, DefaultTables(), Struct(false, [Integer(32), Integer(64)])) == StructLayout(12, 4, [0, 4])
    ensures TypeAllocSize(Word64, DefaultTables(), Struct(false, [Float])) == 4
    ensures Alignment(DefaultTables(), Struct(false, [Float]), false) == 8
  {
    DefaultsSound();
    DefaultScalars();
    DefaultPair();
    DefaultOne();
  }

  lemma DefaultScalars()
    requires Sound(DefaultTables())
    ensures var t := DefaultTables();
      && Alignment(t, Integer(1), true) == Alignment(t, Integer(8), true) == 1
      && Alignment(t, Integer(16), true) == 2 && Alignment(t, Integer(32), true) == 4
      && Alignment(t, Integer(64), true) == 4 && Alignment(t, Integer(64), false) == 8
      && Alignment(t, Half, true) == 2 && Alignment(t, Float, true) == 4 && Alignment(t, Double, true) == 8
      && Alignment(t, Fp128, true) == 16 && Alignment(t, Pointer(0), true) == 8 && PointerBits(t, 0) == 64
  {
    hide AllOf, Exact, Sound, IsAlignment, Narrowest, Widest, Natural;
    DefaultEntry(0);
    DefaultEntry(1);
    DefaultEntry(2);
    DefaultEntry(3);
    DefaultEntry(4);
    DefaultEntry(5);
    DefaultEntry(6);
    DefaultEntry(7);
    DefaultEntry(8);
    PointerAlignments(DefaultTables(), 0, 0);
  }

  lemma DefaultPair()
    requires Sound(DefaultTables()) && Alignment(DefaultTables(), Integer(32), true) == Alignment(DefaultTables(), Integer(64), true) == 4
    ensures LayoutOf(Word64, DefaultTables(), Struct(false, [Integer(32), Integer(64)])) == StructLayout(12, 4, [0, 4])
  {
    hide Sound, DefaultTables, Alignment, LayoutOf, IsAlignment, TypeAllocSize, StructAlignment, AlignTo;
    var t, ty := DefaultTables(), Struct(false, [Integer(32), Integer(64)]);
    SmallAlloc(t, Integer(32), 4);
    SmallAlloc(t, Integer(64), 8);
    PairAlignment(t, Integer(32), Integer(64));
    SmallRoundings();
    LayoutSteps(Word64, t, ty, 0);
    LayoutSteps(Word64, t, ty, 1);
    LayoutSteps(Word64, t, ty, 2);
    assert LayoutOf(Word64, t, ty).offsets == [0, 4];
  }

  lemma SmallRoundings()
    ensures AlignTo(Word64, 0, 4) == 0 && AlignTo(Word64, 4, 4) == 4 && AlignTo(Word64, 8, 4) == 8 && AlignTo(Word64, 12, 4) == 12
  {
    hide RoundUp;
    AlignedStays(0, 4);
    AlignedStays(4, 4);
    AlignedStays(8, 4);
    AlignedStays(12, 4);
  }

  lemma SmallAlloc(t: Tables, ty: Type, size: nat)
    requires Sound(t) && ((ty.Integer? && ty.width == 8 * size) || (ty.Float? && size == 4))
    requires size in {4, 8} && Alignment(t, ty, true) == 4
    ensures TypeAllocSize(Word64, t, ty) == size
  {
    hide Sound, Alignment, AlignTo;
    ScalarSizes(Word64, t, if ty.Integer? then ty.width else 0);
    SmallRoundings();
    assert TypeStoreSize(Word64, t, ty) == size;
  }

  lemma PairAlignment(t: Tables, x: Type, y: Type)
    requires Sound(t)
    ensures StructAlignment(t, Struct(false, [x, y])) == Max(Max(Alignment(t, x, true), Alignment(t, y, true)), 1)
  {
    hide Sound, Alignment, IsAlignment;
    var ty := Struct(false, [x, y]);
    assert MembersAlignment(t, ty, 2) == Max(MemberAlignment(t, false, y), MembersAlignment(t, ty, 1));
    assert MembersAlignment(t, ty, 1) == Max(MemberAlignment(t, false, x), MembersAlignment(t, ty, 0));
  }

  lemma DefaultOne()
    requires Sound(DefaultTables()) && Alignment(DefaultTables(), Float, true) == 4
    ensures TypeAllocSize(Word64, DefaultTables(), Struct(false, [Float])) == 4
    ensures Alignment(DefaultTables(), Struct(false, [Float]), false) == 8
  {
    hide Sound, AllOf, Exact, LayoutOf, IsAlignment, TypeAllocSize, StructAlignment, AlignTo;
    var t, ty := DefaultTables(), Struct(false, [Float]);
    DefaultEntry(11);
    SmallAlloc(t, Float, 4);
    SingleAlignment(t, Float);
    SmallRoundings();
    LayoutSteps(Word64, t, ty, 0);
    LayoutSteps(Word64, t, ty, 1);
    assert LayoutOf(Word64, t, ty).size == 4;
    WholeBytes(t, ty, 4);
  }

  lemma SingleAlignment(t: Tables, x: Type)
    requires Sound(t)
    ensures StructAlignment(t, Struct(false, [x])) == Max(Alignment(t, x, true), 1)
  {
    hide Sound, Alignment, IsAlignment;
    var ty := Struct(false, [x]);
    assert MembersAlignment(t, ty, 1) == Max(MemberAlignment(t, false, x), MembersAlignment(t, ty, 0));
  }

  lemma WholeBytes(t: Tables, ty: Type, size: nat)
    requires Sound(t) && ty.Struct? && LayoutOf(Word64, t, ty).size == size == 4 && Alignment(t, ty, true) == 4
    ensures TypeAllocSize(Word64, t, ty) == size
  {
    hide Sound, Alignment, AlignTo, LayoutOf;
    SmallRoundings();
    assert TypeStoreSize(Word64, t, ty) == size;
  }

  // ----- a struct whose 64-bit members overlap

  const BLOCK_OF_BYTES := Array(0x1000_0000_0000_0000, Integer(8))

  function ManyBlocks(): Type {
    Struct(false, seq(17, _ => BLOCK_OF_BYTES))
  }

  /** The default tables give each kind and width listed just the alignments listed. */
  lemma DefaultEntry(i: nat)
    requires i < |DEFAULT_ALIGNMENTS|
    ensures Exact(AllOf(DEFAULT_ALIGNMENTS), DEFAULT_ALIGNMENTS[i].kind, DEFAULT_ALIGNMENTS[i].bitWidth) == Some(DEFAULT_ALIGNMENTS[i])
  {
    hide AllOf, Exact;
    var d := DEFAULT_ALIGNMENTS[i];
    AllOfHolds(DEFAULT_ALIGNMENTS);
    ExactMeans(AllOf(DEFAULT_ALIGNMENTS), d.kind, d.bitWidth);
    assert Has(AllOf(DEFAULT_ALIGNMENTS), d.kind, d.bitWidth);
    hide Has;
    var e := Exact(AllOf(DEFAULT_ALIGNMENTS), d.kind, d.bitWidth).value;
    assert e in DEFAULT_ALIGNMENTS;
    OneDefault(i, e);
  }

  lemma OneDefault(i: nat, e: AlignElem)
    requires i < |DEFAULT_ALIGNMENTS| && e in DEFAULT_ALIGNMENTS
    requires e.kind == DEFAULT_ALIGNMENTS[i].kind && e.bitWidth == DEFAULT_ALIGNMENTS[i].bitWidth
    ensures e == DEFAULT_ALIGNMENTS[i]
  {
  }

  lemma DefaultByteAlignment()
    requires Sound(DefaultTables())
    ensures Alignment(DefaultTables(), Integer(8), true) == 1
  {
    hide AllOf, Exact, Sound, IsAlignment, Narrowest, Widest, Natural;
    DefaultEntry(1);
  }

  lemma ByteSize(a: Arithmetic, t: Tables)
    requires Sound(t) && Alignment(t, Integer(8), true) == 1
    ensures TypeAllocSize(a, t, Integer(8)) == 1
  {
    hide Sound, Alignment;
    assert TypeStoreSize(a, t, Integer(8)) == 1;
  }

  lemma BlockBits(a: Arithmetic)
    ensures BitsOfElements(a, 0x1000_0000_0000_0000, 1) == 0x8000_0000_0000_0000
  {
  }

  lemma BlockSize(a: Arithmetic, t: Tables)
    requires Sound(t) && Alignment(t, Integer(8), true) == 1
    ensures TypeSizeInBits(a, t, BLOCK_OF_BYTES) == 0x8000_0000_0000_0000
    ensures TypeAllocSize(a, t, BLOCK_OF_BYTES) == 0x1000_0000_0000_0000
    ensures Alignment(t, BLOCK_OF_BYTES, true) == 1
  {
    hide Sound, TypeAllocSize, BitsOfElements, Fit;
    ByteSize(a, t);
    BlockBits(a);
    PaddedBlock(a, t);
  }

  lemma PaddedBlock(a: Arithmetic, t: Tables)
    requires Sound(t) && Alignment(t, BLOCK_OF_BYTES, true) == 1
    requires TypeSizeInBits(a, t, BLOCK_OF_BYTES) == 0x8000_0000_0000_0000
    ensures TypeAllocSize(a, t, BLOCK_OF_BYTES) == 0x1000_0000_0000_0000
  {
    hide Sound, Alignment, TypeSizeInBits;
  }

  lemma AlignToOne(x: nat)
    requires x < WORD
    ensures AlignTo(Word64, x, 1) == x
  {
  }

  /** Where k blocks of 2^60 bytes end. */
  function BlocksEnd(k: nat): (end: nat)
    ensures end < WORD
  {
    k * 0x1000_0000_0000_0000 % WORD
  }

  lemma BlocksEndNext(k: nat)
    ensures Fit(Word64, BlocksEnd(k) + 0x1000_0000_0000_0000) == BlocksEnd(k + 1)
  {
  }

  lemma BlocksStart()
    ensures BlocksEnd(0) == 0
  {
  }

  lemma StepOf(t: Tables, ty: Type, i: nat)
    requires Sound(t) && ty.Struct? && i < |ty.elems| && Alignment(t, ty.elems[i], true) == 1
    ensures LayoutOf(Word64, t, ty).offsets[i] == AlignTo(Word64, EndBefore(Word64, t, ty, LayoutOf(Word64, t, ty), i), 1)
  {
    hide Sound, LayoutOf, TypeAllocSize, Alignment, AlignTo, IsAlignment, Fit, EndBefore;
    LayoutSteps(Word64, t, ty, i);
  }

  /** Members of 2^60 bytes come one behind the other. */
  lemma {:induction false} BlocksPlaced(t: Tables, ty: Type, e: Type, i: nat)
    requires Sound(t) && ty.Struct? && i < |ty.elems| && forall j :: 0 <= j < |ty.elems| ==> ty.elems[j] == e
    requires Alignment(t, e, true) == 1 && TypeAllocSize(Word64, t, e) == 0x1000_0000_0000_0000
    ensures LayoutOf(Word64, t, ty).offsets[i] == BlocksEnd(i)
  {
    hide Sound, LayoutOf, TypeAllocSize, Alignment, AlignTo, IsAlignment, BlocksEnd, Fit;
    BlocksStart();
    StepOf(t, ty, i);
    AlignToOne(BlocksEnd(i));
    if i > 0 {
      BlocksPlaced(t, ty, e, i - 1);
      BlocksEndNext(i - 1);
    }
  }

  /** Each of the seventeen members fits, but in 64-bit arithmetic the last starts where the
      first does. */
  lemma MembersOverlap()
    ensures Sound(DefaultTables())
    ensures TypeSizeInBits(Unbounded, DefaultTables(), BLOCK_OF_BYTES) + 7 < WORD
    ensures var r := LayoutOf(Word64, DefaultTables(), ManyBlocks());
      r.offsets[16] == r.offsets[0] == 0 && End(Word64, DefaultTables(), ManyBlocks(), r, 0) == 0x1000_0000_0000_0000
    ensures !LayoutFits(DefaultTables(), ManyBlocks())
  {
    hide Sound, DefaultTables, IsAlignment, TypeSizeInBits, TypeAllocSize, LayoutFits, LayoutOf, Alignment;
    DefaultsSound();
    DefaultByteAlignment();
    BlockSize(Unbounded, DefaultTables());
    BlockSize(Word64, DefaultTables());
    BlocksPlaced(DefaultTables(), ManyBlocks(), BLOCK_OF_BYTES, 0);
    BlocksPlaced(DefaultTables(), ManyBlocks(), BLOCK_OF_BYTES, 16);
    if LayoutFits(DefaultTables(), ManyBlocks()) {
      MembersApart(Word64, DefaultTables(), ManyBlocks(), 0, 16);
    }
  }

  lemma EightIsPower()
    ensures IsPowerOfTwo(8)
  {
    assert Pow2(3) == 8;
    Pow2IsPowerOfTwo(3);
  }

  lemma WithAlignmentFrom(es: seq<AlignElem>, i: nat, e: AlignElem)
    requires i < |es| && WithAlignment(es, e) == es[..i] + WithAlignment(es[i..], e)
    ensures if es[i].kind == e.kind && es[i].bitWidth == e.bitWidth then WithAlignment(es, e) == es[i := e]
      else WithAlignment(es, e) == es[..i + 1] + WithAlignment(es[i + 1..], e)
  {
    hide WithAlignment;
    WithAlignmentHead(es[i..], e);
    assert es[i..][1..] == es[i + 1..];
    Spliced(es, i, e, WithAlignment(es[i + 1..], e));
  }

  lemma WithAlignmentHead(es: seq<AlignElem>, e: AlignElem)
    requires es != []
    ensures WithAlignment(es, e) ==
      if es[0].kind == e.kind && es[0].bitWidth == e.bitWidth then [e] + es[1..] else [es[0]] + WithAlignment(es[1..], e)
  {
  }

  lemma Spliced<T>(s: seq<T>, i: nat, x: T, tail: seq<T>)
    requires i < |s|
    ensures s[..i] + ([x] + s[i + 1..]) == s[i := x]
    ensures s[..i] + ([s[i]] + tail) == s[..i + 1] + tail
  {
  }

  lemma DescribedNext(specs: seq<Specifier>, i: nat)
    requires i < |specs|
    ensures Described(specs[..i + 1]) == With(Described(specs[..i]), specs[i])
  {
    assert specs[..i + 1][..i] == specs[..i];
  }

  lemma DescribedEnds(specs: seq<Specifier>)
    ensures Described(specs[..0]) == DefaultTables() && Described(specs[..|specs|]) == Described(specs)
  {
    assert specs[..|specs|] == specs;
  }

  class DataLayout {
    var alignments: seq<AlignElem>
    var pointers: seq<PointerElem>
    var layoutMap: map<Type, StructLayout>

    function T(): Tables
      reads this`alignments, this`pointers
    {
      Tables(alignments, pointers)
    }

    /** Every layout remembered is the one computed afresh. */
    ghost predicate Valid()
      reads this
    {
      Sound(T()) && forall st :: st in layoutMap ==> st.Struct? && layoutMap[st] == LayoutOf(Word64, T(), st)
    }

    constructor ()
      ensures alignments == [] && pointers == [] && layoutMap == map[]
    {
      alignments, pointers, layoutMap := [], [], map[];
    }

    // ----- queries

    method TypeSizeInBitsOf(ty: Type) returns (r: nat)
      requires Valid()
      modifies this`layoutMap
      ensures Valid() && r == TypeSizeInBits(Word64, T(), ty)
      decreases ty, 2
    {
      hide BitsOfElements;
      match ty
      case Label => r := PointerBits(T(), 0);
      case Pointer(a) => r := PointerBits(T(), a);
      case Array(n, e) => var size := TypeAllocSizeOf(e); r := BitsOfElements(Word64, n, size);
      case Vector(n, e) => var size := TypeAllocSizeOf(e); r := BitsOfElements(Word64, n, size);
      case Struct(_, _) => var sl := GetStructLayout(ty); r := 8 * sl.size % WORD;
      case Integer(w) => r := w;
      case _ => r := FloatBits(ty);
    }

    method TypeStoreSizeOf(ty: Type) returns (r: nat)
      requires Valid()
      modifies this`layoutMap
      ensures Valid() && r == TypeStoreSize(Word64, T(), ty)
      decreases ty, 3
    {
      var bits := TypeSizeInBitsOf(ty);
      r := (bits + 7) % WORD / 8;
    }

    method AlignmentOf(ty: Type, abi: bool) returns (r: nat)
      requires Valid()
      modifies this`layoutMap
      ensures Valid() && r == Alignment(T(), ty, abi)
      decreases ty, 4
    {
      hide IsAlignment, Sound, AlignmentInfo, TypeStoreSize, StructAlignment;
      match ty
      case Label => r := PointerAlignment(T(), 0, abi);
      case Pointer(a) => r := PointerAlignment(T(), a, abi);
      case Array(_, e) => r := AlignmentOf(e, abi);
      case Vector(_, e) => r := AlignmentOf(e, abi);
      case Struct(packed, _) =>
        if packed && abi {
          return 1;
        }
        var sl := GetStructLayout(ty);
        var align := FindAlignment(AggregateAlign, 0, abi, 0);
        r := Max(align, sl.alignment);
      case Integer(w) =>
        var size := TypeStoreSizeOf(ty);
        ScalarStoreSize(T(), ty);
        r := FindAlignment(IntegerAlign, w, abi, size);
      case _ =>
        var size := TypeStoreSizeOf(ty);
        ScalarStoreSize(T(), ty);
        r := FindAlignment(FloatAlign, FloatBits(ty), abi, size);
    }

    method TypeAllocSizeOf(ty: Type) returns (r: nat)
      requires Valid()
      modifies this`layoutMap
      ensures Valid() && r == TypeAllocSize(Word64, T(), ty)
      decreases ty, 5
    {
      var size := TypeStoreSizeOf(ty);
      var align := AlignmentOf(ty, true);
      RoundUpWraps(size, align);
      r := RoundUpToAlignment(size, align);
    }

    method GetStructLayout(ty: Type) returns (sl: StructLayout)
      requires Valid() && ty.Struct?
      modifies this`layoutMap
      ensures Valid() && sl == LayoutOf(Word64, T(), ty)
      decreases ty, 1
    {
      if ty !in layoutMap {
        var made := ComputeLayout(ty);
        layoutMap := layoutMap[ty := made];
      }
      sl := layoutMap[ty];
    }

    /** Place the members one by one, then pad the end. */
    method ComputeLayout(ty: Type) returns (sl: StructLayout)
      requires Valid() && ty.Struct?
      modifies this`layoutMap
      ensures Valid() && sl == LayoutOf(Word64, T(), ty)
      decreases ty, 0
    {
      hide Sound, AlignTo, AlignUp, IsAlignment, TypeAllocSize, Alignment, MembersAlignment;
      var size: nat, alignment: nat := 0, 0;
      var offsets: seq<nat> := [];
      var i := 0;
      while i < |ty.elems|
        invariant i <= |ty.elems| && Valid()
        invariant StructLayout(size, alignment, offsets) == Placed(Word64, T(), ty, i)
      {
        var e := ty.elems[i];
        var align := 1;
        if !ty.packed {
          align := AlignmentOf(e, true);
        }
        assert align == MemberAlignment(T(), ty.packed, e);
        AlignUpRounds(size, align);
        size := AlignUp(size, align);
        alignment := Max(align, alignment);
        offsets := offsets + [size];
        var allocSize := TypeAllocSizeOf(e);
        size := (size + allocSize) % WORD;
        i := i + 1;
      }
      if alignment == 0 {
        alignment := 1;
        PowerOne();
      }
      AlignUpRounds(size, alignment);
      size := AlignUp(size, alignment);
      sl := StructLayout(size, alignment, offsets);
    }

    /** The search through the table, with the best entries so far. */
    method FindAlignment(kind: AlignKind, width: nat, abi: bool, storeSize: nat) returns (r: nat)
      ensures r == AlignmentInfo(T(), kind, width, abi, storeSize)
      ensures forall i :: 0 <= i < |alignments| && FirstAt(alignments, kind, width, i) ==>
        r == if abi then alignments[i].abi else alignments[i].pref
    {
      hide FirstAt, Natural;
      FirstDecides(T(), kind, width, abi, storeSize);
      var bestMatch: Option<AlignElem>, largestInt: Option<AlignElem> := None, None;
      var i := 0;
      while i < |alignments|
        invariant i <= |alignments| && Exact(alignments[..i], kind, width) == None
        invariant bestMatch == (if kind == IntegerAlign then Narrowest(alignments[..i], width) else None)
        invariant largestInt == (if kind == IntegerAlign then Widest(alignments[..i]) else None)
      {
        var e := alignments[i];
        assert alignments[..i + 1][..i] == alignments[..i];
        if e.kind == kind && e.bitWidth == width {
          ExactStays(alignments, kind, width, i + 1);
          return Pick(e, abi);
        }
        if kind == IntegerAlign && e.kind == IntegerAlign {
          if e.bitWidth > width && (bestMatch.None? || e.bitWidth < bestMatch.value.bitWidth) {
            bestMatch := Some(e);
          }
          if largestInt.None? || e.bitWidth > largestInt.value.bitWidth {
            largestInt := Some(e);
          }
        }
        i := i + 1;
      }
      assert alignments[..i] == alignments;
      if bestMatch.None? && kind == IntegerAlign {
        bestMatch := largestInt;
      }
      if bestMatch.None? {
        return Natural(storeSize);
      }
      r := Pick(bestMatch.value, abi);
    }

    // ----- building the tables

    /** Set the entry of a kind and width.  Only sound entries are let through. */
    method SetAlignment(e: AlignElem) returns (ok: bool)
      modifies this`alignments
      ensures ok == Accepts(e)
      ensures alignments == if ok then WithAlignment(old(alignments), e) else old(alignments)
    {
      if !(e.bitWidth < Pow2(24)) { return false; }
      if !(e.abi < Pow2(16)) { return false; }
      if !(e.pref < Pow2(16)) { return false; }
      if e.abi != 0 && !IsPowerOfTwo(e.abi) { return false; }
      if e.pref != 0 && !IsPowerOfTwo(e.pref) { return false; }
      if e.pref < e.abi { return false; }
      assert Accepts(e);
      assert alignments[..0] == [] && alignments[0..] == alignments;
      hide IsPowerOfTwo, Pow2, Accepts;
      var i := 0;
      while i < |alignments|
        invariant i <= |alignments| && alignments == old(alignments)
        invariant WithAlignment(alignments, e) == alignments[..i] + WithAlignment(alignments[i..], e)
      {
        WithAlignmentFrom(alignments, i, e);
        if alignments[i].kind == e.kind && alignments[i].bitWidth == e.bitWidth {
          alignments := alignments[i := e];
          return true;
        }
        i := i + 1;
      }
      assert alignments[i..] == [] && alignments[..i] == alignments;
      alignments := alignments + [e];
      return true;
    }

    method SetPointerAlignment(p: PointerElem) returns (ok: bool)
      modifies this`pointers
      ensures ok == (p.abi <= p.pref)
      ensures pointers == if ok then WithPointer(old(pointers), p) else old(pointers)
    {
      if p.pref < p.abi {
        return false;
      }
      var k := LowerBound(pointers, p.addrSpace);
      if k == |pointers| || pointers[k].addrSpace != p.addrSpace {
        pointers := pointers[..k] + [p] + pointers[k..];
      } else {
        pointers := pointers[k := p];
      }
      return true;
    }

    /** One specifier of a description. */
    method ApplySpecifier(spec: Specifier) returns (ok: bool)
      requires Sound(T())
      modifies this`alignments, this`pointers
      ensures ok == Allowed(spec)
      ensures ok ==> Sound(T()) && T() == With(old(T()), spec)
    {
      match spec
      case PointerSpec(a, size, abi, pref) =>
        if !(a < Pow2(24)) || size % 8 != 0 || size / 8 == 0 || abi % 8 != 0 || !IsPowerOfTwo(abi / 8) {
          return false;
        }
        var prefBits := if pref.Some? then pref.value else abi;
        if prefBits % 8 != 0 || !IsPowerOfTwo(prefBits / 8) {
          return false;
        }
        ok := SetPointerAlignment(PointerElem(a, abi / 8, prefBits / 8, size / 8));
        if ok {
          SoundPointer(old(T()), PointerElem(a, abi / 8, prefBits / 8, size / 8));
        }
      case AlignSpec(kind, width, abi, pref) =>
        if (kind == AggregateAlign && width != 0) || abi % 8 != 0 || (kind != AggregateAlign && abi / 8 == 0) {
          return false;
        }
        var prefBits := if pref.Some? then pref.value else abi;
        if prefBits % 8 != 0 {
          return false;
        }
        ok := SetAlignment(AlignElem(kind, width, abi / 8, prefBits / 8));
        if ok {
          SoundAlignment(old(T()), AlignElem(kind, width, abi / 8, prefBits / 8));
        }
      case OtherSpec =>
        ok := true;
    }

    /** Start from the default tables and apply the specifiers in turn.  Whatever they are, if
        none is refused the tables are sound. */
    method Reset(specs: seq<Specifier>) returns (ok: bool)
      modifies this
      ensures ok == (forall i :: 0 <= i < |specs| ==> Allowed(specs[i]))
      ensures ok ==> Valid() && T() == Described(specs)
    {
      hide Sound, Allowed, With, Described, DefaultTables;
      layoutMap := map[];
      SetDefaults();
      DescribedEnds(specs);
      var i := 0;
      while i < |specs|
        invariant i <= |specs| && layoutMap == map[] && Sound(T()) && T() == Described(specs[..i])
        invariant forall j :: 0 <= j < i ==> Allowed(specs[j])
      {
        DescribedNext(specs, i);
        ok := ApplySpecifier(specs[i]);
        if !ok {
          return false;
        }
        i := i + 1;
      }
      return true;
    }

    method SetDefaults()
      modifies this`alignments, this`pointers
      ensures Sound(T()) && T() == DefaultTables()
    {
      alignments, pointers := [], [];
      var i := 0;
      while i < |DEFAULT_ALIGNMENTS|
        invariant i <= |DEFAULT_ALIGNMENTS| && pointers == [] && alignments == AllOf(DEFAULT_ALIGNMENTS[..i])
      {
        hide Accepts, WithAlignment, AllOf, EntryOk;
        DefaultsAccepted(i);
        AllOfNext(DEFAULT_ALIGNMENTS, i);
        var ok := SetAlignment(DEFAULT_ALIGNMENTS[i]);
        i := i + 1;
      }
      hide AllOf, Sound;
      assert DEFAULT_ALIGNMENTS[..i] == DEFAULT_ALIGNMENTS;
      var ok := SetPointerAlignment(PointerElem(0, 8, 8, 8));
      DefaultsSound();
    }
  }

  /** Rounding that leaves aligned values alone, as the layout does it. */
  function AlignUp(value: nat, align: nat): nat
    requires 0 < align <= WORD && value < WORD
  {
    if And(value, align - 1) != 0 then RoundUpToAlignment(value, align) else value
  }

  lemma AlignUpRounds(value: nat, align: nat)
    requires IsAlignment(align) && value < WORD
    ensures AlignUp(value, align) == AlignTo(Word64, value, align)
  {
    hide And, RoundUp, RoundUpToAlignment;
    AndBelow(value, align);
    RoundUpWraps(value, align);
    hide IsPowerOfTwo;
    if value % align == 0 {
      AlignedStays(value, align);
    }
  }
}
