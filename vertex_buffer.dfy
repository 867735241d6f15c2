/**
 * The CPU-side description of a vertex buffer: its element list with byte offsets
 * laid out one after another, the vertex size, the 64-bit layout hash, the mask of
 * legacy elements present, the lookups over an element list, and the shadow copy's
 * size. Element type sizes and the fourteen legacy elements are the engine's tables.
 * A flag mask is modelled as the set of its bit positions.
 */
module VertexBuffer {
  import opened Str

  datatype VertexElementType = Int | Float | Vector2 | Vector3 | Vector4 | UByte4 | UByte4Norm
  datatype VertexElementSemantic =
    Position | Normal | Binormal | Tangent | TexCoord | Color | BlendWeights | BlendIndices | ObjectIndex

  /** An element of a vertex: what it is (type, semantic, index), whether it steps per instance, and its byte offset. */
  datatype VertexElement = VertexElement(elementType: VertexElementType, semantic: VertexElementSemantic,
                                         index: int, perInstance: bool, offset: int)

  const MAX_LEGACY_VERTEX_ELEMENTS: nat := 14
  const U64_LIMIT: int := 0x1_0000_0000_0000_0000
  /** The "no index" result of an offset lookup. */
  const NINDEX: int := -1

  function TypeOrdinal(t: VertexElementType): nat
  {
    match t
    case Int => 0 case Float => 1 case Vector2 => 2 case Vector3 => 3
    case Vector4 => 4 case UByte4 => 5 case UByte4Norm => 6
  }

  function SemanticOrdinal(s: VertexElementSemantic): nat
  {
    match s
    case Position => 0 case Normal => 1 case Binormal => 2 case Tangent => 3 case TexCoord => 4
    case Color => 5 case BlendWeights => 6 case BlendIndices => 7 case ObjectIndex => 8
  }

  /** Bytes taken by one element of each type. */
  function TypeSize(t: VertexElementType): nat
  {
    match t
    case Int => 4 case Float => 4 case Vector2 => 8 case Vector3 => 12
    case Vector4 => 16 case UByte4 => 4 case UByte4Norm => 4
  }

  function Element(t: VertexElementType, s: VertexElementSemantic, index: int, perInstance: bool): VertexElement
  {
    VertexElement(t, s, index, perInstance, 0)
  }

  /** The elements of the legacy flag layout, bit by bit. */
  const LEGACY_VERTEXELEMENTS: seq<VertexElement> := [
    Element(Vector3, Position, 0, false),
    Element(Vector3, Normal, 0, false),
    Element(UByte4Norm, Color, 0, false),
    Element(Vector2, TexCoord, 0, false),
    Element(Vector2, TexCoord, 1, false),
    Element(Vector3, TexCoord, 0, false),
    Element(Vector3, TexCoord, 1, false),
    Element(Vector4, Tangent, 0, false),
    Element(Vector4, BlendWeights, 0, false),
    Element(UByte4, BlendIndices, 0, false),
    Element(Vector4, TexCoord, 4, true),
    Element(Vector4, TexCoord, 5, true),
    Element(Vector4, TexCoord, 6, true),
    Element(Int, ObjectIndex, 0, false)
  ]

  /** Two elements describe the same data when type, semantic and index agree. */
  predicate SameKind(a: VertexElement, b: VertexElement)
  {
    a.elementType == b.elementType && a.semantic == b.semantic && a.index == b.index
  }

  // ---------------------------------------------------------------------------
  // Layout

  /** Total size of the elements. */
  function SizeSum(es: seq<VertexElement>): (r: nat)
    ensures 4 * |es| <= r
  {
    if |es| == 0 then 0 else SizeSum(es[..|es| - 1]) + TypeSize(es[|es| - 1].elementType)
  }

  /** The elements with each offset set to the total size of the elements before it. */
  function WithOffsets(es: seq<VertexElement>): (r: seq<VertexElement>)
    ensures |r| == |es|
  {
    seq(|es|, i requires 0 <= i < |es| => es[i].(offset := SizeSum(es[..i])))
  }

  /** The offsets pack the elements back to back from 0, and the last one ends at the vertex size. */
  lemma OffsetsContiguous(es: seq<VertexElement>)
    ensures forall i :: 0 <= i < |es| ==> SameKind(WithOffsets(es)[i], es[i]) && WithOffsets(es)[i].perInstance == es[i].perInstance
    ensures |es| > 0 ==> WithOffsets(es)[0].offset == 0
    ensures forall i :: 0 <= i < |es| - 1 ==>
      WithOffsets(es)[i + 1].offset == WithOffsets(es)[i].offset + TypeSize(es[i].elementType)
    ensures |es| > 0 ==> WithOffsets(es)[|es| - 1].offset + TypeSize(es[|es| - 1].elementType) == SizeSum(es)
  {
    forall i | 0 <= i < |es| - 1
      ensures WithOffsets(es)[i + 1].offset == WithOffsets(es)[i].offset + TypeSize(es[i].elementType)
    {
      assert es[..i + 1][..i] == es[..i];
    }
    if |es| > 0 {
      assert es[..|es| - 1] == es[..|es| - 1];
    }
  }

  /** The static UpdateOffsets: rewrites each element's offset, nothing else. */
  method UpdateOffsets(elements: seq<VertexElement>) returns (r: seq<VertexElement>)
    ensures r == WithOffsets(elements)
  {
    r := elements;
    var elementOffset := 0;
    for i := 0 to |r|
      invariant |r| == |elements| && elementOffset == SizeSum(elements[..i])
      invariant r[..i] == WithOffsets(elements)[..i] && r[i..] == elements[i..]
    {
      assert r[i] == elements[i];
      r := r[i := r[i].(offset := elementOffset)];
      assert elements[..i + 1][..i] == elements[..i];
      elementOffset := elementOffset + TypeSize(r[i].elementType);
    }
  }

  /** The 64-bit layout hash: six bits of shift per element, then its type, semantic and index mixed in. */
  function LayoutHash(es: seq<VertexElement>): (r: nat)
    ensures r < U64_LIMIT
  {
    if |es| == 0 then 0
    else
      var e := es[|es| - 1];
      (LayoutHash(es[..|es| - 1]) * 64 + (TypeOrdinal(e.elementType) + 1) * (SemanticOrdinal(e.semantic) + 1) + e.index) % U64_LIMIT
  }

  /** The layout hash depends on what the elements are, not on their offsets. */
  lemma {:induction false} HashIgnoresOffsets(es: seq<VertexElement>)
    ensures LayoutHash(WithOffsets(es)) == LayoutHash(es)
    decreases |es|
  {
    if |es| > 0 {
      var init := es[..|es| - 1];
      HashIgnoresOffsets(init);
      WithOffsetsPrefix(es, |es| - 1);
    }
  }

  /** The legacy bits an element matches. */
  function LegacyBits(e: VertexElement): set<nat>
  {
    set j | 0 <= j < MAX_LEGACY_VERTEX_ELEMENTS && SameKind(e, LEGACY_VERTEXELEMENTS[j])
  }

  /** The legacy mask of an element list: the bits of all its elements. */
  function LegacyMask(es: seq<VertexElement>): (r: set<nat>)
    ensures forall j :: j in r ==> j < MAX_LEGACY_VERTEX_ELEMENTS
  {
    if |es| == 0 then {} else LegacyMask(es[..|es| - 1]) + LegacyBits(es[|es| - 1])
  }

  /** Bit j is in the mask exactly when some element matches legacy element j in type, semantic and index. */
  lemma {:induction false} LegacyMaskExact(es: seq<VertexElement>, j: nat)
    ensures j in LegacyMask(es) <==>
      j < MAX_LEGACY_VERTEX_ELEMENTS && exists k :: 0 <= k < |es| && SameKind(es[k], LEGACY_VERTEXELEMENTS[j])
    decreases |es|
  {
    if |es| > 0 {
      var init := es[..|es| - 1];
      LegacyMaskExact(init, j);
      if j < MAX_LEGACY_VERTEX_ELEMENTS && (exists k :: 0 <= k < |es| && SameKind(es[k], LEGACY_VERTEXELEMENTS[j])) {
        var k :| 0 <= k < |es| && SameKind(es[k], LEGACY_VERTEXELEMENTS[j]);
        if k < |es| - 1 {
          assert init[k] == es[k];
        }
      }
      if j in LegacyMask(init) {
        var k :| 0 <= k < |init| && SameKind(init[k], LEGACY_VERTEXELEMENTS[j]);
        assert es[k] == init[k];
      }
    }
  }

  /** The legacy elements whose bits among the first `n` are set, in ascending bit order. */
  function LegacyElements(mask: set<nat>, n: nat): (r: seq<VertexElement>)
    requires n <= MAX_LEGACY_VERTEX_ELEMENTS
  {
    if n == 0 then []
    else LegacyElements(mask, n - 1) + (if n - 1 in mask then [LEGACY_VERTEXELEMENTS[n - 1]] else [])
  }

  /** Vertex size of the legacy elements whose bits among the first `n` are set. */
  function MaskSize(mask: set<nat>, n: nat): nat
    requires n <= MAX_LEGACY_VERTEX_ELEMENTS
  {
    if n == 0 then 0
    else MaskSize(mask, n - 1) + (if n - 1 in mask then TypeSize(LEGACY_VERTEXELEMENTS[n - 1].elementType) else 0)
  }

  /** Every listed element is a legacy element whose bit is set, and every set bit is listed. */
  lemma {:induction false} LegacyElementsExact(mask: set<nat>, n: nat, e: VertexElement)
    requires n <= MAX_LEGACY_VERTEX_ELEMENTS
    ensures e in LegacyElements(mask, n) <==> exists j :: 0 <= j < n && j in mask && LEGACY_VERTEXELEMENTS[j] == e
    decreases n
  {
    if n > 0 {
      LegacyElementsExact(mask, n - 1, e);
    }
  }

  /** The vertex size of a legacy mask is the vertex size of its elements. */
  lemma {:induction false} MaskSizeIsElementsSize(mask: set<nat>, n: nat)
    requires n <= MAX_LEGACY_VERTEX_ELEMENTS
    ensures MaskSize(mask, n) == SizeSum(LegacyElements(mask, n))
    decreases n
  {
    if n > 0 {
      MaskSizeIsElementsSize(mask, n - 1);
      var prev := LegacyElements(mask, n - 1);
      if n - 1 in mask {
        var es := prev + [LEGACY_VERTEXELEMENTS[n - 1]];
        assert es[..|es| - 1] == prev;
      } else {
        assert prev + [] == prev;
      }
    }
  }

  /** No two legacy elements describe the same data. */
  lemma LegacyDistinct(a: nat, b: nat)
    requires a < MAX_LEGACY_VERTEX_ELEMENTS && b < MAX_LEGACY_VERTEX_ELEMENTS
    requires SameKind(LEGACY_VERTEXELEMENTS[a], LEGACY_VERTEXELEMENTS[b])
    ensures a == b
  {
  }

  /** Setting a buffer up from a legacy mask gives back that mask, restricted to the legacy bits. */
  lemma LegacyMaskRoundTrip(mask: set<nat>, j: nat)
    ensures j in LegacyMask(LegacyElements(mask, MAX_LEGACY_VERTEX_ELEMENTS)) <==> j < MAX_LEGACY_VERTEX_ELEMENTS && j in mask
  {
    var es := LegacyElements(mask, MAX_LEGACY_VERTEX_ELEMENTS);
    LegacyMaskExact(es, j);
    if j in LegacyMask(es) {
      var k :| 0 <= k < |es| && SameKind(es[k], LEGACY_VERTEXELEMENTS[j]);
      LegacyElementsExact(mask, MAX_LEGACY_VERTEX_ELEMENTS, es[k]);
      var b :| 0 <= b < MAX_LEGACY_VERTEX_ELEMENTS && b in mask && LEGACY_VERTEXELEMENTS[b] == es[k];
      LegacyDistinct(b, j);
    }
    if j < MAX_LEGACY_VERTEX_ELEMENTS && j in mask {
      LegacyElementsExact(mask, MAX_LEGACY_VERTEX_ELEMENTS, LEGACY_VERTEXELEMENTS[j]);
      var k :| 0 <= k < |es| && es[k] == LEGACY_VERTEXELEMENTS[j];
    }
  }

  /** GetElements(mask): the legacy elements of the set bits, in ascending bit order. */
  method GetElements(mask: set<nat>) returns (r: seq<VertexElement>)
    ensures r == LegacyElements(mask, MAX_LEGACY_VERTEX_ELEMENTS)
  {
    r := [];
    for i := 0 to MAX_LEGACY_VERTEX_ELEMENTS
      invariant r == LegacyElements(mask, i)
    {
      if i in mask {
        r := r + [LEGACY_VERTEXELEMENTS[i]];
      }
    }
  }

  /** GetVertexSize(elements): the sum of the element sizes. */
  method GetVertexSize(elements: seq<VertexElement>) returns (size: nat)
    ensures size == SizeSum(elements)
  {
    size := 0;
    for i := 0 to |elements|
      invariant size == SizeSum(elements[..i])
    {
      assert elements[..i + 1][..i] == elements[..i];
      size := size + TypeSize(elements[i].elementType);
    }
    assert elements[..|elements|] == elements;
  }

  /** GetVertexSize(mask): the sum of the sizes of the legacy elements whose bits are set. */
  method GetMaskVertexSize(mask: set<nat>) returns (size: nat)
    ensures size == SizeSum(LegacyElements(mask, MAX_LEGACY_VERTEX_ELEMENTS))
  {
    size := 0;
    for i := 0 to MAX_LEGACY_VERTEX_ELEMENTS
      invariant size == MaskSize(mask, i)
    {
      if i in mask {
        size := size + TypeSize(LEGACY_VERTEXELEMENTS[i].elementType);
      }
    }
    MaskSizeIsElementsSize(mask, MAX_LEGACY_VERTEX_ELEMENTS);
  }

  // ---------------------------------------------------------------------------
  // Lookups

  /** The position of the first element with this type, semantic and index (None for a null pointer). */
  method GetElement(elements: seq<VertexElement>, t: VertexElementType, semantic: VertexElementSemantic, index: int)
    returns (r: Option<nat>)
    ensures r.Some? ==> r.value < |elements| && SameKind(elements[r.value], Element(t, semantic, index, false))
    ensures r.Some? ==> forall k :: 0 <= k < r.value ==> !SameKind(elements[k], Element(t, semantic, index, false))
    ensures r.None? <==> forall k :: 0 <= k < |elements| ==> !SameKind(elements[k], Element(t, semantic, index, false))
  {
    for i := 0 to |elements|
      invariant forall k :: 0 <= k < i ==> !SameKind(elements[k], Element(t, semantic, index, false))
    {
      if elements[i].elementType == t && elements[i].semantic == semantic && elements[i].index == index {
        return Some(i);
      }
    }
    return None;
  }

  /** The member lookup without a type: the first element with this semantic and index. */
  method GetElementBySemantic(elements: seq<VertexElement>, semantic: VertexElementSemantic, index: int)
    returns (r: Option<nat>)
    ensures r.Some? ==> r.value < |elements| && elements[r.value].semantic == semantic && elements[r.value].index == index
    ensures r.Some? ==> forall k :: 0 <= k < r.value ==> !(elements[k].semantic == semantic && elements[k].index == index)
    ensures r.None? <==> forall k :: 0 <= k < |elements| ==> !(elements[k].semantic == semantic && elements[k].index == index)
  {
    for i := 0 to |elements|
      invariant forall k :: 0 <= k < i ==> !(elements[k].semantic == semantic && elements[k].index == index)
    {
      if elements[i].semantic == semantic && elements[i].index == index {
        return Some(i);
      }
    }
    return None;
  }

  /** Element `k` is the first of `es` describing the same data as `probe`. */
  predicate IsFirstMatch(es: seq<VertexElement>, k: int, probe: VertexElement)
  {
    && 0 <= k < |es| && SameKind(es[k], probe)
    && forall m :: 0 <= m < k ==> !SameKind(es[m], probe)
  }

  /** HasElement: the lookup finds something. */
  method HasElement(elements: seq<VertexElement>, t: VertexElementType, semantic: VertexElementSemantic, index: int)
    returns (r: bool)
    ensures r <==> exists k :: 0 <= k < |elements| && SameKind(elements[k], Element(t, semantic, index, false))
  {
    var e := GetElement(elements, t, semantic, index);
    r := e.Some?;
  }

  /** GetElementOffset: the offset of the first match, or NINDEX when there is none. */
  method GetElementOffset(elements: seq<VertexElement>, t: VertexElementType, semantic: VertexElementSemantic, index: int)
    returns (r: int)
    ensures (forall k :: 0 <= k < |elements| ==> !SameKind(elements[k], Element(t, semantic, index, false))) ==> r == NINDEX
    ensures forall k :: IsFirstMatch(elements, k, Element(t, semantic, index, false)) ==> r == elements[k].offset
  {
    var e := GetElement(elements, t, semantic, index);
    r := if e.Some? then elements[e.value].offset else NINDEX;
  }

  // ---------------------------------------------------------------------------
  // The buffer

  class VertexBuffer {
    /** Whether a graphics subsystem exists (false for a headless buffer). */
    const graphicsPresent: bool
    var shadowed: bool
    var elements: seq<VertexElement>
    var vertexCount: nat
    var vertexSize: nat
    var elementHash: nat
    var elementMask: set<nat>
    var dynamic: bool
    /** Bytes of shadow data, 0 when there is none. */
    var shadowSize: nat

    /** The shadow copy holds a whole buffer exactly when shadowing is on and the buffer is not empty. */
    predicate ShadowConsistent()
      reads this
    {
      shadowSize == if shadowed && vertexCount != 0 && vertexSize != 0 then vertexCount * vertexSize else 0
    }

    predicate Valid()
      reads this
    {
      && (!graphicsPresent ==> shadowed)
      && ShadowConsistent()
      && LaidOut(elements, vertexSize, elementHash, elementMask)
    }

    constructor (graphics: bool)
      ensures Valid() && graphicsPresent == graphics
      ensures shadowed == !graphics && elements == [] && vertexCount == 0 && vertexSize == 0 && shadowSize == 0
    {
      graphicsPresent := graphics;
      shadowed := false;
      elements := [];
      vertexCount := 0;
      vertexSize := 0;
      elementHash := 0;
      elementMask := {};
      dynamic := false;
      shadowSize := 0;
      new;
      if !graphics {
        shadowed := true;
      }
    }

    /** The member UpdateOffsets: offsets, vertex size, layout hash and legacy mask from the element list. */
    method UpdateMemberOffsets()
      modifies this`elements, this`vertexSize, this`elementHash, this`elementMask
      ensures elements == WithOffsets(old(elements)) && vertexSize == SizeSum(old(elements))
      ensures elementHash == LayoutHash(old(elements)) && elementMask == LegacyMask(old(elements))
    {
      ghost var es := elements;
      var elementOffset := 0;
      elementHash := 0;
      elementMask := {};
      for i := 0 to |elements|
        invariant |elements| == |es| && elementOffset == SizeSum(es[..i])
        invariant elements[..i] == WithOffsets(es)[..i] && elements[i..] == es[i..]
        invariant elementHash == LayoutHash(es[..i]) && elementMask == LegacyMask(es[..i])
      {
        elementOffset := UpdateElementOffset(es, i, elementOffset);
      }
      assert es[..|es|] == es;
      vertexSize := elementOffset;
    }

    /** One step of UpdateOffsets: element `i` gets the running offset and joins the hash and the legacy mask. */
    method UpdateElementOffset(ghost es: seq<VertexElement>, i: nat, elementOffset: nat) returns (nextOffset: nat)
      requires i < |es| == |elements| && elementOffset == SizeSum(es[..i])
      requires elements[..i] == WithOffsets(es)[..i] && elements[i..] == es[i..]
      requires elementHash == LayoutHash(es[..i]) && elementMask == LegacyMask(es[..i])
      modifies this`elements, this`elementHash, this`elementMask
      ensures |elements| == |es| && nextOffset == SizeSum(es[..i + 1])
      ensures elements[..i + 1] == WithOffsets(es)[..i + 1] && elements[i + 1..] == es[i + 1..]
      ensures elementHash == LayoutHash(es[..i + 1]) && elementMask == LegacyMask(es[..i + 1])
    {
      var element := elements[i];
      PrefixStep(es, i);
      OffsetStep(es, i, elements);
      elements := elements[i := element.(offset := elementOffset)];
      nextOffset := elementOffset + TypeSize(element.elementType);
      elementHash := (elementHash * 64 + (TypeOrdinal(element.elementType) + 1) * (SemanticOrdinal(element.semantic) + 1) + element.index) % U64_LIMIT;
      var bits := MatchLegacy(element);
      elementMask := elementMask + bits;
    }

    /** Turns shadowing on or off; without graphics it stays on. The shadow copy is reallocated or dropped on a change. */
    method SetShadowed(enable: bool)
      requires Valid()
      modifies this`shadowed, this`shadowSize
      ensures Valid()
      ensures shadowed == (enable || !graphicsPresent)
    {
      var e := enable;
      if !graphicsPresent {
        e := true;
      }
      if e != shadowed {
        if e && vertexSize != 0 && vertexCount != 0 {
          shadowSize := vertexCount * vertexSize;
        } else {
          shadowSize := 0;
        }
        shadowed := e;
      }
    }

    /**
     * Sets the vertex count and layout, recomputes the layout fields and reallocates
     * the shadow copy. `created` is the result of creating the GPU buffer.
     */
    method SetSize(count: nat, newElements: seq<VertexElement>, isDynamic: bool, created: bool) returns (ok: bool)
      requires !graphicsPresent ==> shadowed
      modifies this`vertexCount, this`elements, this`dynamic, this`vertexSize, this`elementHash, this`elementMask, this`shadowSize
      ensures Valid() && ok == created
      ensures vertexCount == count && dynamic == isDynamic && elements == WithOffsets(newElements)
      ensures vertexSize == SizeSum(newElements) && elementHash == LayoutHash(newElements) && elementMask == LegacyMask(newElements)
      ensures shadowSize == if shadowed && count != 0 && vertexSize != 0 then count * vertexSize else 0
    {
      vertexCount := count;
      elements := newElements;
      dynamic := isDynamic;
      UpdateMemberOffsets();
      OffsetsLaidOut(newElements);
      ResizeShadow();
      ok := created;
    }

    /** The shadow copy is reallocated for the current count and size, or dropped when it would be empty. */
    method ResizeShadow()
      modifies this`shadowSize
      ensures ShadowConsistent()
    {
      if shadowed && vertexCount != 0 && vertexSize != 0 {
        shadowSize := vertexCount * vertexSize;
      } else {
        shadowSize := 0;
      }
    }

    /** SetSize with a legacy mask: the layout is the mask's legacy elements. */
    method SetSizeMask(count: nat, mask: set<nat>, isDynamic: bool, created: bool) returns (ok: bool)
      requires Valid()
      modifies this`vertexCount, this`elements, this`dynamic, this`vertexSize, this`elementHash, this`elementMask, this`shadowSize
      ensures Valid() && ok == created
      ensures vertexCount == count && dynamic == isDynamic
      ensures elements == WithOffsets(LegacyElements(mask, MAX_LEGACY_VERTEX_ELEMENTS))
      ensures vertexSize == SizeSum(LegacyElements(mask, MAX_LEGACY_VERTEX_ELEMENTS))
      ensures forall j :: j in elementMask <==> j < MAX_LEGACY_VERTEX_ELEMENTS && j in mask
      ensures shadowSize == if shadowed && count != 0 && vertexSize != 0 then count * vertexSize else 0
    {
      var es := GetElements(mask);
      ok := SetSize(count, es, isDynamic, created);
      forall j: nat
        ensures j in elementMask <==> j < MAX_LEGACY_VERTEX_ELEMENTS && j in mask
      {
        LegacyMaskRoundTrip(mask, j);
      }
    }
  }

  /** Elements with their offsets applied, and the vertex size, hash and legacy mask computed from them. */
  predicate LaidOut(es: seq<VertexElement>, size: nat, hash: nat, mask: set<nat>)
  {
    es == WithOffsets(es) && size == SizeSum(es) && hash == LayoutHash(es) && mask == LegacyMask(es)
  }

  /** Applying the offsets gives a consistent layout whose size, hash and mask are those of the elements given. */
  lemma OffsetsLaidOut(es: seq<VertexElement>)
    ensures LaidOut(WithOffsets(es), SizeSum(es), LayoutHash(es), LegacyMask(es))
  {
    OffsetsIdempotent(es);
    HashIgnoresOffsets(es);
  }

  /** Extending a prefix by one element extends its size, hash and legacy mask by that element. */
  lemma PrefixStep(es: seq<VertexElement>, i: nat)
    requires i < |es|
    ensures SizeSum(es[..i + 1]) == SizeSum(es[..i]) + TypeSize(es[i].elementType)
    ensures LayoutHash(es[..i + 1]) ==
      (LayoutHash(es[..i]) * 64 + (TypeOrdinal(es[i].elementType) + 1) * (SemanticOrdinal(es[i].semantic) + 1) + es[i].index) % U64_LIMIT
    ensures LegacyMask(es[..i + 1]) == LegacyMask(es[..i]) + LegacyBits(es[i])
  {
    assert es[..i + 1][..i] == es[..i];
  }

  /** Setting the offset of element `i` extends the part of the list already laid out by one. */
  lemma OffsetStep(es: seq<VertexElement>, i: nat, cur: seq<VertexElement>)
    requires i < |es| == |cur| && cur[..i] == WithOffsets(es)[..i] && cur[i..] == es[i..]
    ensures cur[i] == es[i]
    ensures var next := cur[i := es[i].(offset := SizeSum(es[..i]))];
            next[..i + 1] == WithOffsets(es)[..i + 1] && next[i + 1..] == es[i + 1..]
  {
    assert cur[i] == cur[i..][0];
    var next := cur[i := es[i].(offset := SizeSum(es[..i]))];
    forall k | 0 <= k < i + 1
      ensures next[k] == WithOffsets(es)[k]
    {
      if k < i {
        assert cur[k] == cur[..i][k];
      }
    }
    forall j | i + 1 <= j < |es|
      ensures next[j] == es[j]
    {
      assert cur[j] == cur[i..][j - i];
    }
    assert next[i + 1..] == es[i + 1..];
  }

  /** Applying the offsets once more changes nothing, so the layout fields stay consistent. */
  lemma OffsetsIdempotent(es: seq<VertexElement>)
    ensures WithOffsets(WithOffsets(es)) == WithOffsets(es)
    ensures SizeSum(WithOffsets(es)) == SizeSum(es)
    ensures LegacyMask(WithOffsets(es)) == LegacyMask(es)
  {
    SizeSumIgnoresOffsets(es);
    LegacyMaskIgnoresOffsets(es);
    forall i | 0 <= i < |es|
      ensures WithOffsets(WithOffsets(es))[i] == WithOffsets(es)[i]
    {
      SizeSumIgnoresOffsets(es[..i]);
      WithOffsetsPrefix(es, i);
    }
  }

  lemma WithOffsetsPrefix(es: seq<VertexElement>, n: nat)
    requires n <= |es|
    ensures WithOffsets(es)[..n] == WithOffsets(es[..n])
  {
    forall i | 0 <= i < n
      ensures WithOffsets(es)[i] == WithOffsets(es[..n])[i]
    {
      assert es[..n][..i] == es[..i];
    }
  }

  /** Bits j below the legacy count with legacy element j matching `element`. */
  method MatchLegacy(element: VertexElement) returns (bits: set<nat>)
    ensures bits == LegacyBits(element)
  {
    bits := {};
    for j := 0 to MAX_LEGACY_VERTEX_ELEMENTS
      invariant bits == set k | 0 <= k < j && SameKind(element, LEGACY_VERTEXELEMENTS[k])
    {
      var legacy := LEGACY_VERTEXELEMENTS[j];
      if element.elementType == legacy.elementType && element.semantic == legacy.semantic && element.index == legacy.index {
        bits := bits + {j};
      }
    }
  }

  lemma {:induction false} SizeSumIgnoresOffsets(es: seq<VertexElement>)
    ensures SizeSum(WithOffsets(es)) == SizeSum(es)
    decreases |es|
  {
    if |es| > 0 {
      SizeSumIgnoresOffsets(es[..|es| - 1]);
      WithOffsetsPrefix(es, |es| - 1);
    }
  }

  lemma {:induction false} LegacyMaskIgnoresOffsets(es: seq<VertexElement>)
    ensures LegacyMask(WithOffsets(es)) == LegacyMask(es)
    decreases |es|
  {
    if |es| > 0 {
      LegacyMaskIgnoresOffsets(es[..|es| - 1]);
      WithOffsetsPrefix(es, |es| - 1);
      assert LegacyBits(WithOffsets(es)[|es| - 1]) == LegacyBits(es[|es| - 1]);
    }
  }
}
