/**
 * The font resource: the font type chosen from the file extension when the data is read,
 * the offsets read from the optional parameter file, and the cache of faces keyed by
 * point size in 1/64ths. Face loading (FreeType rasterising, the bitmap description) is
 * not modelled here: whether a new face loads is a parameter. Point sizes are reals.
 */
module Font {
  import opened Str
  import opened Bytes
  import FileSystem
  import FontFaceBitmap

  datatype FontType = FontNone | FontFreeType | FontBitmap

  /** The font type a (lower-cased) file extension selects. */
  function TypeOfExtension(ext: string): (t: FontType)
    ensures t == FontFreeType <==> ext == ".ttf" || ext == ".otf" || ext == ".woff"
    ensures t == FontBitmap <==> ext == ".xml" || ext == ".fnt" || ext == ".sdf"
  {
    if ext == ".ttf" || ext == ".otf" || ext == ".woff" then FontFreeType
    else if ext == ".xml" || ext == ".fnt" || ext == ".sdf" then FontBitmap
    else FontNone
  }

  /** A signed-distance-field font is a bitmap font. */
  lemma SdfIsBitmap(ext: string)
    requires ext == ".sdf"
    ensures TypeOfExtension(ext) == FontBitmap
  {
  }

  const MIN_POINT_SIZE: real := 1.0
  const MAX_POINT_SIZE: real := 96.0

  /** FloatToFixed: the value in 26.6 fixed point, `(int)(value * 64)`, truncated toward zero. */
  function FloatToFixed(value: real): (r: int)
    ensures value >= 0.0 ==> 0 <= r && r as real <= value * 64.0 < r as real + 1.0
    ensures value < 0.0 ==> r <= 0 && r as real - 1.0 < value * 64.0 <= r as real
  {
    if value >= 0.0 then (value * 64.0).Floor else -((-value * 64.0).Floor)
  }

  function ClampReal(v: real, lo: real, hi: real): (r: real)
    requires lo <= hi
    ensures lo <= r <= hi
    ensures lo <= v <= hi ==> r == v
  {
    if v < lo then lo else if v > hi then hi else v
  }

  /** The point size a face is made for: 0 for bitmap fonts, the request clamped to [1, 96] otherwise. */
  function FacePointSize(t: FontType, pointSize: real): (r: real)
    ensures t == FontBitmap ==> r == 0.0
    ensures t != FontBitmap ==> MIN_POINT_SIZE <= r <= MAX_POINT_SIZE
  {
    if t == FontBitmap then 0.0 else ClampReal(pointSize, MIN_POINT_SIZE, MAX_POINT_SIZE)
  }

  /** The cache key of a requested point size. */
  function FaceKey(t: FontType, pointSize: real): int
  {
    FloatToFixed(FacePointSize(t, pointSize))
  }

  /**
   * Every bitmap request shares key 0; any other request gets a key in [64, 6144], and
   * the face's point size lies in the 1/64 step its key names.
   */
  lemma FaceKeyRange(t: FontType, pointSize: real)
    ensures t == FontBitmap ==> FaceKey(t, pointSize) == 0
    ensures t != FontBitmap ==> 64 <= FaceKey(t, pointSize) <= 6144
    ensures FaceKey(t, pointSize) as real <= FacePointSize(t, pointSize) * 64.0 < FaceKey(t, pointSize) as real + 1.0
  {
    var p := FacePointSize(t, pointSize);
    if t != FontBitmap {
      assert 64.0 <= p * 64.0 <= 6144.0;
    }
  }

  /** Asking again with a face's own point size finds the same cache entry. */
  lemma FaceKeyStable(t: FontType, pointSize: real)
    ensures FacePointSize(t, FacePointSize(t, pointSize)) == FacePointSize(t, pointSize)
    ensures FaceKey(t, FacePointSize(t, pointSize)) == FaceKey(t, pointSize)
  {
  }

  /** A cached face: the kind that made it, its point size, and whether its texture data was lost. */
  datatype Face = Face(kind: FontType, pointSize: real, dataLost: bool)

  /** The <absoluteoffset>/<absolute> and <scaledoffset>/<scaled> elements of the parameter file. */
  datatype ParamsDoc = ParamsDoc(absoluteoffset: Option<FontFaceBitmap.Element>, absolute: Option<FontFaceBitmap.Element>,
                                 scaledoffset: Option<map<string, real>>, scaled: Option<map<string, real>>)

  /** XMLElement::GetFloat: the attribute's value, 0 when absent. */
  function GetFloat(attrs: map<string, real>, name: string): real
  {
    if name in attrs then attrs[name] else 0.0
  }

  class Font {
    /** The resource name, and whether a graphics subsystem exists (false when headless). */
    const name: string
    const graphicsPresent: bool
    var fontType: FontType
    var sdfFont: bool
    var fontData: seq<byte>
    var fontDataSize: nat
    var memoryUse: nat
    var absoluteOffset: (int, int)
    var scaledOffset: (real, real)
    var faces: map<int, Face>

    /** Every cached face was made for the point size its key names, by a loader of the font's type. */
    predicate Valid()
      reads this
    {
      forall key :: key in faces ==> faces[key].kind == fontType && FaceKey(fontType, faces[key].pointSize) == key
    }

    constructor(name: string, graphicsPresent: bool)
      ensures this.name == name && this.graphicsPresent == graphicsPresent
      ensures fontType == FontNone && !sdfFont && fontData == [] && fontDataSize == 0 && memoryUse == 0
      ensures absoluteOffset == (0, 0) && scaledOffset == (0.0, 0.0) && faces == map[]
      ensures Valid()
    {
      this.name := name;
      this.graphicsPresent := graphicsPresent;
      fontType := FontNone;
      sdfFont := false;
      fontData := [];
      fontDataSize := 0;
      memoryUse := 0;
      absoluteOffset := (0, 0);
      scaledOffset := (0.0, 0.0);
      faces := map[];
    }

    /**
     * BeginLoad from a source of `size` bytes of which `read` are delivered, with the
     * parameter file `params` (None when there is none). Headless, nothing is read.
     */
    method BeginLoad(size: nat, read: seq<byte>, params: Option<ParamsDoc>) returns (ok: bool)
      requires Valid() && |read| <= size
      modifies this
      ensures Valid()
      ensures !graphicsPresent ==> ok && unchanged(this)
      ensures graphicsPresent ==> faces == map[] && fontDataSize == size
      ensures graphicsPresent && (size == 0 || |read| < size) ==>
        !ok && fontType == FontNone && sdfFont == old(sdfFont) && memoryUse == old(memoryUse)
        && absoluteOffset == old(absoluteOffset) && scaledOffset == old(scaledOffset)
      ensures graphicsPresent && size > 0 && |read| == size ==>
        var ext := FileSystem.GetExtension(name, true);
        && ok && fontData == read
        && fontType == TypeOfExtension(ext)
        && sdfFont == (ext == ".sdf")
        && memoryUse == size
        && (fontType != FontFreeType ==> absoluteOffset == old(absoluteOffset) && scaledOffset == old(scaledOffset))
        && (fontType == FontFreeType ==>
              absoluteOffset == AbsoluteOffset(params, old(absoluteOffset)) && scaledOffset == ScaledOffset(params, old(scaledOffset)))
    {
      if !graphicsPresent {
        return true;
      }
      fontType := FontNone;
      faces := map[];
      fontDataSize := size;
      if size == 0 {
        fontData := [];
        return false;
      }
      fontData := read;
      if |read| != size {
        return false;
      }
      var ext := FileSystem.GetExtension(name, true);
      ApplyExtension(ext, params);
      memoryUse := size;
      return true;
    }

    /** The part of BeginLoad that follows a full read: the type, the parameters, the SDF flag. */
    method ApplyExtension(ext: string, params: Option<ParamsDoc>)
      modifies this`fontType, this`sdfFont, this`absoluteOffset, this`scaledOffset
      ensures fontType == TypeOfExtension(ext) && sdfFont == (ext == ".sdf")
      ensures fontType != FontFreeType ==> absoluteOffset == old(absoluteOffset) && scaledOffset == old(scaledOffset)
      ensures fontType == FontFreeType ==>
        absoluteOffset == AbsoluteOffset(params, old(absoluteOffset)) && scaledOffset == ScaledOffset(params, old(scaledOffset))
    {
      fontType := TypeOfExtension(ext);
      if fontType == FontFreeType {
        LoadParameters(params);
      }
      sdfFont := ext == ".sdf";
    }

    /** LoadParameters: the offsets from the parameter file, preferring the long element names. */
    method LoadParameters(params: Option<ParamsDoc>)
      modifies this`absoluteOffset, this`scaledOffset
      ensures absoluteOffset == AbsoluteOffset(params, old(absoluteOffset))
      ensures scaledOffset == ScaledOffset(params, old(scaledOffset))
    {
      if params.None? {
        return;
      }
      var doc := params.value;
      var absoluteElem := if doc.absoluteoffset.Some? then doc.absoluteoffset else doc.absolute;
      if absoluteElem.Some? {
        absoluteOffset := (FontFaceBitmap.GetI32(absoluteElem, "x"), FontFaceBitmap.GetI32(absoluteElem, "y"));
      }
      var scaledElem := if doc.scaledoffset.Some? then doc.scaledoffset else doc.scaled;
      if scaledElem.Some? {
        scaledOffset := (GetFloat(scaledElem.value, "x"), GetFloat(scaledElem.value, "y"));
      }
    }

    /**
     * GetFace: the cached face for the request's key unless its data was lost; otherwise a
     * new face of the font's type, cached only when it loads (`loadOk`). None headless and
     * for an unknown font type.
     */
    method GetFace(pointSize: real, loadOk: bool) returns (face: Option<Face>)
      requires Valid()
      modifies this`faces
      ensures Valid()
      ensures !graphicsPresent ==> face.None? && faces == old(faces)
      ensures graphicsPresent ==>
        var key := FaceKey(fontType, pointSize);
        if key in old(faces) && !old(faces)[key].dataLost then
          face == Some(old(faces)[key]) && faces == old(faces)
        else if fontType == FontNone || !loadOk then
          face.None? && faces == old(faces) - {key}
        else
          face == Some(Face(fontType, FacePointSize(fontType, pointSize), false))
          && faces == old(faces)[key := face.value]
    {
      if !graphicsPresent {
        return None;
      }
      var p := FacePointSize(fontType, pointSize);
      var key := FloatToFixed(p);
      if key in faces {
        if !faces[key].dataLost {
          return Some(faces[key]);
        } else {
          faces := faces - {key};
        }
      }
      match fontType
      case FontFreeType =>
        face := GetFaceFreeType(p, loadOk);
      case FontBitmap =>
        face := GetFaceBitmap(p, loadOk);
      case FontNone =>
        face := None;
    }

    /** GetFaceFreeType / GetFaceBitmap: make a face and cache it under its key if it loads. */
    method GetFaceFreeType(pointSize: real, loadOk: bool) returns (face: Option<Face>)
      requires Valid() && fontType == FontFreeType && FacePointSize(fontType, pointSize) == pointSize
      modifies this`faces
      ensures Valid()
      ensures !loadOk ==> face.None? && faces == old(faces)
      ensures loadOk ==> face == Some(Face(FontFreeType, pointSize, false))
                         && faces == old(faces)[FloatToFixed(pointSize) := face.value]
    {
      face := StoreFace(Face(FontFreeType, pointSize, false), loadOk);
    }

    method GetFaceBitmap(pointSize: real, loadOk: bool) returns (face: Option<Face>)
      requires Valid() && fontType == FontBitmap && FacePointSize(fontType, pointSize) == pointSize
      modifies this`faces
      ensures Valid()
      ensures !loadOk ==> face.None? && faces == old(faces)
      ensures loadOk ==> face == Some(Face(FontBitmap, pointSize, false))
                         && faces == old(faces)[FloatToFixed(pointSize) := face.value]
    {
      face := StoreFace(Face(FontBitmap, pointSize, false), loadOk);
    }

    method StoreFace(newFace: Face, loadOk: bool) returns (face: Option<Face>)
      requires Valid() && newFace.kind == fontType && FacePointSize(fontType, newFace.pointSize) == newFace.pointSize
      modifies this`faces
      ensures Valid()
      ensures !loadOk ==> face.None? && faces == old(faces)
      ensures loadOk ==> face == Some(newFace) && faces == old(faces)[FloatToFixed(newFace.pointSize) := newFace]
    {
      if !loadOk {
        return None;
      }
      var key := FloatToFixed(newFace.pointSize);
      assert FaceKey(fontType, newFace.pointSize) == key;
      faces := faces[key := newFace];
      return Some(newFace);
    }

    /**
     * SaveXML: fails when no face exists for the point size; otherwise the result of copying
     * the face and writing it (`writeOk`). A plain copy always succeeds; repacking only the
     * used glyphs succeeds when every used glyph finds room (`packOk`, see
     * FontFaceBitmap.PackBlocked). Getting the face updates the cache as GetFace does.
     */
    method SaveXml(pointSize: int, usedGlyphs: bool, loadOk: bool, packOk: bool, writeOk: bool) returns (ok: bool)
      requires Valid()
      modifies this`faces
      ensures Valid()
      ensures !graphicsPresent ==> faces == old(faces)
      ensures graphicsPresent ==>
        var key := FaceKey(fontType, pointSize as real);
        if key in old(faces) && !old(faces)[key].dataLost then faces == old(faces)
        else if fontType == FontNone || !loadOk then faces == old(faces) - {key}
        else faces == old(faces)[key := Face(fontType, FacePointSize(fontType, pointSize as real), false)]
      ensures var key := FaceKey(fontType, pointSize as real);
        ok <==> (&& graphicsPresent && (!usedGlyphs || packOk) && writeOk
                 && ((key in old(faces) && !old(faces)[key].dataLost) || (fontType != FontNone && loadOk)))
    {
      var face := GetFace(pointSize as real, loadOk);
      if face.None? {
        return false;
      }
      var copyOk := !usedGlyphs || packOk;
      return copyOk && writeOk;
    }
  }

  /** The absolute offset after reading the parameter file. */
  function AbsoluteOffset(params: Option<ParamsDoc>, previous: (int, int)): (int, int)
  {
    if params.None? then previous
    else
      var e := if params.value.absoluteoffset.Some? then params.value.absoluteoffset else params.value.absolute;
      if e.Some? then (FontFaceBitmap.GetI32(e, "x"), FontFaceBitmap.GetI32(e, "y")) else previous
  }

  /** The scaled offset after reading the parameter file. */
  function ScaledOffset(params: Option<ParamsDoc>, previous: (real, real)): (real, real)
  {
    if params.None? then previous
    else
      var e := if params.value.scaledoffset.Some? then params.value.scaledoffset else params.value.scaled;
      if e.Some? then (GetFloat(e.value, "x"), GetFloat(e.value, "y")) else previous
  }
}
