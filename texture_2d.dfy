/**
 * The two-dimensional texture: validation and normalisation of SetSize (size checks,
 * multisample clamping, usage-dependent defaults), the format check of GetImage, and the
 * resource loading steps. Creating the GPU texture, decoding images and applying the
 * parameter file are not modelled: their outcomes are parameters.
 */
module Texture2D {
  import opened Str
  import FileSystem

  /** TEXTURE_STATIC, TEXTURE_DYNAMIC, TEXTURE_RENDERTARGET, TEXTURE_DEPTHSTENCIL, in that order. */
  datatype TextureUsage = Static | Dynamic | RenderTarget | DepthStencil

  /** `usage >= TEXTURE_RENDERTARGET`. */
  predicate IsTarget(u: TextureUsage)
  {
    u.RenderTarget? || u.DepthStencil?
  }

  datatype AddressMode = AddressWrap | AddressMirror | AddressClamp | AddressBorder

  datatype FilterMode = FilterNearest | FilterBilinear | FilterTrilinear | FilterAnisotropic
                      | FilterNearestAnisotropic | FilterDefault

  /** Clamp(value, min, max). */
  function Clamp(v: int, lo: int, hi: int): (r: int)
    requires lo <= hi
    ensures lo <= r <= hi
    ensures lo <= v <= hi ==> r == v
    ensures v < lo ==> r == lo
    ensures v > hi ==> r == hi
  {
    if v < lo then lo else if v > hi then hi else v
  }

  /** Sample count and resolve flag of a texture. */
  datatype Sampling = Sampling(multiSample: int, autoResolve: bool)

  /** A sampling setup SetSize can leave behind. */
  predicate Consistent(u: TextureUsage, s: Sampling)
  {
    && 1 <= s.multiSample <= 16
    && (s.multiSample == 1 ==> !s.autoResolve)
    && (s.multiSample > 1 ==> IsTarget(u))
  }

  /**
   * The multisample normalisation of SetSize: the count is clamped to [1, 16], a single
   * sample never resolves, and multisampling is refused (None) below render-target usage.
   */
  function NormalizeSampling(u: TextureUsage, multiSample: int, autoResolve: bool): (r: Option<Sampling>)
    ensures r.Some? ==> 1 <= r.value.multiSample <= 16 && (r.value.multiSample == 1 ==> !r.value.autoResolve)
  {
    var m := Clamp(multiSample, 1, 16);
    if m == 1 then Some(Sampling(1, false))
    else if !IsTarget(u) then None
    else Some(Sampling(m, autoResolve))
  }

  /** The normalisation is refused exactly when more than one sample is asked of a non-target texture. */
  lemma NormalizeRefuses(u: TextureUsage, multiSample: int, autoResolve: bool)
    ensures NormalizeSampling(u, multiSample, autoResolve).None? <==> multiSample > 1 && !IsTarget(u)
  {
  }

  /** What the normalisation produces is consistent, keeps the clamped count, and keeps the resolve flag when multisampling. */
  lemma NormalizeConsistent(u: TextureUsage, multiSample: int, autoResolve: bool)
    requires NormalizeSampling(u, multiSample, autoResolve).Some?
    ensures Consistent(u, NormalizeSampling(u, multiSample, autoResolve).value)
    ensures NormalizeSampling(u, multiSample, autoResolve).value.multiSample == Clamp(multiSample, 1, 16)
    ensures Clamp(multiSample, 1, 16) > 1 ==> NormalizeSampling(u, multiSample, autoResolve).value.autoResolve == autoResolve
  {
  }

  /** A consistent setup is a fixed point: normalising it again changes nothing. */
  lemma NormalizeFixesConsistent(u: TextureUsage, s: Sampling)
    requires Consistent(u, s)
    ensures NormalizeSampling(u, s.multiSample, s.autoResolve) == Some(s)
  {
  }

  /** Normalisation is idempotent. */
  lemma NormalizeIdempotent(u: TextureUsage, multiSample: int, autoResolve: bool)
    requires NormalizeSampling(u, multiSample, autoResolve).Some?
    ensures var s := NormalizeSampling(u, multiSample, autoResolve).value;
            NormalizeSampling(u, s.multiSample, s.autoResolve) == Some(s)
  {
    NormalizeConsistent(u, multiSample, autoResolve);
    NormalizeFixesConsistent(u, NormalizeSampling(u, multiSample, autoResolve).value);
  }

  /** Width and height of the image GetImage fills. */
  datatype ImageSize = ImageSize(width: int, height: int)

  class Texture2D {
    /** Whether a graphics subsystem exists (false in headless mode). */
    const graphicsPresent: bool
    /** The resource name, from which the optional parameter file's name is derived. */
    const name: string
    var deviceLost: bool
    var width: int
    var height: int
    var depth: int
    var format: nat
    var usage: TextureUsage
    var multiSample: int
    var autoResolve: bool
    var requestedLevels: nat
    var addressU: AddressMode
    var addressV: AddressMode
    var filterMode: FilterMode
    /** Whether the texture owns a render surface. */
    var hasRenderSurface: bool
    /** Whether the texture listens for render surface update events. */
    var subscribedToSurfaceUpdate: bool
    var dataPending: bool
    /** Whether a decoded image waits for EndLoad. */
    var hasLoadImage: bool
    /** The parameter file found for EndLoad, by name. */
    var loadParameters: Option<string>

    /** What every texture keeps: its sampling is consistent with its usage, and a render surface exists exactly for target usage. */
    predicate Valid()
      reads this
    {
      && Consistent(usage, Sampling(multiSample, autoResolve))
      && (multiSample > 1 && !autoResolve ==> requestedLevels == 1)
      && (hasRenderSurface <==> IsTarget(usage))
      && (subscribedToSurfaceUpdate ==> usage == RenderTarget)
    }

    constructor (graphics: bool, resourceName: string)
      ensures Valid() && graphicsPresent == graphics && name == resourceName && !deviceLost
      ensures width == 0 && height == 0 && depth == 0 && format == 0 && usage == Static
      ensures multiSample == 1 && !autoResolve && requestedLevels == 0
      ensures addressU == AddressWrap && addressV == AddressWrap && filterMode == FilterDefault
      ensures !hasRenderSurface && !subscribedToSurfaceUpdate && !dataPending
      ensures !hasLoadImage && loadParameters == None
    {
      graphicsPresent := graphics;
      name := resourceName;
      deviceLost := false;
      width := 0;
      height := 0;
      depth := 0;
      format := 0;
      usage := Static;
      multiSample := 1;
      autoResolve := false;
      requestedLevels := 0;
      addressU := AddressWrap;
      addressV := AddressWrap;
      filterMode := FilterDefault;
      hasRenderSurface := false;
      subscribedToSurfaceUpdate := false;
      dataPending := false;
      hasLoadImage := false;
      loadParameters := None;
    }

    /** SetSize leaves the load state alone. */
    twostate predicate LoadStateKept()
      reads this
    {
      && deviceLost == old(deviceLost) && dataPending == old(dataPending)
      && hasLoadImage == old(hasLoadImage) && loadParameters == old(loadParameters)
    }

    /** The fields SetSize assigns once the request is accepted, with normalised sampling `s`. */
    twostate predicate Stored(w: int, h: int, f: nat, u: TextureUsage, s: Sampling)
      reads this
    {
      && width == w && height == h && format == f && depth == 1 && usage == u
      && multiSample == s.multiSample && autoResolve == s.autoResolve
      && requestedLevels == (if s.multiSample > 1 && !s.autoResolve then 1 else old(requestedLevels))
      && hasRenderSurface == IsTarget(u) && subscribedToSurfaceUpdate == (u == RenderTarget)
      && (IsTarget(u) ==> addressU == AddressClamp && addressV == AddressClamp && filterMode == FilterNearest)
      && (!IsTarget(u) ==> addressU == old(addressU) && addressV == old(addressV) && filterMode == old(filterMode))
    }

    /**
     * SetSize: refuse non-positive sizes and multisampling below render-target usage, then
     * store the normalised settings and give target textures a render surface, clamp
     * addressing and nearest filtering. `createOk` is the outcome of creating the GPU texture.
     */
    method SetSize(w: int, h: int, f: nat, u: TextureUsage, ms: int, ar: bool, createOk: bool)
      returns (ok: bool)
      requires Valid()
      modifies this
      ensures Valid() && LoadStateKept()
      ensures w <= 0 || h <= 0 || NormalizeSampling(u, ms, ar).None? ==> !ok && unchanged(this)
      ensures w > 0 && h > 0 && NormalizeSampling(u, ms, ar).Some? ==>
        ok == createOk && Stored(w, h, f, u, NormalizeSampling(u, ms, ar).value)
    {
      if w <= 0 || h <= 0 {
        return false;
      }
      var m := Clamp(ms, 1, 16);
      var resolve := ar;
      if m == 1 {
        resolve := false;
      } else if m > 1 && !IsTarget(u) {
        return false;
      }
      assert Sampling(m, resolve) == NormalizeSampling(u, ms, ar).value;
      NormalizeConsistent(u, ms, ar);
      Store(w, h, f, u, m, resolve);
      ok := createOk;
    }

    /** The assignments of SetSize after its checks. */
    method Store(w: int, h: int, f: nat, u: TextureUsage, m: int, resolve: bool)
      requires Consistent(u, Sampling(m, resolve))
      modifies this`requestedLevels, this`hasRenderSurface, this`usage, this`addressU, this`addressV,
               this`filterMode, this`subscribedToSurfaceUpdate, this`width, this`height, this`format,
               this`depth, this`multiSample, this`autoResolve
      ensures Valid() && Stored(w, h, f, u, Sampling(m, resolve))
    {
      StoreUsage(u, m, resolve);
      width := w;
      height := h;
      format := f;
      depth := 1;
    }

    /** The usage and sampling part of Store: a target gets a render surface, clamp addressing and nearest filtering. */
    method StoreUsage(u: TextureUsage, m: int, resolve: bool)
      requires Consistent(u, Sampling(m, resolve))
      modifies this`requestedLevels, this`hasRenderSurface, this`usage, this`addressU, this`addressV,
               this`filterMode, this`subscribedToSurfaceUpdate, this`multiSample, this`autoResolve
      ensures Valid() && usage == u && multiSample == m && autoResolve == resolve
      ensures requestedLevels == (if m > 1 && !resolve then 1 else old(requestedLevels))
      ensures hasRenderSurface == IsTarget(u) && subscribedToSurfaceUpdate == (u == RenderTarget)
      ensures IsTarget(u) ==> addressU == AddressClamp && addressV == AddressClamp && filterMode == FilterNearest
      ensures !IsTarget(u) ==> addressU == old(addressU) && addressV == old(addressV) && filterMode == old(filterMode)
    {
      if m > 1 && !resolve {
        requestedLevels := 1;
      }
      hasRenderSurface := false;
      usage := u;
      if IsTarget(u) {
        hasRenderSurface := true;
        addressU := AddressClamp;
        addressV := AddressClamp;
        filterMode := FilterNearest;
      }
      subscribedToSurfaceUpdate := u == RenderTarget;
      multiSample := m;
      autoResolve := resolve;
    }

    /**
     * GetImage: only an RGBA or RGB texture converts to an image, which gets the
     * texture's size. `rgbaFormat` and `rgbFormat` are the graphics API's format codes.
     */
    method GetImage(rgbaFormat: nat, rgbFormat: nat) returns (image: Option<ImageSize>)
      ensures image.Some? <==> format == rgbaFormat || format == rgbFormat
      ensures image.Some? ==> image.value == ImageSize(width, height)
    {
      if format != rgbaFormat && format != rgbFormat {
        return None;
      }
      return Some(ImageSize(width, height));
    }

    /**
     * BeginLoad: headless mode succeeds without loading; a lost device defers the load;
     * otherwise the image is decoded (`imageOk`) and the parameter file named after the
     * resource with extension ".xml" is looked up (`parametersFound`).
     */
    method BeginLoad(imageOk: bool, parametersFound: bool) returns (ok: bool)
      modifies this`dataPending, this`hasLoadImage, this`loadParameters
      ensures ok <==> !graphicsPresent || deviceLost || imageOk
      ensures !graphicsPresent ==> unchanged(this)
      ensures graphicsPresent && deviceLost ==>
        dataPending && hasLoadImage == old(hasLoadImage) && loadParameters == old(loadParameters)
      ensures graphicsPresent && !deviceLost ==> dataPending == old(dataPending) && hasLoadImage == imageOk
      ensures graphicsPresent && !deviceLost && !imageOk ==> loadParameters == old(loadParameters)
      ensures graphicsPresent && !deviceLost && imageOk ==>
        loadParameters == (if parametersFound then Some(FileSystem.ReplaceExtension(name, ".xml")) else None)
    {
      if !graphicsPresent {
        return true;
      }
      if deviceLost {
        dataPending := true;
        return true;
      }
      hasLoadImage := true;
      if !imageOk {
        hasLoadImage := false;
        return false;
      }
      loadParameters := if parametersFound then Some(FileSystem.ReplaceExtension(name, ".xml")) else None;
      return true;
    }

    /**
     * EndLoad: in headless mode or with a lost device nothing happens; otherwise the
     * decoded image is uploaded (`setDataOk` is the upload's outcome) and the load state is dropped.
     */
    method EndLoad(setDataOk: bool) returns (ok: bool)
      modifies this`hasLoadImage, this`loadParameters
      ensures !graphicsPresent || deviceLost ==> ok && unchanged(this)
      ensures graphicsPresent && !deviceLost ==> ok == setDataOk && !hasLoadImage && loadParameters == None
    {
      if !graphicsPresent || deviceLost {
        return true;
      }
      ok := setDataOk;
      hasLoadImage := false;
      loadParameters := None;
    }
  }

  /** The parameter file sits beside the texture: same directory, same file name, extension ".xml". */
  lemma ParameterFileName(name: string)
    ensures var xmlName := FileSystem.ReplaceExtension(name, ".xml");
            && FileSystem.GetPath(xmlName) == FileSystem.GetPath(name)
            && FileSystem.GetFileName(xmlName) == FileSystem.GetFileName(name)
            && FileSystem.GetExtension(xmlName, false) == ".xml"
  {
    FileSystem.ReplaceExtensionRoundTrip(name, ".xml");
  }
}
