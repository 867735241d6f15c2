/**
 * The two-dimensional texture array: SetSize validation, the layer count and the
 * per-layer memory table, and the resource loading steps that resolve layer image names
 * against the directory of the array's XML description. Creating and releasing the GPU
 * texture, parsing the XML and uploading layer images are not modelled: their outcomes are
 * parameters, and the calls are recorded in a trace.
 */
module Texture2DArray {
  import opened Str
  import opened Path
  import opened FileSystem
  import opened Texture2D

  /** The GPU-side effects of the texture array, as uninterpreted calls. */
  datatype GpuCall = ReleaseTexture | ApplyParameters | SetLayerData(layer: nat, image: string)

  /** A layer image name as BeginLoad requests it: a bare name is taken relative to the XML file's directory. */
  function LayerPath(dir: string, name: string): string
  {
    if GetPath(name) == [] then dir + name else name
  }

  /** The names BeginLoad requests for the layer elements `names`, in document order. */
  function LayerPaths(dir: string, names: seq<string>): (r: seq<string>)
    ensures |r| == |names|
  {
    if names == [] then [] else LayerPaths(dir, names[..|names| - 1]) + [LayerPath(dir, names[|names| - 1])]
  }

  /** The SetData calls EndLoad issues, one per loaded layer, in layer order. */
  function LayerUploads(images: seq<string>): (r: seq<GpuCall>)
    ensures |r| == |images|
    ensures forall i :: 0 <= i < |images| ==> r[i] == SetLayerData(i, images[i])
  {
    seq(|images|, i requires 0 <= i < |images| => SetLayerData(i, images[i]))
  }

  function Zeros(n: nat): (r: seq<nat>)
    ensures |r| == n && forall i :: 0 <= i < n ==> r[i] == 0
  {
    seq(n, _ => 0)
  }

  /** Vector::Resize: the common prefix is kept and new entries are 0. */
  function Resized(s: seq<nat>, n: nat): (r: seq<nat>)
    ensures |r| == n
    ensures forall i :: 0 <= i < n && i < |s| ==> r[i] == s[i]
  {
    if n <= |s| then s[..n] else s + Zeros(n - |s|)
  }

  /** The directory GetPath yields is empty or ends in '/', and is in internal form. */
  lemma DirectoryShape(fullName: string)
    ensures var d := GetPath(fullName); '\\' !in d && (d == [] || d[|d| - 1] == '/')
  {
    var parts := SplitPath(fullName, false);
    var whole := parts.pathName + parts.fileName;
    NotInPrefix(ToInternal(fullName), whole, '\\');
    assert parts.pathName == whole[..|parts.pathName|];
    NotInPrefix(whole, parts.pathName, '\\');
    assert GetPath(fullName) == parts.pathName;
    assert parts.pathName == [] || parts.pathName[|parts.pathName| - 1] == '/';
  }

  lemma ToInternalAppend(a: string, b: string)
    requires '\\' !in a
    ensures ToInternal(a + b) == a + ToInternal(b)
  {
    ToInternalFixed(a);
    assert forall i :: 0 <= i < |a + b| ==> ToInternal(a + b)[i] == (a + ToInternal(b))[i];
  }

  /** A name without a directory has no '/' once in internal form. */
  lemma NoDirectoryNoSlash(name: string)
    requires GetPath(name) == []
    ensures '/' !in ToInternal(name)
  {
    var parts := SplitPath(name, false);
    assert ToInternal(name) == parts.fileName + parts.extension;
  }

  /** Splitting a directory followed by text without '/' gives back that directory. */
  lemma SplitNameKeepsDirectory(dir: string, tail: string, e: string)
    requires dir == [] || dir[|dir| - 1] == '/'
    requires '/' !in tail
    ensures SplitName(dir + tail, e).pathName == dir
  {
    FindLastAppend(dir, tail, '/');
    if dir != [] {
      assert (dir + tail)[..|dir|] == dir;
    }
  }

  /** Cutting the extension off a directory followed by text without '/' never reaches into the directory. */
  lemma CutKeepsDirectory(dir: string, n: string) returns (tail: string)
    requires dir == [] || dir[|dir| - 1] == '/'
    requires '/' !in n
    ensures CutExtension(dir + n, false).0 == dir + tail && '/' !in tail
  {
    var r := CutExtension(dir + n, false);
    tail := SlashFreeSuffix(dir, n, r.0, r.1);
  }

  /** Splitting a directory followed by text without '/' anywhere inside that text leaves the directory whole. */
  lemma SlashFreeSuffix(dir: string, n: string, p: string, q: string) returns (tail: string)
    requires dir == [] || dir[|dir| - 1] == '/'
    requires '/' !in n && '/' !in q && p + q == dir + n
    ensures p == dir + tail && '/' !in tail
  {
    var copy := dir + n;
    assert |dir| <= |p| by {
      if dir != [] {
        assert copy[|dir| - 1] == '/';
      }
    }
    assert p == copy[..|p|];
    PrefixOfAppend(dir, n, |p|);
    tail := n[..|p| - |dir|];
    NotInPrefix(n, tail, '/');
  }

  /** A prefix reaching past `a` in `a + b` is `a` followed by a prefix of `b`. */
  lemma PrefixOfAppend(a: string, b: string, k: nat)
    requires |a| <= k <= |a| + |b|
    ensures (a + b)[..k] == a + b[..k - |a|]
  {
  }

  /** The directory of a directory followed by text without '/' is that directory. */
  lemma GetPathAppend(dir: string, name: string, n: string)
    requires dir == [] || dir[|dir| - 1] == '/'
    requires '/' !in n && ToInternal(dir + name) == dir + n
    ensures GetPath(dir + name) == dir
  {
    CutDirectory(dir, n);
    var cut := CutExtension(dir + n, false);
    assert SplitPath(dir + name, false) == SplitName(cut.0, cut.1);
  }

  /** Splitting what CutExtension leaves of a directory followed by text without '/' gives that directory. */
  lemma CutDirectory(dir: string, n: string)
    requires dir == [] || dir[|dir| - 1] == '/'
    requires '/' !in n
    ensures var cut := CutExtension(dir + n, false); SplitName(cut.0, cut.1).pathName == dir
  {
    var tail := CutKeepsDirectory(dir, n);
    SplitNameKeepsDirectory(dir, tail, CutExtension(dir + n, false).1);
  }

  /**
   * A layer name without a directory resolves into the XML file's directory: the
   * directory of the resolved name is exactly that directory.
   */
  lemma LayerPathInDirectory(dir: string, name: string)
    requires '\\' !in dir && (dir == [] || dir[|dir| - 1] == '/')
    requires GetPath(name) == []
    ensures GetPath(LayerPath(dir, name)) == dir
  {
    NoDirectoryNoSlash(name);
    ToInternalAppend(dir, name);
    GetPathAppend(dir, name, ToInternal(name));
    assert LayerPath(dir, name) == dir + name;
  }

  /** Entry i of the requested names is layer element i's name, resolved. */
  lemma {:induction false} LayerPathsAt(dir: string, names: seq<string>, i: nat)
    requires i < |names|
    ensures LayerPaths(dir, names)[i] == LayerPath(dir, names[i])
    decreases |names|
  {
    var init := names[..|names| - 1];
    if i < |names| - 1 {
      LayerPathsAt(dir, init, i);
      assert init[i] == names[i];
    }
  }

  /** The layer loop of BeginLoad: each layer element's name, resolved, in document order. */
  method ResolveLayers(texPath: string, layerNames: seq<string>) returns (images: seq<string>)
    ensures images == LayerPaths(texPath, layerNames)
  {
    images := [];
    var i := 0;
    while i < |layerNames|
      invariant 0 <= i <= |layerNames|
      invariant images == LayerPaths(texPath, layerNames[..i])
    {
      assert layerNames[..i + 1][..i] == layerNames[..i];
      images := images + [LayerPath(texPath, layerNames[i])];
      i := i + 1;
    }
    assert layerNames[..i] == layerNames;
  }

  class Texture2DArray {
    /** Whether a graphics subsystem exists (false in headless mode). */
    const graphicsPresent: bool
    /** The resource name; its directory is where bare layer names are looked up. */
    const name: string
    var deviceLost: bool
    var width: int
    var height: int
    var depth: int
    var format: nat
    var usage: TextureUsage
    var layers: nat
    var layerMemoryUse: seq<nat>
    var filterMode: FilterMode
    /** Whether the array owns a render surface. */
    var hasRenderSurface: bool
    /** Whether the array listens for render surface update events. */
    var subscribedToSurfaceUpdate: bool
    var dataPending: bool
    /** Whether the parsed XML description waits for EndLoad. */
    var hasLoadParameters: bool
    /** The layer images requested by BeginLoad, by resource name. */
    var loadImages: seq<string>
    /** The resource dependencies recorded for reloading. */
    var dependencies: seq<string>
    var gpuCalls: seq<GpuCall>

    /** Depth-stencil arrays are never made; a render surface exists exactly for render targets. */
    predicate Valid()
      reads this
    {
      && usage != DepthStencil
      && (hasRenderSurface <==> usage == RenderTarget)
      && (subscribedToSurfaceUpdate ==> usage == RenderTarget)
    }

    constructor (graphics: bool, resourceName: string)
      ensures Valid() && graphicsPresent == graphics && name == resourceName && !deviceLost
      ensures width == 0 && height == 0 && depth == 0 && format == 0 && usage == Static
      ensures layers == 0 && layerMemoryUse == [] && filterMode == FilterDefault
      ensures !hasRenderSurface && !subscribedToSurfaceUpdate && !dataPending && !hasLoadParameters
      ensures loadImages == [] && dependencies == [] && gpuCalls == []
    {
      graphicsPresent := graphics;
      name := resourceName;
      deviceLost := false;
      width := 0;
      height := 0;
      depth := 0;
      format := 0;
      usage := Static;
      layers := 0;
      layerMemoryUse := [];
      filterMode := FilterDefault;
      hasRenderSurface := false;
      subscribedToSurfaceUpdate := false;
      dataPending := false;
      hasLoadParameters := false;
      loadImages := [];
      dependencies := [];
      gpuCalls := [];
    }

    /** SetLayers: release the texture, then take the new layer count. */
    method SetLayers(n: nat)
      modifies this`gpuCalls, this`layers
      ensures layers == n && gpuCalls == old(gpuCalls) + [ReleaseTexture]
    {
      gpuCalls := gpuCalls + [ReleaseTexture];
      layers := n;
    }

    /** Resize the per-layer memory table to `layers` entries and zero every entry. */
    method ResetLayerMemoryUse()
      modifies this`layerMemoryUse
      ensures layerMemoryUse == Zeros(layers)
    {
      layerMemoryUse := Resized(layerMemoryUse, layers);
      for i := 0 to layers
        invariant |layerMemoryUse| == layers
        invariant forall k :: 0 <= k < i ==> layerMemoryUse[k] == 0
      {
        layerMemoryUse := layerMemoryUse[i := 0];
      }
    }

    /** The fields SetSize assigns once the request is accepted. */
    twostate predicate Stored(n: nat, w: int, h: int, f: nat, u: TextureUsage)
      reads this
    {
      && width == w && height == h && format == f && depth == 1 && usage == u
      && layers == (if n != 0 then n else old(layers))
      && layerMemoryUse == Zeros(layers)
      && hasRenderSurface == (u == RenderTarget) && subscribedToSurfaceUpdate == (u == RenderTarget)
      && filterMode == (if u == RenderTarget then FilterNearest else old(filterMode))
    }

    /**
     * SetSize: refuse non-positive sizes and depth-stencil usage, then store the size,
     * keep the layer count when `n` is 0, and zero the per-layer memory table.
     * `createOk` is the outcome of creating the GPU texture.
     */
    method SetSize(n: nat, w: int, h: int, f: nat, u: TextureUsage, createOk: bool) returns (ok: bool)
      requires Valid()
      modifies this`width, this`height, this`format, this`depth, this`usage, this`layers,
               this`layerMemoryUse, this`hasRenderSurface, this`subscribedToSurfaceUpdate, this`filterMode
      ensures Valid()
      ensures w <= 0 || h <= 0 || u == DepthStencil ==> !ok && unchanged(this)
      ensures w > 0 && h > 0 && u != DepthStencil ==> ok == createOk && Stored(n, w, h, f, u)
    {
      if w <= 0 || h <= 0 {
        return false;
      }
      if u == DepthStencil {
        return false;
      }
      hasRenderSurface := false;
      usage := u;
      if u == RenderTarget {
        hasRenderSurface := true;
        filterMode := FilterNearest;
      }
      subscribedToSurfaceUpdate := u == RenderTarget;
      width := w;
      height := h;
      format := f;
      depth := 1;
      if n != 0 {
        layers := n;
      }
      ResetLayerMemoryUse();
      ok := createOk;
    }

    /**
     * BeginLoad: headless mode succeeds without loading; a lost device defers the load;
     * otherwise the XML description is parsed (`xmlOk`), and each of its layer elements,
     * named `layerNames` in document order, requests an image resolved against the
     * directory of the array's own name.
     */
    method BeginLoad(xmlOk: bool, layerNames: seq<string>) returns (ok: bool)
      modifies this`dataPending, this`hasLoadParameters, this`loadImages, this`dependencies
      ensures ok <==> !graphicsPresent || deviceLost || xmlOk
      ensures !graphicsPresent ==> unchanged(this)
      ensures graphicsPresent && deviceLost ==>
        dataPending && hasLoadParameters == old(hasLoadParameters)
        && loadImages == old(loadImages) && dependencies == old(dependencies)
      ensures graphicsPresent && !deviceLost ==> dataPending == old(dataPending) && hasLoadParameters == xmlOk
      ensures graphicsPresent && !deviceLost && !xmlOk ==> loadImages == old(loadImages) && dependencies == []
      ensures graphicsPresent && !deviceLost && xmlOk ==>
        loadImages == LayerPaths(GetPath(name), layerNames) && dependencies == loadImages
    {
      if !graphicsPresent {
        return true;
      }
      if deviceLost {
        dataPending := true;
        return true;
      }
      ok := LoadParameters(xmlOk, layerNames);
    }

    /** The part of BeginLoad that runs with a live device: parse the description and request the layers. */
    method LoadParameters(xmlOk: bool, layerNames: seq<string>) returns (ok: bool)
      modifies this`hasLoadParameters, this`loadImages, this`dependencies
      ensures ok == xmlOk && hasLoadParameters == xmlOk
      ensures !xmlOk ==> loadImages == old(loadImages) && dependencies == []
      ensures xmlOk ==> loadImages == LayerPaths(GetPath(name), layerNames) && dependencies == loadImages
    {
      dependencies := [];
      var texPath := SplitPath(name, false).pathName;
      hasLoadParameters := true;
      if !xmlOk {
        hasLoadParameters := false;
        return false;
      }
      var images := ResolveLayers(texPath, layerNames);
      loadImages := images;
      dependencies := images;
      return true;
    }

    /**
     * EndLoad: in headless mode or with a lost device nothing happens; otherwise the
     * parameters are applied, the layer count becomes the number of requested images,
     * each image is uploaded to its layer in order, and the load state is dropped.
     */
    method EndLoad() returns (ok: bool)
      modifies this`gpuCalls, this`layers, this`loadImages, this`hasLoadParameters
      ensures ok
      ensures !graphicsPresent || deviceLost ==> unchanged(this)
      ensures graphicsPresent && !deviceLost ==>
        && layers == |old(loadImages)| && loadImages == [] && !hasLoadParameters
        && gpuCalls == old(gpuCalls) + [ApplyParameters, ReleaseTexture] + LayerUploads(old(loadImages))
    {
      if !graphicsPresent || deviceLost {
        return true;
      }
      var images := loadImages;
      gpuCalls := gpuCalls + [ApplyParameters];
      SetLayers(|images|);
      ghost var before := gpuCalls;
      for i := 0 to |images|
        invariant layers == |images| && gpuCalls == before + LayerUploads(images[..i])
      {
        gpuCalls := gpuCalls + [SetLayerData(i, images[i])];
      }
      assert images[..|images|] == images;
      loadImages := [];
      hasLoadParameters := false;
      return true;
    }
  }

  /** BeginLoad's layer names land in the XML file's directory unless they carry their own. */
  lemma RequestedLayersResolve(xmlName: string, layerNames: seq<string>, i: nat)
    requires i < |layerNames| && GetPath(layerNames[i]) == []
    ensures GetPath(LayerPaths(GetPath(xmlName), layerNames)[i]) == GetPath(xmlName)
  {
    DirectoryShape(xmlName);
    LayerPathsAt(GetPath(xmlName), layerNames, i);
    LayerPathInDirectory(GetPath(xmlName), layerNames[i]);
  }
}
