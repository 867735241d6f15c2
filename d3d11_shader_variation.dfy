/**
 * The Direct3D 11 side of a shader variation: the "USHD" bytecode cache file
 * (writer and reader), the define list handed to the compiler, the constant
 * buffer sizes derived from the parameters, and the reset done by Release.
 * Compilation, reflection and the GPU objects are not part of this model.
 */
module ShaderVariationD3D11 {
  import opened Bytes
  import opened Str
  import Shader

  const MAX_TEXTURE_UNITS: nat := 16
  const MAX_SHADER_PARAMETER_GROUPS: nat := 7
  const U64_LIMIT: int := 0x1_0000_0000_0000_0000
  /** The four characters "USHD". */
  const FILE_ID: seq<byte> := [0x55, 0x53, 0x48, 0x44]
  /** The shader model number written after the shader type. */
  const SHADER_MODEL: nat := 4
  const CLIP_PLANE: string := " CLIPPLANE"

  function TypeCode(t: Shader.ShaderType): nat
  {
    if t == Shader.VS then 0 else 1
  }

  /** A parameter as stored in the variation and in the cache file; `buffer` is the constant buffer index. */
  datatype ShaderParameter = ShaderParameter(shaderType: Shader.ShaderType, name: seq<byte>, offset: nat, size: nat, buffer: nat)

  // ---------------------------------------------------------------------------
  // The file format written by SaveByteCode

  /** One parameter entry: name, buffer index as a byte, offset and size as 32-bit words. */
  function ParamBytes(p: ShaderParameter): seq<byte>
  {
    CStringBytes(p.name) + (U8Bytes(p.buffer) + (U32Bytes(p.offset) + U32Bytes(p.size)))
  }

  /** The parameter entries in the order they are written. */
  function ParamsBytes(ps: seq<ShaderParameter>): seq<byte>
  {
    if |ps| == 0 then [] else ParamsBytes(ps[..|ps| - 1]) + ParamBytes(ps[|ps| - 1])
  }

  /** Number of used units among the first `n`. */
  function UsedCount(units: seq<bool>, n: nat): (r: nat)
    requires n <= |units|
    ensures r <= n
  {
    if n == 0 then 0 else UsedCount(units, n - 1) + (if units[n - 1] then 1 else 0)
  }

  /** The entry of texture unit `i`: its name and its register, or nothing when it is unused. */
  function UnitBytes(units: seq<bool>, names: seq<seq<byte>>, i: nat): seq<byte>
    requires i < |units| <= |names|
  {
    if units[i] then CStringBytes(names[i]) + U8Bytes(i) else []
  }

  /** The entries of the used units among the first `n`, in register order. */
  function UnitsBytes(units: seq<bool>, names: seq<seq<byte>>, n: nat): seq<byte>
    requires n <= |units| <= |names|
  {
    if n == 0 then [] else UnitsBytes(units, names, n - 1) + UnitBytes(units, names, n - 1)
  }

  /** Everything after the upper hash: parameters, used texture units, bytecode. */
  function BodyBytes(ps: seq<ShaderParameter>, units: seq<bool>, names: seq<seq<byte>>, byteCode: seq<byte>): seq<byte>
    requires |units| == MAX_TEXTURE_UNITS <= |names|
  {
    U32Bytes(|ps|) + (ParamsBytes(ps) +
      (U32Bytes(UsedCount(units, MAX_TEXTURE_UNITS)) + (UnitsBytes(units, names, MAX_TEXTURE_UNITS) +
        (U32Bytes(|byteCode|) + byteCode))))
  }

  /**
   * The whole cache file: id, shader type, shader model, the upper half of the
   * element hash, then the body. Counts and sizes are written as 32-bit words, so
   * only their low 32 bits are kept.
   */
  function ByteCodeFile(t: Shader.ShaderType, elementHash: nat, ps: seq<ShaderParameter>,
                        units: seq<bool>, names: seq<seq<byte>>, byteCode: seq<byte>): (r: seq<byte>)
    requires |units| == MAX_TEXTURE_UNITS <= |names|
    ensures |r| >= 4 && r[..4] == FILE_ID
  {
    FILE_ID + (U16Bytes(TypeCode(t)) + (U16Bytes(SHADER_MODEL) +
      (U32Bytes(elementHash / U32_LIMIT) + BodyBytes(ps, units, names, byteCode))))
  }

  // ---------------------------------------------------------------------------
  // The file format read by LoadByteCode

  /** One parameter entry, tagged with the reading variation's shader type, and the rest of the stream. */
  function ParamAt(s: seq<byte>, t: Shader.ShaderType): (ShaderParameter, seq<byte>)
  {
    var name := ReadCString(s);
    var buffer := ReadU8(name.1);
    var offset := ReadU32(buffer.1);
    var size := ReadU32(offset.1);
    (ShaderParameter(t, name.0, offset.0, size.0, buffer.0), size.1)
  }

  function ParamEntry(t: Shader.ShaderType): seq<byte> -> (ShaderParameter, seq<byte>)
  {
    s => ParamAt(s, t)
  }

  /** The next `n` parameter entries and the rest of the stream. */
  function ParamsRead(s: seq<byte>, t: Shader.ShaderType, n: nat): (r: (seq<ShaderParameter>, seq<byte>))
    ensures |r.0| == n
  {
    ReadEntries(s, ParamEntry(t), n)
  }

  /** One texture unit entry: the name is skipped, the register byte is kept. */
  function UnitAt(s: seq<byte>): (nat, seq<byte>)
  {
    ReadU8(ReadCString(s).1)
  }

  /** The registers of the next `n` texture unit entries and the rest of the stream. */
  function UnitsRead(s: seq<byte>, n: nat): (r: (seq<nat>, seq<byte>))
    ensures |r.0| == n
  {
    ReadEntries(s, UnitAt, n)
  }

  /** What the reader takes from a cache file. */
  datatype Decoded = Decoded(idOk: bool, hashHigh: nat, params: seq<ShaderParameter>, registers: seq<nat>, byteCode: seq<byte>)

  /** The reader's walk over a file: id, shader type and model (read, not checked), upper hash, body. */
  function Decode(s: seq<byte>, t: Shader.ShaderType): (r: Decoded)
    ensures r.idOk <==> |s| >= 4 && s[..4] == FILE_ID
    ensures r.hashHigh < U32_LIMIT
  {
    var id := ReadBytes(s, 4);
    assert |s| >= 4 ==> id.0 == s[..4];
    assert |s| < 4 ==> id.0[|s|] != FILE_ID[|s|];
    var shaderType := ReadU16(id.1);
    var model := ReadU16(shaderType.1);
    var hash := ReadU32(model.1);
    DecodeBody(id.0 == FILE_ID, hash.0, hash.1, t)
  }

  function DecodeBody(idOk: bool, hashHigh: nat, s: seq<byte>, t: Shader.ShaderType): Decoded
  {
    var count := ReadU32(s);
    var params := ParamsRead(count.1, t, count.0);
    var unitCount := ReadU32(params.1);
    var units := UnitsRead(unitCount.1, unitCount.0);
    var size := ReadU32(units.1);
    Decoded(idOk, hashHigh, params.0, units.0, ReadBytes(size.1, size.0).0)
  }

  /** The parameter map after inserting `ps` in order under their names (a later entry with the same name wins). */
  function Inserted(m: map<seq<byte>, ShaderParameter>, ps: seq<ShaderParameter>): map<seq<byte>, ShaderParameter>
  {
    if |ps| == 0 then m else Inserted(m, ps[..|ps| - 1])[ps[|ps| - 1].name := ps[|ps| - 1]]
  }

  // ---------------------------------------------------------------------------
  // Round trip

  /** A parameter the writer stores without truncation and the reader reads back whole. */
  predicate Storable(p: ShaderParameter)
  {
    0 !in p.name && p.buffer < 256 && p.offset < U32_LIMIT && p.size < U32_LIMIT
  }

  predicate DistinctNames(ps: seq<ShaderParameter>)
  {
    forall i, j :: 0 <= i < j < |ps| ==> ps[i].name != ps[j].name
  }

  lemma ParamRoundTrip(p: ShaderParameter, t: Shader.ShaderType, rest: seq<byte>)
    requires Storable(p) && p.shaderType == t
    ensures ParamAt(ParamBytes(p) + rest, t) == (p, rest)
  {
    var a := CStringBytes(p.name);
    var b := U8Bytes(p.buffer);
    var c := U32Bytes(p.offset);
    var d := U32Bytes(p.size);
    assert ParamBytes(p) + rest == a + (b + (c + (d + rest)));
    CStringRoundTrip(p.name, b + (c + (d + rest)));
    U8RoundTrip(p.buffer, c + (d + rest));
    U32RoundTrip(p.offset, d + rest);
    U32RoundTrip(p.size, rest);
  }

  /** The reader gives back the parameters the writer wrote, in the same order. */
  lemma {:induction false} ParamsRoundTrip(ps: seq<ShaderParameter>, t: Shader.ShaderType, rest: seq<byte>)
    requires forall k :: 0 <= k < |ps| ==> Storable(ps[k]) && ps[k].shaderType == t
    ensures ParamsRead(ParamsBytes(ps) + rest, t, |ps|) == (ps, rest)
    decreases |ps|
  {
    if |ps| > 0 {
      var init := ps[..|ps| - 1];
      var last := ps[|ps| - 1];
      assert Storable(last) && last.shaderType == t;
      var tail := ParamBytes(last) + rest;
      ParamRoundTrip(last, t, rest);
      assert ParamEntry(t)(tail) == (last, rest);
      ParamsRoundTrip(init, t, tail);
      assert ParamsBytes(ps) + rest == ParamsBytes(init) + tail;
      ReadEntriesSnoc(ParamsBytes(init) + tail, ParamEntry(t), init, last, tail, rest);
      FrontLast(ps);
    } else {
      assert ParamsBytes(ps) + rest == rest;
    }
  }

  /** The registers of the used units among the first `n`, in ascending order. */
  function UsedRegisters(units: seq<bool>, n: nat): (r: seq<nat>)
    requires n <= |units|
  {
    if n == 0 then []
    else UsedRegisters(units, n - 1) + (if units[n - 1] then [n - 1] else [])
  }

  /** A register is listed exactly when its unit is used. */
  lemma {:induction false} UsedRegistersExact(units: seq<bool>, n: nat, i: nat)
    requires n <= |units|
    ensures i in UsedRegisters(units, n) <==> i < n && units[i]
    decreases n
  {
    if n > 0 {
      UsedRegistersExact(units, n - 1, i);
    }
  }

  /** The unit count written before the entries is the number of entries. */
  lemma {:induction false} UsedCountEntries(units: seq<bool>, n: nat)
    requires n <= |units|
    ensures UsedCount(units, n) == |UsedRegisters(units, n)|
    decreases n
  {
    if n > 0 {
      UsedCountEntries(units, n - 1);
    }
  }

  lemma UnitRoundTrip(name: seq<byte>, reg: nat, rest: seq<byte>)
    requires 0 !in name && reg < 256
    ensures UnitsRead(CStringBytes(name) + U8Bytes(reg) + rest, 1) == ([reg], rest)
  {
    var s := CStringBytes(name) + U8Bytes(reg) + rest;
    assert s == CStringBytes(name) + (U8Bytes(reg) + rest);
    CStringRoundTrip(name, U8Bytes(reg) + rest);
    U8RoundTrip(reg, rest);
    assert UnitAt(s) == (reg, rest);
    ReadEntriesOne(s, UnitAt);
  }

  /** The reader gives back the registers of the used units, in ascending order. */
  lemma {:induction false} UnitsRoundTrip(units: seq<bool>, names: seq<seq<byte>>, n: nat, rest: seq<byte>)
    requires n <= |units| <= |names| && n <= 256
    requires forall k :: 0 <= k < |names| ==> 0 !in names[k]
    ensures UnitsRead(UnitsBytes(units, names, n) + rest, UsedCount(units, n)) == (UsedRegisters(units, n), rest)
    decreases n
  {
    if n > 0 {
      var prev := UnitsBytes(units, names, n - 1);
      var e := UnitBytes(units, names, n - 1);
      var before := UsedRegisters(units, n - 1);
      assert UnitsBytes(units, names, n) + rest == prev + (e + rest);
      UnitsRoundTrip(units, names, n - 1, e + rest);
      if units[n - 1] {
        UnitRoundTrip(names[n - 1], n - 1, rest);
        assert e + rest == CStringBytes(names[n - 1]) + U8Bytes(n - 1) + rest;
        UnitsReadThen(prev + (e + rest), UsedCount(units, n - 1), 1, before, e + rest, [n - 1], rest);
        assert UsedCount(units, n) == UsedCount(units, n - 1) + 1;
        assert UsedRegisters(units, n) == before + [n - 1];
      } else {
        assert e + rest == rest;
        assert UsedRegisters(units, n) == before by {
          assert before + [] == before;
        }
      }
    } else {
      assert UnitsBytes(units, names, n) + rest == rest;
    }
  }

  lemma UnitsReadThen(s: seq<byte>, a: nat, b: nat, xs: seq<nat>, mid: seq<byte>, ys: seq<nat>, rest: seq<byte>)
    requires UnitsRead(s, a) == (xs, mid) && UnitsRead(mid, b) == (ys, rest)
    ensures UnitsRead(s, a + b) == (xs + ys, rest)
  {
    ReadEntriesThen(s, UnitAt, a, b, xs, mid, ys, rest);
  }

  lemma HighHalfBound(h: nat)
    requires h < U64_LIMIT
    ensures h / U32_LIMIT < U32_LIMIT
  {
  }

  /**
   * Reading a file written from storable parameters and unit names gives back the
   * upper half of the element hash, the parameters in the order written, the
   * registers of the used texture units and the bytecode.
   */
  lemma DecodeRoundTrip(t: Shader.ShaderType, h: nat, ps: seq<ShaderParameter>,
                        units: seq<bool>, names: seq<seq<byte>>, byteCode: seq<byte>)
    requires h < U64_LIMIT && |ps| < U32_LIMIT && |byteCode| < U32_LIMIT
    requires forall k :: 0 <= k < |ps| ==> Storable(ps[k]) && ps[k].shaderType == t
    requires |units| == MAX_TEXTURE_UNITS <= |names| && forall k :: 0 <= k < |names| ==> 0 !in names[k]
    ensures Decode(ByteCodeFile(t, h, ps, units, names, byteCode), t)
         == Decoded(true, h / U32_LIMIT, ps, UsedRegisters(units, MAX_TEXTURE_UNITS), byteCode)
  {
    var body := BodyBytes(ps, units, names, byteCode);
    var r3 := U32Bytes(h / U32_LIMIT) + body;
    var r2 := U16Bytes(SHADER_MODEL) + r3;
    var r1 := U16Bytes(TypeCode(t)) + r2;
    BytesRoundTrip(FILE_ID, r1);
    U16RoundTrip(TypeCode(t), r2);
    U16RoundTrip(SHADER_MODEL, r3);
    HighHalfBound(h);
    U32RoundTrip(h / U32_LIMIT, body);
    BodyRoundTrip(t, ps, units, names, byteCode);
  }

  lemma BodyRoundTrip(t: Shader.ShaderType, ps: seq<ShaderParameter>,
                      units: seq<bool>, names: seq<seq<byte>>, byteCode: seq<byte>)
    requires |ps| < U32_LIMIT && |byteCode| < U32_LIMIT
    requires forall k :: 0 <= k < |ps| ==> Storable(ps[k]) && ps[k].shaderType == t
    requires |units| == MAX_TEXTURE_UNITS <= |names| && forall k :: 0 <= k < |names| ==> 0 !in names[k]
    ensures DecodeBody(true, 0, BodyBytes(ps, units, names, byteCode), t)
         == Decoded(true, 0, ps, UsedRegisters(units, MAX_TEXTURE_UNITS), byteCode)
  {
    var r3 := U32Bytes(|byteCode|) + byteCode;
    var r2 := UnitsBytes(units, names, MAX_TEXTURE_UNITS) + r3;
    var r1 := U32Bytes(UsedCount(units, MAX_TEXTURE_UNITS)) + r2;
    U32RoundTrip(|ps|, ParamsBytes(ps) + r1);
    ParamsRoundTrip(ps, t, r1);
    U32RoundTrip(UsedCount(units, MAX_TEXTURE_UNITS), r2);
    UnitsRoundTrip(units, names, MAX_TEXTURE_UNITS, r3);
    U32RoundTrip(|byteCode|, byteCode);
    assert byteCode == byteCode + [];
    BytesRoundTrip(byteCode, []);
  }

  /** The element hash read back is the written one with its lower 32 bits cleared. */
  lemma HashRoundTrip(h: nat)
    requires h < U64_LIMIT
    ensures (h / U32_LIMIT) * U32_LIMIT == h - h % U32_LIMIT
    ensures (h / U32_LIMIT) * U32_LIMIT < U64_LIMIT
  {
  }

  lemma InsertedSnoc(m: map<seq<byte>, ShaderParameter>, ps: seq<ShaderParameter>, p: ShaderParameter)
    ensures Inserted(m, ps + [p]) == Inserted(m, ps)[p.name := p]
  {
    assert (ps + [p])[..|ps|] == ps;
  }

  /** Every entry of a map built by insertion sits under its own name and has the reading type. */
  lemma {:induction false} InsertedKeys(m: map<seq<byte>, ShaderParameter>, ps: seq<ShaderParameter>, t: Shader.ShaderType)
    requires forall k :: k in m ==> m[k].name == k && m[k].shaderType == t
    requires forall i :: 0 <= i < |ps| ==> ps[i].shaderType == t
    ensures forall k :: k in Inserted(m, ps) ==> Inserted(m, ps)[k].name == k && Inserted(m, ps)[k].shaderType == t
    decreases |ps|
  {
    if |ps| > 0 {
      InsertedKeys(m, ps[..|ps| - 1], t);
    }
  }

  /** With distinct names, inserting the parameters gives a map from each name to its parameter and nothing else new. */
  lemma {:induction false} InsertedDistinct(m: map<seq<byte>, ShaderParameter>, ps: seq<ShaderParameter>)
    requires DistinctNames(ps)
    ensures forall k :: 0 <= k < |ps| ==> ps[k].name in Inserted(m, ps) && Inserted(m, ps)[ps[k].name] == ps[k]
    ensures forall n :: n in Inserted(m, ps) <==> n in m || exists k :: 0 <= k < |ps| && ps[k].name == n
    decreases |ps|
  {
    if |ps| > 0 {
      var init := ps[..|ps| - 1];
      var last := ps[|ps| - 1];
      var prev := Inserted(m, init);
      InsertedDistinct(m, init);
      assert Inserted(m, ps) == prev[last.name := last];
      forall k | 0 <= k < |ps|
        ensures ps[k].name in Inserted(m, ps) && Inserted(m, ps)[ps[k].name] == ps[k]
      {
        if k < |init| {
          assert ps[k] == init[k] && ps[k].name != last.name;
        }
      }
      forall n | n in Inserted(m, ps)
        ensures n in m || exists k :: 0 <= k < |ps| && ps[k].name == n
      {
        if n != last.name && n !in m {
          var k :| 0 <= k < |init| && init[k].name == n;
          assert ps[k].name == n;
        }
      }
      forall n | n in m || (exists k :: 0 <= k < |ps| && ps[k].name == n)
        ensures n in Inserted(m, ps)
      {
        if n !in m && n != last.name {
          var k :| 0 <= k < |ps| && ps[k].name == n;
          assert init[k].name == n;
        }
      }
    }
  }

  /** `order` lists every entry of `m` once, each under its own name. */
  predicate Enumerates(order: seq<ShaderParameter>, m: map<seq<byte>, ShaderParameter>)
  {
    && DistinctNames(order)
    && (forall i :: 0 <= i < |order| ==> order[i].name in m && m[order[i].name] == order[i])
    && (forall k :: k in m ==> exists i :: 0 <= i < |order| && order[i].name == k)
  }

  /** Loading the entries saved from a map into the cleared map of a released variation restores the map. */
  lemma LoadRestoresParameters(order: seq<ShaderParameter>, m: map<seq<byte>, ShaderParameter>)
    requires Enumerates(order, m)
    ensures Inserted(map[], order) == m
  {
    InsertedDistinct(map[], order);
    var r := Inserted(map[], order);
    forall k | k in m ensures k in r && r[k] == m[k] {
      var i :| 0 <= i < |order| && order[i].name == k;
    }
    assert r.Keys == m.Keys;
  }

  // ---------------------------------------------------------------------------
  // Defines

  /** The define string with " CLIPPLANE" appended unless it already ends with it. */
  function ClipPlaneDefines(defines: string): (r: string)
    ensures EndsWith(r, CLIP_PLANE)
    ensures EndsWith(defines, CLIP_PLANE) ==> r == defines
    ensures !EndsWith(defines, CLIP_PLANE) ==> r == defines + CLIP_PLANE
  {
    if EndsWith(defines, CLIP_PLANE) then defines
    else
      var r := defines + CLIP_PLANE;
      assert r[|r| - |CLIP_PLANE|..] == CLIP_PLANE;
      r
  }

  /** Applying the clip plane suffix twice adds it once. */
  lemma ClipPlaneIdempotent(defines: string)
    ensures ClipPlaneDefines(ClipPlaneDefines(defines)) == ClipPlaneDefines(defines)
  {
  }

  /** The defines handed to the compiler: the variation's defines, then the API, stage and bone count defines. */
  function CompileDefines(defines: string, t: Shader.ShaderType, maxBones: nat): (r: seq<string>)
    ensures forall k :: 0 <= k < |r| ==> |r[k]| > 0 && ' ' !in r[k]
  {
    Split(defines, ' ') + ["D3D11", if t == Shader.VS then "COMPILEVS" else "COMPILEPS", "MAXBONES=" + NatToString(maxBones)]
  }

  /** The macro name of a define: the text before its first '=', or all of it. */
  function DefineName(d: string): (r: string)
    ensures |r| <= |d| && r == d[..|r|] && '=' !in r
  {
    match Find(d, '=')
    case Some(p) => d[..p]
    case None => d
  }

  /** The macro value of a define: the text after its first '=', or "1" when there is none. */
  function DefineValue(d: string): (r: string)
    ensures '=' !in d ==> r == "1"
    ensures '=' in d ==> |r| < |d| && r == d[|d| - |r|..]
  {
    match Find(d, '=')
    case Some(p) => d[p + 1..]
    case None => "1"
  }

  /** A define with '=' is its name, '=' and its value, and the name holds no '='; otherwise the name is the define and the value "1". */
  lemma DefineSplit(d: string)
    ensures '=' in d ==> DefineName(d) + "=" + DefineValue(d) == d && '=' !in DefineName(d)
    ensures '=' !in d ==> DefineName(d) == d && DefineValue(d) == "1"
  {
    match Find(d, '=')
    case Some(p) =>
      assert d[..p] + "=" + d[p + 1..] == d;
    case None =>
  }

  /** The last define the compiler gets names MAXBONES and carries the bone count in decimal. */
  lemma MaxBonesDefine(defines: string, t: Shader.ShaderType, maxBones: nat)
    ensures var r := CompileDefines(defines, t, maxBones);
      DefineName(r[|r| - 1]) == "MAXBONES" && DefineValue(r[|r| - 1]) == NatToString(maxBones)
  {
    var r := CompileDefines(defines, t, maxBones);
    var d := "MAXBONES=" + NatToString(maxBones);
    assert r[|r| - 1] == d;
    assert d[8] == '=';
    assert '=' in d;
    assert forall k :: 0 <= k < 8 ==> d[k] != '=';
    assert Find(d, '=') == Some(8);
    assert d[..8] == "MAXBONES";
    assert d[9..] == NatToString(maxBones);
  }

  /** The compile step's pass over the defines: each is cut at its first '=' and its value collected. */
  method ParseDefines(defines: seq<string>) returns (names: seq<string>, values: seq<string>)
    ensures |names| == |values| == |defines|
    ensures forall i :: 0 <= i < |defines| ==> names[i] == DefineName(defines[i]) && values[i] == DefineValue(defines[i])
  {
    names := defines;
    values := [];
    var i := 0;
    while i < |names|
      invariant 0 <= i <= |names| == |defines| && |values| == i
      invariant forall k :: 0 <= k < i ==> names[k] == DefineName(defines[k]) && values[k] == DefineValue(defines[k])
      invariant names[i..] == defines[i..]
    {
      assert names[i] == defines[i];
      var equalsPos := Find(names[i], '=');
      if equalsPos.Some? {
        values := values + [names[i][equalsPos.value + 1..]];
        names := names[i := names[i][..equalsPos.value]];
      } else {
        values := values + ["1"];
      }
      i := i + 1;
    }
  }

  // ---------------------------------------------------------------------------
  // Constant buffer sizes

  /** Where a parameter ends in its buffer, as the engine's unsigned 32-bit sum. */
  function ParamEnd(p: ShaderParameter): (r: nat)
    ensures r < U32_LIMIT
  {
    (p.offset + p.size) % U32_LIMIT
  }

  /**
   * `v` is the largest end among the parameters (of `m`, under `keys`) in buffer `b`,
   * or 0 when there is none.
   */
  predicate IsMaxEnd(m: map<seq<byte>, ShaderParameter>, keys: set<seq<byte>>, b: nat, v: nat)
  {
    && (forall k :: k in keys && k in m && m[k].buffer == b ==> ParamEnd(m[k]) <= v)
    && (v == 0 || exists k :: k in keys && k in m && m[k].buffer == b && ParamEnd(m[k]) == v)
  }

  /** The size a buffer gets is determined by the parameters. */
  lemma MaxEndUnique(m: map<seq<byte>, ShaderParameter>, keys: set<seq<byte>>, b: nat, v: nat, w: nat)
    requires IsMaxEnd(m, keys, b, v) && IsMaxEnd(m, keys, b, w)
    ensures v == w
  {
    if v != 0 {
      var k :| k in keys && k in m && m[k].buffer == b && ParamEnd(m[k]) == v;
      assert v <= w;
    }
    if w != 0 {
      var k :| k in keys && k in m && m[k].buffer == b && ParamEnd(m[k]) == w;
      assert w <= v;
    }
  }

  lemma MaxEndStep(m: map<seq<byte>, ShaderParameter>, keys: set<seq<byte>>, b: nat, v: nat, k: seq<byte>, w: nat)
    requires IsMaxEnd(m, keys, b, v) && k in m
    requires w == if m[k].buffer == b && ParamEnd(m[k]) > v then ParamEnd(m[k]) else v
    ensures IsMaxEnd(m, keys + {k}, b, w)
  {
    if w != 0 && w == v {
      if m[k].buffer == b && ParamEnd(m[k]) == v {
      } else {
        var j :| j in keys && j in m && m[j].buffer == b && ParamEnd(m[j]) == v;
        assert j in keys + {k};
      }
    }
  }

  // ---------------------------------------------------------------------------
  // The variation

  class ShaderVariation {
    const shaderType: Shader.ShaderType
    /** Whether the graphics subsystem still exists. */
    const graphicsPresent: bool
    const useTextureUnits: array<bool>
    const constantBufferSizes: array<nat>
    /** Whether the GPU shader object exists. */
    var hasObject: bool
    var parameters: map<seq<byte>, ShaderParameter>
    var byteCode: seq<byte>
    var elementHash: nat
    var defines: string
    var definesClipPlane: string
    var compilerOutput: string

    predicate Valid()
      reads this
    {
      && useTextureUnits.Length == MAX_TEXTURE_UNITS
      && constantBufferSizes.Length == MAX_SHADER_PARAMETER_GROUPS
      && elementHash < U64_LIMIT
      && (forall k :: k in parameters ==> parameters[k].name == k && parameters[k].shaderType == shaderType)
    }

    constructor (t: Shader.ShaderType, graphics: bool)
      ensures Valid() && shaderType == t && graphicsPresent == graphics && !hasObject
      ensures parameters == map[] && byteCode == [] && elementHash == 0
      ensures fresh(useTextureUnits) && fresh(constantBufferSizes)
      ensures forall i :: 0 <= i < MAX_TEXTURE_UNITS ==> !useTextureUnits[i]
      ensures forall i :: 0 <= i < MAX_SHADER_PARAMETER_GROUPS ==> constantBufferSizes[i] == 0
    {
      shaderType := t;
      graphicsPresent := graphics;
      useTextureUnits := new bool[MAX_TEXTURE_UNITS](_ => false);
      constantBufferSizes := new nat[MAX_SHADER_PARAMETER_GROUPS](_ => 0);
      hasObject := false;
      parameters := map[];
      byteCode := [];
      elementHash := 0;
      defines := [];
      definesClipPlane := [];
      compilerOutput := [];
    }

    /**
     * Drops the GPU object and clears everything reflected or loaded from it. With an
     * object but no graphics subsystem nothing is touched.
     */
    method Release()
      requires Valid()
      modifies this`hasObject, this`compilerOutput, this`parameters, this`byteCode, this`elementHash
      modifies useTextureUnits, constantBufferSizes
      ensures Valid()
      ensures old(hasObject) && !graphicsPresent ==>
        unchanged(this) && unchanged(useTextureUnits) && unchanged(constantBufferSizes)
      ensures !(old(hasObject) && !graphicsPresent) ==>
        && !hasObject && compilerOutput == [] && parameters == map[] && byteCode == [] && elementHash == 0
        && (forall i :: 0 <= i < MAX_TEXTURE_UNITS ==> !useTextureUnits[i])
        && (forall i :: 0 <= i < MAX_SHADER_PARAMETER_GROUPS ==> constantBufferSizes[i] == 0)
    {
      if hasObject {
        if !graphicsPresent {
          return;
        }
        hasObject := false;
      }
      compilerOutput := [];
      for i := 0 to MAX_TEXTURE_UNITS
        invariant !hasObject && compilerOutput == []
        invariant forall k :: 0 <= k < i ==> !useTextureUnits[k]
      {
        useTextureUnits[i] := false;
      }
      for i := 0 to MAX_SHADER_PARAMETER_GROUPS
        invariant !hasObject && compilerOutput == []
        invariant forall k :: 0 <= k < MAX_TEXTURE_UNITS ==> !useTextureUnits[k]
        invariant forall k :: 0 <= k < i ==> constantBufferSizes[k] == 0
      {
        constantBufferSizes[i] := 0;
      }
      parameters := map[];
      byteCode := [];
      elementHash := 0;
    }

    method SetDefines(d: string)
      modifies this`defines, this`definesClipPlane
      ensures defines == d && definesClipPlane == ClipPlaneDefines(d)
    {
      defines := d;
      definesClipPlane := d;
      if !EndsWith(definesClipPlane, CLIP_PLANE) {
        definesClipPlane := definesClipPlane + CLIP_PLANE;
      }
    }

    /** Each buffer slot gets the largest end of the parameters in that buffer; indices past the slots are ignored. */
    method CalculateConstantBufferSizes()
      requires Valid()
      modifies constantBufferSizes
      ensures forall b :: 0 <= b < MAX_SHADER_PARAMETER_GROUPS ==> IsMaxEnd(parameters, parameters.Keys, b, constantBufferSizes[b])
    {
      for i := 0 to MAX_SHADER_PARAMETER_GROUPS
        invariant forall k :: 0 <= k < i ==> constantBufferSizes[k] == 0
      {
        constantBufferSizes[i] := 0;
      }
      var todo := parameters.Keys;
      ghost var done: set<seq<byte>> := {};
      while todo != {}
        invariant todo + done == parameters.Keys
        invariant forall b :: 0 <= b < MAX_SHADER_PARAMETER_GROUPS ==> IsMaxEnd(parameters, done, b, constantBufferSizes[b])
        decreases todo
      {
        var k :| k in todo;
        ghost var before := constantBufferSizes[..];
        var p := parameters[k];
        if p.buffer < MAX_SHADER_PARAMETER_GROUPS {
          var oldSize := constantBufferSizes[p.buffer];
          var paramEnd := (p.offset + p.size) % U32_LIMIT;
          if paramEnd > oldSize {
            constantBufferSizes[p.buffer] := paramEnd;
          }
        }
        forall b | 0 <= b < MAX_SHADER_PARAMETER_GROUPS
          ensures IsMaxEnd(parameters, done + {k}, b, constantBufferSizes[b])
        {
          MaxEndStep(parameters, done, b, before[b], k, constantBufferSizes[b]);
        }
        todo := todo - {k};
        done := done + {k};
      }
    }
  
    /** Reads `n` parameter entries from `s` into the map; returns the rest of the stream. */
    method ReadParameters(s: seq<byte>, n: nat) returns (rest: seq<byte>)
      requires Valid()
      modifies this`parameters
      ensures Valid()
      ensures parameters == Inserted(old(parameters), ParamsRead(s, shaderType, n).0)
      ensures rest == ParamsRead(s, shaderType, n).1
    {
      rest := s;
      var i := 0;
      ghost var read: seq<ShaderParameter> := [];
      ghost var m0 := parameters;
      ghost var total := ParamsRead(s, shaderType, n);
      assert read + total.0 == total.0;
      while i < n
        invariant 0 <= i <= n && |read| == i
        invariant total.0 == read + ParamsRead(rest, shaderType, n - i).0
        invariant total.1 == ParamsRead(rest, shaderType, n - i).1
        invariant parameters == Inserted(m0, read)
        invariant Valid()
      {
        var p, next := ReadParameter(rest, m0, read);
        ReadStep(rest, n - i, read, p, next);
        read := read + [p];
        rest := next;
        i := i + 1;
      }
      assert read + ParamsRead(rest, shaderType, 0).0 == read;
    }

    /** Reads one parameter entry (name, buffer, offset, size) and stores it under its name. */
    method ReadParameter(s: seq<byte>, ghost m0: map<seq<byte>, ShaderParameter>, ghost read: seq<ShaderParameter>)
      returns (p: ShaderParameter, rest: seq<byte>)
      requires Valid() && parameters == Inserted(m0, read)
      modifies this`parameters
      ensures Valid()
      ensures (p, rest) == ParamAt(s, shaderType)
      ensures parameters == Inserted(m0, read + [p])
    {
      var name := ReadCString(s);
      var buffer := ReadU8(name.1);
      var offset := ReadU32(buffer.1);
      var size := ReadU32(offset.1);
      p := ShaderParameter(shaderType, name.0, offset.0, size.0, buffer.0);
      rest := size.1;
      parameters := parameters[p.name := p];
      InsertedSnoc(m0, read, p);
    }

    /** Reading the entries left after one more parameter entry. */
    lemma ReadStep(rest: seq<byte>, k: nat, read: seq<ShaderParameter>, p: ShaderParameter, next: seq<byte>)
      requires k > 0
      requires ParamAt(rest, shaderType) == (p, next)
      ensures read + ParamsRead(rest, shaderType, k).0 == read + [p] + ParamsRead(next, shaderType, k - 1).0
      ensures ParamsRead(rest, shaderType, k).1 == ParamsRead(next, shaderType, k - 1).1
    {
      var tail := ReadEntries(next, ParamEntry(shaderType), k - 1);
      assert ParamEntry(shaderType)(rest) == (p, next);
      assert ReadEntries(rest, ParamEntry(shaderType), k) == ([p] + tail.0, tail.1);
      assert read + ([p] + tail.0) == read + [p] + tail.0;
    }

    /** Reads `n` texture unit entries from `s`, marking each register below the unit count used. */
    method ReadTextureUnits(s: seq<byte>, n: nat) returns (rest: seq<byte>)
      requires Valid()
      modifies useTextureUnits
      ensures forall j :: 0 <= j < MAX_TEXTURE_UNITS ==> useTextureUnits[j] == (old(useTextureUnits[j]) || j in UnitsRead(s, n).0)
      ensures rest == UnitsRead(s, n).1
    {
      rest := s;
      var i := 0;
      ghost var regs: seq<nat> := [];
      assert regs + ReadEntries(s, UnitAt, n).0 == ReadEntries(s, UnitAt, n).0;
      while i < n
        invariant 0 <= i <= n
        invariant ReadEntries(s, UnitAt, n) == (regs + ReadEntries(rest, UnitAt, n - i).0, ReadEntries(rest, UnitAt, n - i).1)
        invariant forall j :: 0 <= j < MAX_TEXTURE_UNITS ==> useTextureUnits[j] == (old(useTextureUnits[j]) || j in regs)
      {
        var name := ReadCString(rest);
        var reg := ReadU8(name.1);
        if reg.0 < MAX_TEXTURE_UNITS {
          useTextureUnits[reg.0] := true;
        }
        UnitStep(s, n, i, regs, rest, reg.0, reg.1);
        regs := regs + [reg.0];
        rest := reg.1;
        i := i + 1;
      }
      assert regs + ReadEntries(rest, UnitAt, 0).0 == regs;
    }

    lemma UnitStep(s: seq<byte>, n: nat, i: nat, regs: seq<nat>, rest: seq<byte>, reg: nat, next: seq<byte>)
      requires i < n
      requires ReadEntries(s, UnitAt, n) == (regs + ReadEntries(rest, UnitAt, n - i).0, ReadEntries(rest, UnitAt, n - i).1)
      requires UnitAt(rest) == (reg, next)
      ensures ReadEntries(s, UnitAt, n) == (regs + [reg] + ReadEntries(next, UnitAt, n - (i + 1)).0, ReadEntries(next, UnitAt, n - (i + 1)).1)
    {
      var tail := ReadEntries(next, UnitAt, n - (i + 1));
      assert ReadEntries(rest, UnitAt, n - i) == ([reg] + tail.0, tail.1);
      assert regs + ([reg] + tail.0) == regs + [reg] + tail.0;
    }

    /**
     * Loads the cached bytecode. `cached` says whether the resource cache has the file,
     * `sourceTimeStamp` is the shader source's time stamp (0 inside a package) and
     * `binaryTime` the cache file's modification time; `file` is its content, None when
     * it cannot be opened. The hash, parameters and texture units are taken over
     * before the bytecode size is checked, so a file with empty bytecode fails with
     * them already changed.
     */
    method LoadByteCode(cached: bool, sourceTimeStamp: nat, binaryTime: nat, file: Option<seq<byte>>) returns (ok: bool)
      requires Valid()
      modifies this`elementHash, this`parameters, this`byteCode, useTextureUnits, constantBufferSizes
      ensures Valid()
      ensures !Readable(cached, sourceTimeStamp, binaryTime, file, shaderType) ==>
        !ok && unchanged(this) && unchanged(useTextureUnits) && unchanged(constantBufferSizes)
      ensures Readable(cached, sourceTimeStamp, binaryTime, file, shaderType) ==>
        LoadedAs(Decode(file.value, shaderType), old(parameters), old(useTextureUnits[..]), old(byteCode), old(constantBufferSizes[..]), ok)
    {
      if !cached {
        return false;
      }
      if sourceTimeStamp != 0 && binaryTime < sourceTimeStamp {
        return false;
      }
      if file.None? {
        return false;
      }
      var id := ReadBytes(file.value, 4);
      if id.0 != FILE_ID {
        return false;
      }
      var shaderTypeCode := ReadU16(id.1);
      var shaderModel := ReadU16(shaderTypeCode.1);
      var hash := ReadU32(shaderModel.1);
      HashBound(hash.0);
      elementHash := hash.0 * U32_LIMIT;
      var numParameters := ReadU32(hash.1);
      var rest := ReadParameters(numParameters.1, numParameters.0);
      var numTextureUnits := ReadU32(rest);
      rest := ReadTextureUnits(numTextureUnits.1, numTextureUnits.0);
      var byteCodeSize := ReadU32(rest);
      if byteCodeSize.0 > 0 {
        byteCode := ReadBytes(byteCodeSize.1, byteCodeSize.0).0;
        CalculateConstantBufferSizes();
        ok := true;
      } else {
        ok := false;
      }
    }

    /**
     * What a successful read leaves: the hash's upper half from the file, the entries
     * inserted into the parameter map, the listed registers marked used, and, exactly
     * when the bytecode is not empty, the bytecode and the recomputed buffer sizes.
     */
    ghost predicate LoadedAs(d: Decoded, oldParameters: map<seq<byte>, ShaderParameter>, oldUnits: seq<bool>,
                             oldByteCode: seq<byte>, oldSizes: seq<nat>, ok: bool)
      requires Valid() && |oldUnits| == MAX_TEXTURE_UNITS
      reads this, useTextureUnits, constantBufferSizes
    {
      && elementHash == d.hashHigh * U32_LIMIT
      && parameters == Inserted(oldParameters, d.params)
      && (forall j :: 0 <= j < MAX_TEXTURE_UNITS ==> useTextureUnits[j] == (oldUnits[j] || j in d.registers))
      && (ok <==> |d.byteCode| > 0)
      && (ok ==> byteCode == d.byteCode
                 && forall b :: 0 <= b < MAX_SHADER_PARAMETER_GROUPS ==> IsMaxEnd(parameters, parameters.Keys, b, constantBufferSizes[b]))
      && (!ok ==> byteCode == oldByteCode && constantBufferSizes[..] == oldSizes)
    }

    /**
     * Writes the cache file. The map is walked in some order, returned as `order`;
     * `unitNames` are the graphics subsystem's texture unit names.
     */
    method SaveByteCode(unitNames: seq<seq<byte>>) returns (file: seq<byte>, order: seq<ShaderParameter>)
      requires Valid() && |unitNames| == MAX_TEXTURE_UNITS
      ensures Enumerates(order, parameters)
      ensures file == ByteCodeFile(shaderType, elementHash, order, useTextureUnits[..], unitNames, byteCode)
    {
      var header := FILE_ID + (U16Bytes(TypeCode(shaderType)) + (U16Bytes(SHADER_MODEL) + U32Bytes(elementHash / U32_LIMIT)));
      var paramsOut, ord := WriteParameters();
      order := ord;
      var usedTextureUnits := CountUsedUnits();
      var unitsOut := WriteUnits(unitNames);
      file := header + (U32Bytes(|order|) + (paramsOut + (U32Bytes(usedTextureUnits) + (unitsOut + (U32Bytes(|byteCode|) + byteCode)))));
    }

    /** The number of texture units in use. */
    method CountUsedUnits() returns (count: nat)
      requires Valid()
      ensures count == UsedCount(useTextureUnits[..], MAX_TEXTURE_UNITS)
    {
      count := 0;
      for i := 0 to MAX_TEXTURE_UNITS
        invariant count == UsedCount(useTextureUnits[..], i)
      {
        if useTextureUnits[i] {
          count := count + 1;
        }
      }
    }

    /** The name and index of every texture unit in use, in unit order. */
    method WriteUnits(unitNames: seq<seq<byte>>) returns (out: seq<byte>)
      requires Valid() && |unitNames| == MAX_TEXTURE_UNITS
      ensures out == UnitsBytes(useTextureUnits[..], unitNames, MAX_TEXTURE_UNITS)
    {
      out := [];
      for i := 0 to MAX_TEXTURE_UNITS
        invariant out == UnitsBytes(useTextureUnits[..], unitNames, i)
      {
        if useTextureUnits[i] {
          out := out + (CStringBytes(unitNames[i]) + U8Bytes(i));
        }
      }
    }

    /** The parameter entries, each key visited once; returns the bytes and the order. */
    method WriteParameters() returns (out: seq<byte>, order: seq<ShaderParameter>)
      requires Valid()
      ensures Enumerates(order, parameters) && out == ParamsBytes(order)
    {
      var todo := parameters.Keys;
      out := [];
      order := [];
      while todo != {}
        invariant todo <= parameters.Keys
        invariant out == ParamsBytes(order)
        invariant DistinctNames(order)
        invariant forall i :: 0 <= i < |order| ==> order[i].name in parameters && parameters[order[i].name] == order[i] && order[i].name !in todo
        invariant forall k :: k in parameters && k !in todo ==> exists i :: 0 <= i < |order| && order[i].name == k
        decreases todo
      {
        var k :| k in todo;
        var p := parameters[k];
        out := out + ParamBytes(p);
        assert (order + [p])[..|order|] == order;
        order := order + [p];
        todo := todo - {k};
      }
    }
  }

  /** The checks before anything is read: the file exists, is not older than a non-zero source time stamp, opens and starts with "USHD". */
  predicate Readable(cached: bool, sourceTimeStamp: nat, binaryTime: nat, file: Option<seq<byte>>, t: Shader.ShaderType)
  {
    cached && !(sourceTimeStamp != 0 && binaryTime < sourceTimeStamp) && file.Some? && Decode(file.value, t).idOk
  }

  lemma HashBound(high: nat)
    requires high < U32_LIMIT
    ensures high * U32_LIMIT < U64_LIMIT
  {
  }
}
