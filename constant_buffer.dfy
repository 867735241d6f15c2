/**
 * The shader constant buffer: parameter writes into its CPU-side shadow copy, the
 * 16-byte size rounding, and the Direct3D 11 and OpenGL back ends' create, release
 * and apply steps. GPU calls are recorded as uninterpreted entries of a call trace.
 */
module ConstantBuffers {
  import opened Bytes
  import opened Str
  import Arith

  const U32_MAX: int := 0xFFFF_FFFF
  /** The largest request whose round-up to 16 bytes still fits 32 bits. */
  const MAX_ROUNDABLE: int := 0xFFFF_FFF0

  /** The GPU calls a constant buffer issues, as uninterpreted effects. */
  datatype GpuCall =
    | CreateBuffer(size: nat)
    | BufferData(contents: seq<byte>)
    | DeleteBuffer

  // ---------------------------------------------------------------------
  // Size rounding

  const U32_LIMIT: int := 0x1_0000_0000

  /** The low four bits of a 32-bit value are its remainder modulo 16, so `& 0xfffffff0` subtracts that remainder. */
  lemma MaskClearsLowBits(x: bv32)
    ensures x & 0xFFFF_FFF0 == x - x % 16
  {
  }

  /**
   * The rounding as written: `size += 15; size &= 0xfffffff0` on a 32-bit unsigned
   * value, so the addition wraps for requests above MAX_ROUNDABLE.
   */
  function RoundUp16AsWritten(size: nat): (r: nat)
    requires size <= U32_MAX
    ensures r % 16 == 0 && r <= U32_MAX
  {
    var sum := (size + 15) % U32_LIMIT;
    sum - sum % 16
  }

  /** Every request above MAX_ROUNDABLE rounds to 0, so the request 0xFFFFFFF1 passes the zero check yet yields a zero-sized buffer. */
  lemma RoundUp16AsWrittenWraps(size: nat)
    requires MAX_ROUNDABLE < size <= U32_MAX
    ensures RoundUp16AsWritten(size) == 0
  {
    Arith.ModUnique(size + 15, U32_LIMIT, 1, size + 15 - U32_LIMIT);
  }

  /** The intended rounding: the least multiple of 16 not below the request, or None when it leaves 32 bits. */
  function RoundUp16(size: nat): (r: Option<nat>)
    ensures r.Some? <==> size <= MAX_ROUNDABLE
    ensures r.Some? ==> r.value % 16 == 0 && size <= r.value < size + 16 && r.value <= U32_MAX
  {
    if size <= MAX_ROUNDABLE then Some((size + 15) / 16 * 16) else None
  }

  /** Where the written rounding does not wrap, it is the intended one. */
  lemma RoundUp16AgreesBelowWrap(size: nat)
    requires size <= MAX_ROUNDABLE
    ensures RoundUp16(size) == Some(RoundUp16AsWritten(size))
  {
    Arith.ModUnique(size + 15, U32_LIMIT, 0, size + 15);
    Arith.ModUnique(size + 15, 16, (size + 15) / 16, (size + 15) % 16);
  }

  /** Re-rounding a rounded size changes nothing. */
  lemma RoundUp16Idempotent(size: nat)
    requires size <= MAX_ROUNDABLE && size % 16 == 0
    ensures RoundUp16(size) == Some(size)
  {
    Arith.ModUnique(size + 15, 16, size / 16, 15);
  }

  // ---------------------------------------------------------------------
  // Bounds of parameter writes

  /** SetParameter's range check as written: the 32-bit sum offset + size is compared with the buffer size. */
  predicate ParameterOutOfRangeAsWritten(offset: nat, size: nat, bufferSize: nat)
  {
    (offset + size) % U32_LIMIT > bufferSize
  }

  /** A write of one byte at offset 0xFFFFFFFF passes the written check although it lies past a 16-byte buffer. */
  lemma ParameterCheckCounterexample()
    ensures !ParameterOutOfRangeAsWritten(U32_MAX, 1, 16) && ParameterOutOfRange(U32_MAX, 1, 16)
  {
    Arith.ModUnique(U32_MAX + 1, U32_LIMIT, 1, 0);
  }

  /** The intended range check, without wrap-around. */
  predicate ParameterOutOfRange(offset: nat, size: nat, bufferSize: nat)
  {
    offset + size > bufferSize
  }

  /** The two checks agree whenever the sum fits 32 bits. */
  lemma ParameterCheckAgrees(offset: nat, size: nat, bufferSize: nat)
    requires offset + size <= U32_MAX
    ensures ParameterOutOfRangeAsWritten(offset, size, bufferSize) == ParameterOutOfRange(offset, size, bufferSize)
  {
    Arith.ModUnique(offset + size, U32_LIMIT, 0, offset + size);
  }

  /**
   * SetVector3ArrayParameter's range check as written: `rows * 4` is a 32-bit product,
   * widened before the multiplication by sizeof(float) and the addition.
   */
  predicate Vector3OutOfRangeAsWritten(offset: nat, rows: nat, bufferSize: nat)
  {
    offset + (rows * 4) % U32_LIMIT * 4 > bufferSize
  }

  /** 2^30 rows pass the written check on a 16-byte buffer. */
  lemma Vector3CheckCounterexample()
    ensures !Vector3OutOfRangeAsWritten(0, 0x4000_0000, 16) && Vector3OutOfRange(0, 0x4000_0000, 16)
  {
    Arith.ModUnique(0x4000_0000 * 4, U32_LIMIT, 1, 0);
  }

  /** The intended range check: the rows occupy 16 bytes each. */
  predicate Vector3OutOfRange(offset: nat, rows: nat, bufferSize: nat)
  {
    offset + rows * 16 > bufferSize
  }

  /** The two checks agree whenever rows * 4 fits 32 bits. */
  lemma Vector3CheckAgrees(offset: nat, rows: nat, bufferSize: nat)
    requires rows * 4 <= U32_MAX
    ensures Vector3OutOfRangeAsWritten(offset, rows, bufferSize) == Vector3OutOfRange(offset, rows, bufferSize)
  {
    Arith.ModUnique(rows * 4, U32_LIMIT, 0, rows * 4);
  }

  // ---------------------------------------------------------------------
  // Shadow contents

  /** Position `j` of a row block maps to byte `j % 16` of source row `j / 16`. */
  lemma RowIndex(j: nat, rows: nat)
    requires j < rows * 16 && j % 16 < 12
    ensures j / 16 < rows && j / 16 * 12 + j % 16 < rows * 12
  {
    assert j == j / 16 * 16 + j % 16;
  }

  /**
   * Byte `k` after writing `rows` three-component vectors from `data` at `offset`: each
   * 16-byte slot receives 12 bytes of its row and keeps its last 4 (the w coordinate).
   */
  function Vector3At(s: seq<byte>, offset: nat, data: seq<byte>, rows: nat, k: nat): byte
    requires k < |s| && |data| >= rows * 12
  {
    if offset <= k < offset + rows * 16 && (k - offset) % 16 < 12 then
      RowIndex(k - offset, rows);
      data[(k - offset) / 16 * 12 + (k - offset) % 16]
    else s[k]
  }

  /** The shadow after writing `rows` vectors from `data` at `offset`. */
  function Vector3Written(s: seq<byte>, offset: nat, data: seq<byte>, rows: nat): (r: seq<byte>)
    requires |data| >= rows * 12
    ensures |r| == |s|
  {
    seq(|s|, k requires 0 <= k < |s| => Vector3At(s, offset, data, rows, k))
  }

  /** Byte `c` of slot `r` in the block at `offset`. */
  lemma SlotPosition(offset: nat, r: nat, c: nat)
    requires c < 16
    ensures (offset + 16 * r + c - offset) / 16 == r && (offset + 16 * r + c - offset) % 16 == c
  {
    Arith.ModUnique(16 * r + c, 16, r, c);
  }

  /** Row by row: slot r gets data[12r..12r+12] in its first 12 bytes, its w bytes and everything outside stay. */
  lemma Vector3WrittenRows(s: seq<byte>, offset: nat, data: seq<byte>, rows: nat, r: nat, c: nat)
    requires |data| == rows * 12 && offset + rows * 16 <= |s|
    requires r < rows && c < 16
    ensures offset + 16 * r + c < |s|
    ensures c < 12 ==> Vector3Written(s, offset, data, rows)[offset + 16 * r + c] == data[12 * r + c]
    ensures c >= 12 ==> Vector3Written(s, offset, data, rows)[offset + 16 * r + c] == s[offset + 16 * r + c]
  {
    SlotPosition(offset, r, c);
    assert 16 * r + c < rows * 16;
  }

  /** Bytes outside the block of `rows` slots keep their value. */
  lemma Vector3WrittenOutside(s: seq<byte>, offset: nat, data: seq<byte>, rows: nat, k: nat)
    requires |data| == rows * 12 && k < |s|
    requires k < offset || k >= offset + rows * 16
    ensures Vector3Written(s, offset, data, rows)[k] == s[k]
  {
  }

  /** Writing one more row changes only that row's first 12 bytes. */
  lemma Vector3Step(s: seq<byte>, offset: nat, data: seq<byte>, r: nat, k: nat)
    requires |data| >= (r + 1) * 12 && k < |s|
    ensures Vector3At(s, offset, data, r + 1, k) ==
      if offset + 16 * r <= k < offset + 16 * r + 12 then data[12 * r + (k - offset - 16 * r)]
      else Vector3At(s, offset, data, r, k)
  {
    if offset + 16 * r <= k < offset + 16 * r + 16 {
      SlotPosition(offset, r, k - offset - 16 * r);
    } else if offset <= k < offset + 16 * r {
      var j := k - offset;
      assert j < (r + 1) * 16;
      if j % 16 < 12 {
        RowIndex(j, r);
      }
    }
  }

  class ConstantBuffer {
    /** Whether a graphics subsystem exists. */
    const graphicsPresent: bool
    /** size_: the shadow size in bytes, 0 before SetSize and after Release. */
    var size: nat
    /** shadowData_; a freed shadow is an empty array. */
    var shadow: array<byte>
    var dirty: bool
    /** Whether the GPU object (a D3D11 buffer pointer or a GL name) exists. */
    var hasObject: bool
    var gpuCalls: seq<GpuCall>

    predicate Valid()
      reads this
    {
      shadow.Length == size && size % 16 == 0 && size <= U32_MAX
    }

    constructor (graphics: bool)
      ensures Valid() && graphicsPresent == graphics
      ensures size == 0 && !dirty && !hasObject && gpuCalls == []
    {
      graphicsPresent := graphics;
      size := 0;
      shadow := new byte[0];
      dirty := false;
      hasObject := false;
      gpuCalls := [];
    }

    /** SetParameter: copy `data` into the shadow at `offset` and mark the buffer dirty. */
    method SetParameter(offset: nat, data: seq<byte>)
      requires Valid()
      modifies shadow, this`dirty
      ensures Valid()
      ensures ParameterOutOfRange(offset, |data|, size) ==> dirty == old(dirty) && shadow[..] == old(shadow[..])
      ensures !ParameterOutOfRange(offset, |data|, size) ==> dirty && shadow[..] == Overwrite(old(shadow[..]), offset, data)
    {
      if ParameterOutOfRange(offset, |data|, size) {
        return;
      }
      CopyInto(shadow, offset, data);
      dirty := true;
    }

    /** Copy one row's 12 bytes into the slot at `dest`. */
    method CopyRow(dest: nat, data: seq<byte>, src: nat)
      requires dest + 12 <= shadow.Length && src + 12 <= |data|
      modifies shadow
      ensures forall k :: 0 <= k < shadow.Length ==>
        shadow[k] == if dest <= k < dest + 12 then data[src + (k - dest)] else old(shadow[k])
    {
      for c := 0 to 12
        invariant forall k :: 0 <= k < shadow.Length ==>
          shadow[k] == if dest <= k < dest + c then data[src + (k - dest)] else old(shadow[k])
      {
        shadow[dest + c] := data[src + c];
      }
    }

    /**
     * SetVector3ArrayParameter: write `rows` three-component vectors (12 bytes each in
     * `data`) into consecutive 16-byte slots from `offset`, skipping each w coordinate.
     */
    method SetVector3ArrayParameter(offset: nat, rows: nat, data: seq<byte>)
      requires Valid()
      requires |data| == rows * 12
      modifies shadow, this`dirty
      ensures Valid()
      ensures Vector3OutOfRange(offset, rows, size) ==> dirty == old(dirty) && shadow[..] == old(shadow[..])
      ensures !Vector3OutOfRange(offset, rows, size) ==>
        dirty && shadow[..] == Vector3Written(old(shadow[..]), offset, data, rows)
    {
      if Vector3OutOfRange(offset, rows, size) {
        return;
      }
      ghost var s0 := shadow[..];
      var r := 0;
      var dest := offset;
      var src := 0;
      while r < rows
        invariant r <= rows && dest == offset + 16 * r && src == 12 * r
        invariant forall k :: 0 <= k < shadow.Length ==> shadow[k] == Vector3At(s0, offset, data, r, k)
      {
        CopyRow(dest, data, src);
        forall k | 0 <= k < shadow.Length
          ensures shadow[k] == Vector3At(s0, offset, data, r + 1, k)
        {
          Vector3Step(s0, offset, data, r, k);
        }
        r := r + 1;
        dest := dest + 16;
        src := src + 12;
      }
      assert shadow[..] == Vector3Written(s0, offset, data, rows);
      dirty := true;
    }

    /** A fresh zero-filled shadow of `n` bytes. */
    method ZeroShadow(n: nat)
      modifies this`shadow
      ensures fresh(shadow) && shadow.Length == n && forall k :: 0 <= k < n ==> shadow[k] == 0
    {
      var a := new byte[n];
      for k := 0 to n
        invariant forall j :: 0 <= j < k ==> a[j] == 0
      {
        a[k] := 0;
      }
      shadow := a;
    }

    /** Release_D3D11: drop the GPU object and the shadow. */
    method ReleaseD3D11()
      requires Valid()
      modifies this`hasObject, this`shadow, this`size
      ensures Valid() && !hasObject && size == 0
    {
      hasObject := false;
      shadow := new byte[0];
      size := 0;
    }

    /**
     * SetSize_D3D11: release, then allocate a zero-filled shadow of the rounded size and
     * create the GPU buffer; `createOk` is whether CreateBuffer succeeds.
     */
    method SetSizeD3D11(request: nat, createOk: bool) returns (ok: bool)
      requires Valid()
      modifies this`hasObject, this`shadow, this`size, this`dirty, this`gpuCalls
      ensures Valid()
      ensures request == 0 || RoundUp16(request).None? ==>
        !ok && size == 0 && !hasObject && dirty == old(dirty) && gpuCalls == old(gpuCalls)
      ensures request != 0 && RoundUp16(request).Some? ==>
        && size == RoundUp16(request).value && fresh(shadow) && !dirty
        && (forall k :: 0 <= k < size ==> shadow[k] == 0)
        && gpuCalls == old(gpuCalls) + (if graphicsPresent then [CreateBuffer(size)] else [])
        && hasObject == (graphicsPresent && createOk)
        && ok == (!graphicsPresent || createOk)
    {
      ReleaseD3D11();
      if request == 0 {
        return false;
      }
      var rounded := RoundUp16(request);
      if rounded.None? {
        return false;
      }
      size := rounded.value;
      dirty := false;
      ZeroShadow(size);
      if graphicsPresent {
        gpuCalls := gpuCalls + [CreateBuffer(size)];
        if !createOk {
          hasObject := false;
          return false;
        }
        hasObject := true;
      }
      return true;
    }

    /** Apply_D3D11 and Apply_OGL: upload the shadow when it is dirty and the GPU object exists. */
    method Apply()
      requires Valid()
      modifies this`dirty, this`gpuCalls
      ensures old(dirty) && hasObject ==> !dirty && gpuCalls == old(gpuCalls) + [BufferData(shadow[..])]
      ensures !(old(dirty) && hasObject) ==> dirty == old(dirty) && gpuCalls == old(gpuCalls)
    {
      if dirty && hasObject {
        gpuCalls := gpuCalls + [BufferData(shadow[..])];
        dirty := false;
      }
    }

    /**
     * Release_OGL: delete the GL buffer, free the shadow and zero the size; with a GL
     * name but no graphics subsystem it returns at once.
     */
    method ReleaseOGL()
      requires Valid()
      modifies this`hasObject, this`shadow, this`size, this`gpuCalls
      ensures Valid()
      ensures old(hasObject) && !graphicsPresent ==>
        hasObject && size == old(size) && shadow == old(shadow) && gpuCalls == old(gpuCalls)
      ensures !(old(hasObject) && !graphicsPresent) ==>
        !hasObject && size == 0 && gpuCalls == old(gpuCalls) + (if old(hasObject) then [DeleteBuffer] else [])
    {
      if hasObject {
        if !graphicsPresent {
          return;
        }
        gpuCalls := gpuCalls + [DeleteBuffer];
        hasObject := false;
      }
      shadow := new byte[0];
      size := 0;
    }

    /**
     * SetSize_OGL: allocate a zero-filled shadow of the rounded size and upload it,
     * generating a GL name first if there is none; `genOk` is whether glGenBuffers yields one.
     */
    method SetSizeOGL(request: nat, genOk: bool) returns (ok: bool)
      requires Valid()
      modifies this`hasObject, this`shadow, this`size, this`dirty, this`gpuCalls
      ensures Valid()
      ensures ok <==> request != 0 && RoundUp16(request).Some?
      ensures !ok ==> (size == old(size) && shadow == old(shadow) && dirty == old(dirty)
                       && hasObject == old(hasObject) && gpuCalls == old(gpuCalls))
      ensures ok ==>
        && size == RoundUp16(request).value && fresh(shadow) && !dirty
        && (forall k :: 0 <= k < size ==> shadow[k] == 0)
        && hasObject == (old(hasObject) || (graphicsPresent && genOk))
        && gpuCalls == old(gpuCalls) + (if graphicsPresent then [BufferData(shadow[..])] else [])
    {
      if request == 0 {
        return false;
      }
      var rounded := RoundUp16(request);
      if rounded.None? {
        return false;
      }
      size := rounded.value;
      dirty := false;
      ZeroShadow(size);
      if graphicsPresent {
        if !hasObject && genOk {
          hasObject := true;
        }
        gpuCalls := gpuCalls + [BufferData(shadow[..])];
      }
      return true;
    }

    /** OnDeviceReset_OGL: recreate at the current size, which re-rounding leaves as it is. */
    method OnDeviceResetOGL(genOk: bool)
      requires Valid()
      modifies this`hasObject, this`shadow, this`size, this`dirty, this`gpuCalls
      ensures Valid() && size == old(size)
      ensures old(size) == 0 ==> shadow == old(shadow) && dirty == old(dirty) && gpuCalls == old(gpuCalls)
      ensures old(size) != 0 ==> !dirty && forall k :: 0 <= k < size ==> shadow[k] == 0
      ensures old(size) == 0 ==> hasObject == old(hasObject)
      ensures old(size) != 0 ==>
        && hasObject == (old(hasObject) || (graphicsPresent && genOk))
        && gpuCalls == old(gpuCalls) + (if graphicsPresent then [BufferData(shadow[..])] else [])
    {
      if size != 0 {
        RoundUp16Idempotent(size);
        var _ := SetSizeOGL(size, genOk);
      }
    }
  }
}
