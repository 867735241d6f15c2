/**
 * The OpenGL index buffer: its lock state machine and the writes into its CPU-side
 * shadow copy. GL calls are recorded as uninterpreted entries of a call trace; binding the
 * buffer to the graphics subsystem before an upload is not recorded.
 */
module IndexBufferOGL {
  import opened Bytes
  import opened Str

  /** LOCK_NONE, LOCK_HARDWARE, LOCK_SHADOW, LOCK_SCRATCH. */
  datatype LockState = LockNone | LockHardware | LockShadow | LockScratch

  /** The GL calls the buffer issues, as uninterpreted effects. */
  datatype GpuCall =
    | BufferData(size: nat, contents: Option<seq<byte>>, dynamic: bool)
    | BufferSubData(offset: nat, bytes: seq<byte>)
    | DeleteBuffer

  /** The pointer Lock hands out: null, the shadow copy at a byte offset, or a scratch buffer. */
  datatype LockPtr = Null | ShadowAt(offset: nat) | ScratchAt(buffer: array<byte>)

  /** The byte range of `count` indices from `start` lies inside `total` indices. */
  lemma RangeFits(start: nat, count: nat, total: nat, size: nat)
    requires start + count <= total
    ensures start * size + count * size == (start + count) * size
    ensures (start + count) * size <= total * size
  {
    assert (start + count) * size == start * size + count * size;
    assert total * size == (start + count) * size + (total - start - count) * size;
  }

  class IndexBuffer {
    /** Whether a graphics subsystem exists. */
    const graphicsPresent: bool
    /** The CPU-side copy of the indices, or null without shadowing. */
    const shadow: array?<byte>
    const indexCount: nat
    /** Bytes per index: 0 until a size is defined, then 2 or 4. */
    const indexSize: nat
    const dynamic: bool
    /** What Graphics::IsDeviceLost reports. */
    var deviceLost: bool
    /** Whether the GL object name is non-zero. */
    var hasObject: bool
    var dataLost: bool
    var dataPending: bool
    var lockState: LockState
    var lockStart: nat
    var lockCount: nat
    var discardLock: bool
    /** The reserved scratch buffer of a scratch lock, or null. */
    var scratch: array?<byte>
    /** The GL calls issued so far. */
    var gpuCalls: seq<GpuCall>

    predicate Valid()
      reads this
    {
      && (shadow != null ==> shadow.Length == indexCount * indexSize)
      && lockState != LockHardware
      && (lockState != LockNone ==> indexSize != 0 && 0 < lockCount && lockStart + lockCount <= indexCount)
      && (lockState == LockShadow ==> shadow != null)
      && (scratch != null <==> lockState == LockScratch)
      && (lockState == LockScratch ==> shadow == null && scratch.Length == lockCount * indexSize)
    }

    constructor (graphics: bool, shadowed: bool, count: nat, size: nat, isDynamic: bool)
      ensures Valid() && (shadow != null ==> fresh(shadow))
      ensures graphicsPresent == graphics && indexCount == count && indexSize == size && dynamic == isDynamic
      ensures (shadow != null) == shadowed && !hasObject && lockState == LockNone
      ensures !dataLost && !dataPending && gpuCalls == []
    {
      graphicsPresent := graphics;
      if shadowed {
        shadow := new byte[count * size];
      } else {
        shadow := null;
      }
      indexCount := count;
      indexSize := size;
      dynamic := isDynamic;
      deviceLost := false;
      hasObject := false;
      dataLost := false;
      dataPending := false;
      lockState := LockNone;
      lockStart := 0;
      lockCount := 0;
      discardLock := false;
      scratch := null;
      gpuCalls := [];
    }

    /** The call list of an upload: empty without a GL object or while the device is lost. */
    function Upload(c: GpuCall): (r: seq<GpuCall>)
      reads this`hasObject, this`deviceLost
      ensures r == [] || r == [c]
      ensures |r| == 1 <==> hasObject && !deviceLost
    {
      if hasObject && !deviceLost then [c] else []
    }

    /** The GL call a range write of `count` indices from `start` issues. */
    function RangeCall(d: seq<byte>, start: nat, count: nat, discard: bool): (r: GpuCall)
      ensures r.BufferSubData? <==> !(start == 0 && count == indexCount) && (!discard || start != 0)
      ensures r.BufferSubData? ==> r.offset == start * indexSize && r.bytes == d
      ensures r.BufferData? ==> r.contents == Some(d) && r.dynamic == dynamic
      ensures r.BufferData? ==> r.size == if start == 0 && count == indexCount then indexCount * indexSize else count * indexSize
    {
      if start == 0 && count == indexCount then BufferData(indexCount * indexSize, Some(d), dynamic)
      else if !discard || start != 0 then BufferSubData(start * indexSize, d)
      else BufferData(count * indexSize, Some(d), dynamic)
    }

    /** The bytes a lock exposes: the locked shadow range or the scratch buffer. */
    function LockedData(): (r: seq<byte>)
      requires Valid()
      reads this, shadow, scratch
      ensures lockState != LockNone ==> |r| == lockCount * indexSize
    {
      if lockState == LockShadow then
        RangeFits(lockStart, lockCount, indexCount, indexSize);
        shadow[lockStart * indexSize..(lockStart + lockCount) * indexSize]
      else if lockState == LockScratch then scratch[..]
      else []
    }

    /** The flags, the call trace and the shadow bytes are as they were. */
    twostate predicate Kept()
      reads this`dataLost, this`dataPending, this`gpuCalls, this`hasObject, this`deviceLost, shadow
    {
      && dataLost == old(dataLost) && dataPending == old(dataPending) && gpuCalls == old(gpuCalls)
      && (shadow != null ==> shadow[..] == old(shadow[..]))
    }

    /** The effect of SetData: whether it succeeds, and what it copies, flags and uploads. */
    twostate predicate WholeWritten(data: Option<seq<byte>>, ok: bool)
      reads this`dataLost, this`dataPending, this`gpuCalls, this`hasObject, this`deviceLost, shadow
    {
      && (ok <==> data.Some? && indexSize != 0)
      && (!ok ==> Kept())
      && (ok ==>
            && !dataLost
            && (shadow != null ==> shadow[..] == data.value)
            && dataPending == (old(dataPending) || (hasObject && deviceLost))
            && gpuCalls == old(gpuCalls) + Upload(BufferData(indexCount * indexSize, data, dynamic)))
    }

    /** The effect of SetDataRange; a range covering the whole buffer is a SetData. */
    twostate predicate RangeWritten(data: Option<seq<byte>>, start: nat, count: nat, discard: bool, ok: bool)
      reads this`dataLost, this`dataPending, this`gpuCalls, this`hasObject, this`deviceLost, shadow
    {
      if start == 0 && count == indexCount then WholeWritten(data, ok)
      else
        && (ok <==> data.Some? && indexSize != 0 && start + count <= indexCount)
        && (if ok && count > 0 then
              && (shadow != null ==> shadow[..] == Overwrite(old(shadow[..]), start * indexSize, data.value))
              && dataLost == old(dataLost)
              && dataPending == (old(dataPending) || (hasObject && deviceLost))
              && gpuCalls == old(gpuCalls) + Upload(RangeCall(data.value, start, count, discard))
            else Kept())
    }

    /** SetData_OGL: replace the whole buffer contents. */
    method SetData(data: Option<seq<byte>>) returns (ok: bool)
      requires Valid()
      requires data.Some? ==> |data.value| == indexCount * indexSize
      modifies shadow, this`dataLost, this`dataPending, this`gpuCalls
      ensures Valid() && WholeWritten(data, ok)
    {
      if data.None? || indexSize == 0 {
        return false;
      }
      if shadow != null && data.value != shadow[..] {
        CopyInto(shadow, 0, data.value);
        OverwriteWhole(old(shadow[..]), data.value);
      }
      if hasObject {
        if !deviceLost {
          gpuCalls := gpuCalls + [BufferData(indexCount * indexSize, data, dynamic)];
        } else {
          dataPending := true;
        }
      }
      dataLost := false;
      return true;
    }

    /** SetDataRange_OGL: replace `count` indices from `start`. */
    method SetDataRange(data: Option<seq<byte>>, start: nat, count: nat, discard: bool) returns (ok: bool)
      requires Valid()
      requires data.Some? ==> |data.value| == count * indexSize
      modifies shadow, this`dataLost, this`dataPending, this`gpuCalls
      ensures Valid() && RangeWritten(data, start, count, discard, ok)
    {
      if start == 0 && count == indexCount {
        ok := SetData(data);
        return;
      }
      if data.None? || indexSize == 0 || start + count > indexCount {
        return false;
      }
      if count == 0 {
        return true;
      }
      RangeFits(start, count, indexCount, indexSize);
      if shadow != null {
        CopyInto(shadow, start * indexSize, data.value);
      }
      if hasObject {
        if !deviceLost {
          var call := if !discard || start != 0 then BufferSubData(start * indexSize, data.value)
                      else BufferData(count * indexSize, data, dynamic);
          gpuCalls := gpuCalls + [call];
        } else {
          dataPending := true;
        }
      }
      return true;
    }

    /** Whether Lock refuses the range without entering a lock state. */
    predicate LockRefused(start: nat, count: nat)
      reads this
    {
      lockState != LockNone || indexSize == 0 || start + count > indexCount || count == 0
    }

    /** Lock_OGL: expose `count` indices from `start` for writing. */
    method Lock(start: nat, count: nat, discard: bool) returns (p: LockPtr)
      requires Valid()
      modifies this`lockState, this`lockStart, this`lockCount, this`discardLock, this`scratch
      ensures Valid()
      ensures old(LockRefused(start, count)) ==> p == Null && unchanged(this)
      ensures !old(LockRefused(start, count)) ==> lockStart == start && lockCount == count && discardLock == discard
      ensures !old(LockRefused(start, count)) && shadow != null ==>
        lockState == LockShadow && p == ShadowAt(start * indexSize) && scratch == null
      ensures !old(LockRefused(start, count)) && shadow == null && graphicsPresent ==>
        lockState == LockScratch && p == ScratchAt(scratch) && fresh(scratch) && scratch.Length == count * indexSize
      ensures !old(LockRefused(start, count)) && shadow == null && !graphicsPresent ==>
        lockState == LockNone && p == Null && scratch == null
    {
      if LockRefused(start, count) {
        return Null;
      }
      lockStart := start;
      lockCount := count;
      discardLock := discard;
      if shadow != null {
        lockState := LockShadow;
        return ShadowAt(start * indexSize);
      } else if graphicsPresent {
        lockState := LockScratch;
        scratch := new byte[count * indexSize];
        return ScratchAt(scratch);
      } else {
        return Null;
      }
    }

    /** Unlock_OGL: write the locked bytes back as a range write and leave the lock. */
    method Unlock()
      requires Valid()
      modifies shadow, this`dataLost, this`dataPending, this`gpuCalls, this`lockState, this`scratch
      ensures Valid() && lockState == LockNone && scratch == null
      ensures shadow != null ==> shadow[..] == old(shadow[..])
      ensures old(lockState) == LockNone ==> Kept()
      ensures old(lockState) != LockNone ==> RangeWritten(Some(old(LockedData())), lockStart, lockCount, discardLock, true)
    {
      match lockState {
        case LockShadow => UnlockShadow();
        case LockScratch => UnlockScratch();
        case _ =>
      }
    }

    /** Unlock of a lock on the shadow copy: the locked range of the shadow is written back onto itself. */
    method UnlockShadow()
      requires Valid() && lockState == LockShadow
      modifies shadow, this`dataLost, this`dataPending, this`gpuCalls, this`lockState, this`scratch
      ensures Valid() && lockState == LockNone && scratch == null
      ensures shadow != null ==> shadow[..] == old(shadow[..])
      ensures RangeWritten(Some(old(LockedData())), lockStart, lockCount, discardLock, true)
    {
      RangeFits(lockStart, lockCount, indexCount, indexSize);
      var lo := lockStart * indexSize;
      var len := lockCount * indexSize;
      var d := shadow[lo..lo + len];
      assert d == LockedData();
      OverwriteSelf(shadow[..], lo, len);
      if lockStart == 0 && lockCount == indexCount {
        assert lo == 0 && len == shadow.Length;
        assert d == shadow[..];
      }
      lockState := LockNone;
      var _ := SetDataRange(Some(d), lockStart, lockCount, discardLock);
    }

    /** Unlock of a lock on a scratch buffer: the scratch bytes are written as the range, and the scratch freed. */
    method UnlockScratch()
      requires Valid() && lockState == LockScratch
      modifies shadow, this`dataLost, this`dataPending, this`gpuCalls, this`lockState, this`scratch
      ensures Valid() && lockState == LockNone && scratch == null
      ensures RangeWritten(Some(old(LockedData())), lockStart, lockCount, discardLock, true)
    {
      var _ := SetDataRange(Some(scratch[..]), lockStart, lockCount, discardLock);
      scratch := null;
      lockState := LockNone;
    }

    /** The calls Unlock issues in the current lock state. */
    function UnlockCalls(): (r: seq<GpuCall>)
      requires Valid()
      reads this, shadow, scratch
      ensures lockState == LockNone ==> r == []
      ensures |r| <= 1
    {
      if lockState == LockNone then [] else Upload(RangeCall(LockedData(), lockStart, lockCount, discardLock))
    }

    /** Release_OGL: unlock, then delete the GL object unless the graphics subsystem is gone. */
    method Release()
      requires Valid()
      modifies shadow, this`dataLost, this`dataPending, this`gpuCalls, this`lockState, this`scratch, this`hasObject
      ensures Valid() && lockState == LockNone && scratch == null
      ensures hasObject == (old(hasObject) && !graphicsPresent)
      ensures shadow != null ==> shadow[..] == old(shadow[..])
      ensures dataLost == (old(dataLost) && !(old(lockState) != LockNone && lockStart == 0 && lockCount == indexCount))
      ensures dataPending == (old(dataPending) || (old(lockState) != LockNone && old(hasObject) && deviceLost))
      ensures gpuCalls == old(gpuCalls) + old(UnlockCalls())
        + (if old(hasObject) && graphicsPresent && !deviceLost then [DeleteBuffer] else [])
    {
      Unlock();
      if hasObject {
        if !graphicsPresent {
          return;
        }
        if !deviceLost {
          gpuCalls := gpuCalls + [DeleteBuffer];
        }
        hasObject := false;
      }
    }

    /** Create_OGL: `genOk` says whether glGenBuffers yields a name. */
    method Create(genOk: bool) returns (ok: bool)
      requires Valid()
      modifies shadow, this`dataLost, this`dataPending, this`gpuCalls, this`lockState, this`scratch, this`hasObject
      ensures Valid()
      ensures ok <==> !(indexCount != 0 && graphicsPresent && !deviceLost && !old(hasObject) && !genOk)
      ensures lockState == old(lockState) && scratch == old(scratch)
      ensures dataLost == old(dataLost) && dataPending == old(dataPending)
      ensures shadow != null ==> shadow[..] == old(shadow[..])
      ensures indexCount == 0 ==>
        && hasObject == (old(hasObject) && !graphicsPresent)
        && gpuCalls == old(gpuCalls) + (if old(hasObject) && graphicsPresent && !deviceLost then [DeleteBuffer] else [])
      ensures indexCount != 0 && !(graphicsPresent && !deviceLost) ==> gpuCalls == old(gpuCalls)
      ensures indexCount != 0 && !(graphicsPresent && !deviceLost) ==> hasObject == old(hasObject)
      ensures indexCount != 0 && graphicsPresent && !deviceLost ==>
        hasObject == (old(hasObject) || genOk)
        && gpuCalls == old(gpuCalls) + (if hasObject then [BufferData(indexCount * indexSize, None, dynamic)] else [])
    {
      if indexCount == 0 {
        Release();
        return true;
      }
      if graphicsPresent {
        if deviceLost {
          return true;
        }
        if !hasObject && genOk {
          hasObject := true;
        }
        if !hasObject {
          return false;
        }
        gpuCalls := gpuCalls + [BufferData(indexCount * indexSize, None, dynamic)];
      }
      return true;
    }

    /** UpdateToGPU_OGL: upload the whole shadow when there is an object and a shadow. */
    method UpdateToGPU() returns (ok: bool)
      requires Valid()
      modifies shadow, this`dataLost, this`dataPending, this`gpuCalls
      ensures Valid()
      ensures ok <==> hasObject && shadow != null && indexSize != 0
      ensures shadow != null ==> shadow[..] == old(shadow[..])
      ensures !(hasObject && shadow != null) ==> Kept()
      ensures hasObject && shadow != null ==> WholeWritten(Some(old(shadow[..])), ok)
    {
      if hasObject && shadow != null {
        ok := SetData(Some(shadow[..]));
      } else {
        ok := false;
      }
    }

    /** The upload of the whole shadow UpdateToGPU issues once there is a GL object. */
    function ShadowUpload(): (r: seq<GpuCall>)
      reads this`hasObject, this`deviceLost, shadow
      ensures |r| <= 1
      ensures r != [] <==> shadow != null && indexSize != 0 && hasObject && !deviceLost
      ensures r != [] ==> shadow != null && r == [BufferData(indexCount * indexSize, Some(shadow[..]), dynamic)]
    {
      if shadow != null && indexSize != 0 then Upload(BufferData(indexCount * indexSize, Some(shadow[..]), dynamic)) else []
    }

    /** OnDeviceReset_OGL: recreate a missing object, re-upload lost or pending data, clear the pending flag. */
    method OnDeviceReset(genOk: bool)
      requires Valid()
      modifies shadow, this`dataLost, this`dataPending, this`gpuCalls, this`lockState, this`scratch, this`hasObject
      ensures Valid() && !dataPending
      ensures shadow != null ==> shadow[..] == old(shadow[..])
      ensures !old(hasObject) || old(dataPending) ==> dataLost == !(hasObject && shadow != null && indexSize != 0)
      ensures old(hasObject) && !old(dataPending) ==>
        dataLost == old(dataLost) && gpuCalls == old(gpuCalls) && hasObject && lockState == old(lockState)
      ensures old(hasObject) ==> hasObject
      ensures !old(hasObject) ==>
        hasObject == (indexCount != 0 && graphicsPresent && !deviceLost && genOk)
      ensures lockState == old(lockState) && scratch == old(scratch)
      ensures !old(hasObject) ==>
        gpuCalls == old(gpuCalls) + (if hasObject then [BufferData(indexCount * indexSize, None, dynamic)] + ShadowUpload() else [])
      ensures old(hasObject) && old(dataPending) ==> gpuCalls == old(gpuCalls) + ShadowUpload()
    {
      if !hasObject {
        var _ := Create(genOk);
        var up := UpdateToGPU();
        dataLost := !up;
      } else if dataPending {
        var up := UpdateToGPU();
        dataLost := !up;
      }
      dataPending := false;
    }
  }
}
