/**
 * The test-pattern camera lzx::DummyTestCamera (app/src/DummyTestCamera.cpp):
 * opened and streaming flags, the image geometry, and a test pattern that is
 * regenerated whenever the width or the height is set.
 */
module TestCamera {
  import opened Common

  /** std::vector::resize: keep the first bytes, zero-fill any new ones. */
  function Resized(bytes: seq<Byte>, n: nat): (r: seq<Byte>)
    ensures |r| == n
    ensures forall k :: 0 <= k < n && k < |bytes| ==> r[k] == bytes[k]
    ensures forall k :: |bytes| <= k < n ==> r[k] == 0
  {
    if n <= |bytes| then bytes[..n] else bytes + seq(n - |bytes|, _ => 0)
  }

  /** `memcpy(buffer, pattern, |pattern|)` into a caller buffer at least as long. */
  function CopyInto(buffer: seq<Byte>, pattern: seq<Byte>): (r: seq<Byte>)
    requires |pattern| <= |buffer|
    ensures |r| == |buffer|
    ensures r[..|pattern|] == pattern && r[|pattern|..] == buffer[|pattern|..]
  {
    pattern + buffer[|pattern|..]
  }

  class DummyTestCamera {
    var isOpened: bool
    var isStreaming: bool
    var width: int
    var height: int
    var channels: int
    var testPattern: seq<Byte>

    /** Streaming implies opened; the pattern has one byte per sample. */
    ghost predicate Valid()
      reads this
    {
      && (isStreaming ==> isOpened)
      && width >= 0 && height >= 0 && channels >= 0
      && |testPattern| == width * height * channels
    }

    /** Closed, not streaming, 640 x 480 with one channel. */
    constructor ()
      ensures Valid()
      ensures !isOpened && !isStreaming
      ensures width == 640 && height == 480 && channels == 1
      ensures |testPattern| == 640 * 480
    {
      isOpened, isStreaming := false, false;
      width, height, channels := 640, 480, 1;
      testPattern := [];
      new;
      GenerateTestPattern();
    }

    /** Size the pattern to the geometry (the gradient values are not modelled). */
    method GenerateTestPattern()
      requires width >= 0 && height >= 0 && channels >= 0
      modifies this`testPattern
      ensures |testPattern| == width * height * channels
      ensures (isStreaming ==> isOpened) ==> Valid()
    {
      testPattern := Resized(testPattern, width * height * channels);
    }

    /** Always succeeds; opening an opened camera changes nothing. */
    method Open() returns (ok: bool)
      requires Valid()
      modifies this`isOpened
      ensures Valid()
      ensures ok && isOpened
    {
      if isOpened {
        return true;
      }
      isOpened := true;
      return true;
    }

    /** Always succeeds; stops streaming first, then closes. */
    method Close() returns (ok: bool)
      requires Valid()
      modifies this`isOpened, this`isStreaming
      ensures Valid()
      ensures ok && !isOpened && !isStreaming
    {
      if !isOpened {
        return true;
      }
      if isStreaming {
        var _ := Stop();
      }
      isOpened := false;
      return true;
    }

    /** Fails and changes nothing unless opened; otherwise starts streaming. */
    method Start() returns (ok: bool)
      requires Valid()
      modifies this`isStreaming
      ensures Valid()
      ensures ok == isOpened
      ensures isStreaming == (old(isStreaming) || isOpened)
    {
      if !isOpened {
        return false;
      }
      isStreaming := true;
      return true;
    }

    /** Always succeeds and leaves the camera not streaming. */
    method Stop() returns (ok: bool)
      requires Valid()
      modifies this`isStreaming
      ensures Valid()
      ensures ok && !isStreaming
    {
      if !isStreaming {
        return true;
      }
      isStreaming := false;
      return true;
    }

    /** A snap succeeds exactly while streaming. */
    method Snap() returns (ok: bool)
      ensures ok <==> isStreaming
    {
      if !isStreaming {
        return false;
      }
      return true;
    }

    /** `getFrame`: `buffer` is the caller's buffer (None for nullptr) and
        `width0`, `height0`, `channels0` the values of its output variables.
        Without streaming or a buffer nothing is written; otherwise the
        geometry is reported and the pattern copied to the buffer's start,
        which must hold it. */
    method GetFrame(buffer: Option<seq<Byte>>, width0: int, height0: int, channels0: int)
      returns (ok: bool, filled: Option<seq<Byte>>, w: int, h: int, c: int)
      requires isStreaming && buffer.Some? ==> |testPattern| <= |buffer.value|
      ensures ok <==> isStreaming && buffer.Some?
      ensures !ok ==> filled == buffer && w == width0 && h == height0 && c == channels0
      ensures ok ==> w == width && h == height && c == channels
      ensures ok ==> filled.Some? && filled.value == CopyInto(buffer.value, testPattern)
    {
      if !isStreaming || buffer.None? {
        return false, buffer, width0, height0, channels0;
      }
      ok := true;
      w, h, c := width, height, channels;
      filled := Some(CopyInto(buffer.value, testPattern));
    }

    /** `set("width" | "height", value)`: update that dimension and
        regenerate the pattern; any other name fails and changes nothing.
        The model keeps the geometry non-negative; the source throws only
        when the computed pattern length is negative. */
    method Set(name: string, value: int) returns (ok: bool)
      requires Valid()
      requires name == "width" || name == "height" ==> value >= 0
      modifies this`width, this`height, this`testPattern
      ensures Valid()
      ensures ok <==> name == "width" || name == "height"
      ensures width == (if name == "width" then value else old(width))
      ensures height == (if name == "height" then value else old(height))
      ensures !ok ==> testPattern == old(testPattern)
    {
      if name == "width" {
        width := value;
        GenerateTestPattern();
        return true;
      } else if name == "height" {
        height := value;
        GenerateTestPattern();
        return true;
      }
      return false;
    }

    /** `get("width" | "height")`: report that dimension; any other name
        fails and leaves the caller's variable (`value0`) alone. */
    method Get(name: string, value0: int) returns (ok: bool, value: int)
      ensures ok <==> name == "width" || name == "height"
      ensures value == (if name == "width" then width
                        else if name == "height" then height
                        else value0)
    {
      if name == "width" {
        return true, width;
      } else if name == "height" {
        return true, height;
      }
      return false, value0;
    }
  }
}
