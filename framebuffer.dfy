/** The CPU-side framebuffer of the renderer: a colour buffer of four bytes
    per pixel (red, green, blue, alpha) and a depth buffer of one float per
    pixel, together with the bitmap it is blitted into.  The operations are
    the free functions of the C++ namespace `framebuffer`; each takes the
    framebuffer by pointer, as the source does. */
module Framebuffer {

  /** An unsigned 8-bit colour channel (`uint8_t`). */
  newtype byte = b: int | 0 <= b < 256

  /** The framebuffer record.  Both buffers are nullable references, as the
      pointers of the C struct are; `depth` holds the `float` depth values,
      which the renderer only ever zero-fills. */
  class Framebuffer {
    var width: int
    var height: int
    var color: array?<byte>
    var depth: array?<real>

    /** The record as `calloc` hands it out: every field zero or null. */
    constructor ()
      ensures width == 0 && height == 0 && color == null && depth == null
    {
      width, height := 0, 0;
      color, depth := null, null;
    }

    /** A live framebuffer: both buffers exist and have exactly the sizes
        the dimensions call for. */
    ghost predicate Valid()
      reads this
    {
      && color != null && depth != null
      && 0 <= width && 0 <= height
      && color.Length == width * height * 4
      && depth.Length == width * height
    }

    /** The state `destroy` leaves behind. */
    ghost predicate Destroyed()
      reads this
    {
      width == 0 && height == 0 && color == null && depth == null
    }
  }

  /** The presentable surface the framebuffer is copied into; only its
      buffer is used by the blit. */
  class Bitmap {
    var width: int
    var height: int
    var buffer: array?<byte>
  }

  /** Every colour byte black. */
  function Cleared(s: seq<byte>): (r: seq<byte>)
    ensures |r| == |s|
    ensures forall i :: 0 <= i < |r| ==> r[i] == 0
  {
    seq(|s|, _ => 0)
  }

  /** Clearing depends on nothing but the buffer's length, so clearing a
      cleared buffer changes nothing: `clear` is idempotent. */
  lemma ClearedIdempotent(s: seq<byte>)
    ensures Cleared(Cleared(s)) == Cleared(s)
  {
  }

  /** `create`: a fresh record whose buffers are zero-allocated with
      `w*h*4` colour bytes and `w*h` depth values. */
  method Create(w: int, h: int) returns (fb: Framebuffer)
    requires 0 <= w && 0 <= h
    ensures fresh(fb) && fresh(fb.color) && fresh(fb.depth)
    ensures fb.Valid() && fb.width == w && fb.height == h
    ensures fb.color.Length == w * h * 4 && fb.depth.Length == w * h
    ensures forall i :: 0 <= i < fb.color.Length ==> fb.color[i] == 0
    ensures forall i :: 0 <= i < fb.depth.Length ==> fb.depth[i] == 0.0
  {
    fb := new Framebuffer();
    fb.width := w;
    fb.height := h;
    fb.color := new byte[w * h * 4](_ => 0);
    fb.depth := new real[w * h](_ => 0.0);
  }

  /** `destroy`: zero the dimensions and drop each buffer that is present.
      Freeing memory is not modelled; dropping the reference is. */
  method Destroy(fb: Framebuffer)
    modifies fb
    ensures fb.Destroyed()
  {
    fb.width := 0;
    fb.height := 0;
    if fb.color != null {
      fb.color := null;
    }
    if fb.depth != null {
      fb.depth := null;
    }
  }

  /** `clear`: zero every colour byte.  The depth buffer and the
      dimensions are left as they were. */
  method Clear(fb: Framebuffer)
    requires fb.Valid()
    modifies fb.color
    ensures fb.Valid()
    ensures fb.color[..] == Cleared(old(fb.color[..]))
    ensures forall i :: 0 <= i < fb.width * fb.height * 4 ==> fb.color[i] == 0
    ensures fb.depth[..] == old(fb.depth[..])
  {
    var size := fb.width * fb.height;
    for i := 0 to size * 4
      invariant forall k :: 0 <= k < i ==> fb.color[k] == 0
    {
      fb.color[i] := 0;
    }
  }

  /** `blit_rgb`: copy the `w*h*4` colour bytes verbatim into the bitmap.
      Bytes of the bitmap beyond that range and the framebuffer itself are
      left as they were (the framebuffer is passed `const`). */
  method BlitRgb(fb: Framebuffer, bitmap: Bitmap)
    requires fb.Valid()
    requires bitmap.buffer != null && fb.width * fb.height * 4 <= bitmap.buffer.Length
    modifies bitmap.buffer
    ensures bitmap.buffer[..fb.color.Length] == fb.color[..]
    ensures bitmap.buffer[fb.color.Length..] == old(bitmap.buffer[fb.color.Length..])
    ensures fb.color[..] == old(fb.color[..])
  {
    var size := fb.width * fb.height;
    for i := 0 to size * 4
      invariant forall k :: 0 <= k < i ==> bitmap.buffer[k] == fb.color[k]
      invariant forall k :: i <= k < bitmap.buffer.Length ==> bitmap.buffer[k] == old(bitmap.buffer[k])
      invariant fb.color[..] == old(fb.color[..])
    {
      bitmap.buffer[i] := fb.color[i];
    }
  }

  /** The build targets `blit` distinguishes by preprocessor switch. */
  datatype Target = Windows | Apple | OtherTarget

  /** The two copy routines `blit` can dispatch to. */
  datatype Routine = BlitBgr | BlitRgbRoutine

  /** Which routine `blit` calls on a target; on any target other than
      Windows and Apple it calls none. */
  function Dispatch(target: Target): (r: Option<Routine>)
    ensures r == None <==> target == OtherTarget
    ensures r == Some(BlitRgbRoutine) <==> target == Apple
  {
    match target
    case Windows => Some(BlitBgr)
    case Apple => Some(BlitRgbRoutine)
    case OtherTarget => None
  }

  datatype Option<T> = None | Some(value: T)

  /** `blit`: the routine `Dispatch(target)` names.  `blit_bgr` has no body
      in the repository, so on Windows only the choice is recorded. */
  method Blit(fb: Framebuffer, bitmap: Bitmap, target: Target) returns (chosen: Option<Routine>)
    requires fb.Valid()
    requires target == Apple ==> bitmap.buffer != null && fb.width * fb.height * 4 <= bitmap.buffer.Length
    modifies bitmap.buffer
    ensures chosen == Dispatch(target)
    ensures target == Apple ==> bitmap.buffer[..fb.color.Length] == fb.color[..]
    ensures target == Apple ==> bitmap.buffer[fb.color.Length..] == old(bitmap.buffer[fb.color.Length..])
    ensures target == OtherTarget && bitmap.buffer != null ==> bitmap.buffer[..] == old(bitmap.buffer[..])
    ensures fb.color[..] == old(fb.color[..])
  {
    chosen := Dispatch(target);
    match target {
      case Windows =>
        // blit_bgr is not part of this model.
      case Apple =>
        BlitRgb(fb, bitmap);
      case OtherTarget =>
    }
  }
}
