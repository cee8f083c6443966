/** The image-replacement compositor (drawReplaceBgImage): every pixel whose
    mask entry is not 1 takes the four RGBA bytes of the background buffer;
    pixels whose mask entry is 1 keep the camera frame's bytes. Buffers hold
    four bytes (R, G, B, A) per pixel, so pixel p occupies bytes 4p .. 4p+3. */
module Compositor {

  /** One element of an RGBA pixel buffer (a Uint8ClampedArray). */
  newtype byte = x: int | 0 <= x < 256

  /** The segmentation value that marks a person pixel; the test is exact
      equality, so every other value counts as background. */
  const PERSON: int := 1

  /** The composited frame, built pixel by pixel: for each mask entry, the
      four bytes of the frame pixel if it is a person, else the four bytes of
      the background pixel. */
  function Replaced(frame: seq<byte>, bg: seq<byte>, mask: seq<int>): (r: seq<byte>)
    requires |frame| == 4 * |mask| && |bg| == |frame|
    ensures |r| == |frame|
    decreases |mask|
  {
    if mask == [] then []
    else
      (if mask[0] == PERSON then frame[..4] else bg[..4])
      + Replaced(frame[4..], bg[4..], mask[1..])
  }

  /** Pixel p of the result: the frame's four bytes when mask[p] is exactly
      PERSON, the background's four bytes (alpha included) otherwise. */
  lemma {:induction false} ReplacedPixel(frame: seq<byte>, bg: seq<byte>, mask: seq<int>, p: int)
    requires |frame| == 4 * |mask| && |bg| == |frame|
    requires 0 <= p < |mask|
    ensures Replaced(frame, bg, mask)[4 * p .. 4 * p + 4]
         == if mask[p] == PERSON then frame[4 * p .. 4 * p + 4] else bg[4 * p .. 4 * p + 4]
  {
    var head := if mask[0] == PERSON then frame[..4] else bg[..4];
    var tail := Replaced(frame[4..], bg[4..], mask[1..]);
    assert Replaced(frame, bg, mask) == head + tail;
    if p == 0 {
      assert (head + tail)[..4] == head;
    } else {
      ReplacedPixel(frame[4..], bg[4..], mask[1..], p - 1);
      assert (head + tail)[4 * p .. 4 * p + 4] == tail[4 * (p - 1) .. 4 * (p - 1) + 4];
      assert frame[4..][4 * (p - 1) .. 4 * (p - 1) + 4] == frame[4 * p .. 4 * p + 4];
      assert bg[4..][4 * (p - 1) .. 4 * (p - 1) + 4] == bg[4 * p .. 4 * p + 4];
    }
  }

  /** Byte i of the result belongs to pixel i / 4 and is taken from the frame
      or from the background according to that pixel's mask entry. */
  lemma ReplacedAt(frame: seq<byte>, bg: seq<byte>, mask: seq<int>, i: int)
    requires |frame| == 4 * |mask| && |bg| == |frame|
    requires 0 <= i < |frame|
    ensures Replaced(frame, bg, mask)[i] == if mask[i / 4] == PERSON then frame[i] else bg[i]
  {
    var r := Replaced(frame, bg, mask);
    var p, k := i / 4, i % 4;
    assert 4 * p + k == i && 0 <= k < 4;
    ReplacedPixel(frame, bg, mask, p);
    assert r[i] == r[4 * p .. 4 * p + 4][k];
    assert frame[i] == frame[4 * p .. 4 * p + 4][k];
    assert bg[i] == bg[4 * p .. 4 * p + 4][k];
  }

  /** Replacing twice with the same mask and background gives the same frame
      as replacing once. */
  lemma {:induction false} ReplacedIdempotent(frame: seq<byte>, bg: seq<byte>, mask: seq<int>)
    requires |frame| == 4 * |mask| && |bg| == |frame|
    ensures Replaced(Replaced(frame, bg, mask), bg, mask) == Replaced(frame, bg, mask)
  {
    var once := Replaced(frame, bg, mask);
    var twice := Replaced(once, bg, mask);
    forall i | 0 <= i < |frame|
      ensures twice[i] == once[i]
    {
      ReplacedAt(frame, bg, mask, i);
      ReplacedAt(once, bg, mask, i);
    }
  }

  /** A mask that marks every pixel as a person leaves the frame as it is. */
  lemma {:induction false} ReplacedAllPerson(frame: seq<byte>, bg: seq<byte>, mask: seq<int>)
    requires |frame| == 4 * |mask| && |bg| == |frame|
    requires forall p :: 0 <= p < |mask| ==> mask[p] == PERSON
    ensures Replaced(frame, bg, mask) == frame
  {
    forall i | 0 <= i < |frame|
      ensures Replaced(frame, bg, mask)[i] == frame[i]
    {
      ReplacedAt(frame, bg, mask, i);
    }
  }

  /** A mask with no person pixel, whatever values it holds instead of 1,
      yields exactly the background buffer. */
  lemma {:induction false} ReplacedNoPerson(frame: seq<byte>, bg: seq<byte>, mask: seq<int>)
    requires |frame| == 4 * |mask| && |bg| == |frame|
    requires forall p :: 0 <= p < |mask| ==> mask[p] != PERSON
    ensures Replaced(frame, bg, mask) == bg
  {
    forall i | 0 <= i < |frame|
      ensures Replaced(frame, bg, mask)[i] == bg[i]
    {
      ReplacedAt(frame, bg, mask, i);
    }
  }

  /** a <= b scales to a * c <= b * c. */
  lemma MulMonotone(a: nat, b: nat, c: nat)
    requires a <= b
    ensures a * c <= b * c
  {
  }

  /** For a pixel (x, y) of a width x height image, the mask index
      y * width + x and the byte offsets base .. base + 3 with
      base = (y * width + x) * 4 all lie inside their buffers. */
  lemma PixelIndexInBounds(width: nat, height: nat, x: int, y: int)
    requires 0 <= x < width && 0 <= y < height
    ensures 0 <= y * width + x < width * height
    ensures 0 <= (y * width + x) * 4 && (y * width + x) * 4 + 3 < 4 * (width * height)
  {
    MulMonotone(y + 1, height, width);
    assert (y + 1) * width == y * width + width;
    assert height * width == width * height;
  }

  /** The first n pixels of f are composited from before and bg, and the
      rest of f is still before. */
  ghost predicate Composited(f: seq<byte>, before: seq<byte>, bg: seq<byte>, mask: seq<int>, n: int)
    requires |f| == |before| == |bg| == 4 * |mask|
  {
    && (forall i :: 0 <= i < 4 * n && i < |f| ==>
          f[i] == if mask[i / 4] == PERSON then before[i] else bg[i])
    && (forall i :: 0 <= i < |f| && 4 * n <= i ==> f[i] == before[i])
  }

  /** Handling pixel n (copying its four bytes from bg unless it is a
      person) extends the composited prefix by one pixel. */
  lemma CompositedStep(f: seq<byte>, f': seq<byte>, before: seq<byte>, bg: seq<byte>, mask: seq<int>, n: int)
    requires |f| == |f'| == |before| == |bg| == 4 * |mask|
    requires 0 <= n < |mask| && Composited(f, before, bg, mask, n)
    requires forall i :: 0 <= i < |f| && (i < 4 * n || 4 * n + 4 <= i) ==> f'[i] == f[i]
    requires forall i :: 4 * n <= i < 4 * n + 4 ==>
               f'[i] == if mask[n] == PERSON then f[i] else bg[i]
    ensures Composited(f', before, bg, mask, n + 1)
  {
  }

  /** Once every pixel is composited, the buffer is the replaced frame: each
      pixel holds the background's bytes unless its mask entry is 1, in which
      case it holds its original bytes. */
  lemma CompositedAll(f: seq<byte>, before: seq<byte>, bg: seq<byte>, mask: seq<int>)
    requires |f| == |before| == |bg| == 4 * |mask|
    requires Composited(f, before, bg, mask, |mask|)
    ensures f == Replaced(before, bg, mask)
    ensures forall p :: 0 <= p < |mask| && mask[p] != PERSON ==> f[4 * p .. 4 * p + 4] == bg[4 * p .. 4 * p + 4]
    ensures forall p :: 0 <= p < |mask| && mask[p] == PERSON ==> f[4 * p .. 4 * p + 4] == before[4 * p .. 4 * p + 4]
  {
    forall i | 0 <= i < |f|
      ensures f[i] == Replaced(before, bg, mask)[i]
    {
      ReplacedAt(before, bg, mask, i);
    }
    forall p | 0 <= p < |mask|
      ensures f[4 * p .. 4 * p + 4] == if mask[p] == PERSON then before[4 * p .. 4 * p + 4] else bg[4 * p .. 4 * p + 4]
    {
      ReplacedPixel(before, bg, mask, p);
    }
  }

  /** drawReplaceBgImage's pixel loop: walks the width x height mask in
      row-major order and, for each pixel whose mask entry is not 1,
      copies its four bytes from bg into frame. The frame and background are
      two distinct image-data buffers. */
  method DrawReplaceBgImage(frame: array<byte>, bg: array<byte>, mask: array<int>, width: nat, height: nat)
    requires mask.Length == width * height
    requires frame.Length == 4 * mask.Length && bg.Length == frame.Length
    requires frame != bg
    modifies frame
    ensures frame[..] == Replaced(old(frame[..]), bg[..], mask[..])
    ensures forall p :: 0 <= p < mask.Length && mask[p] != PERSON ==>
              frame[4 * p .. 4 * p + 4] == bg[4 * p .. 4 * p + 4]
    ensures forall p :: 0 <= p < mask.Length && mask[p] == PERSON ==>
              frame[4 * p .. 4 * p + 4] == old(frame[4 * p .. 4 * p + 4])
  {
    var y := 0;
    ghost var n := 0;
    while y < height
      invariant 0 <= y <= height
      invariant n == y * width && n <= mask.Length
      invariant Composited(frame[..], old(frame[..]), bg[..], mask[..], n)
    {
      var x := 0;
      while x < width
        invariant 0 <= x <= width
        invariant n == y * width + x && n <= mask.Length
        invariant Composited(frame[..], old(frame[..]), bg[..], mask[..], n)
      {
        PixelIndexInBounds(width, height, x, y);
        var base := (y * width + x) * 4;
        var segbase := y * width + x;
        ghost var previous := frame[..];
        if mask[segbase] != PERSON {
          frame[base + 0] := bg[base + 0];
          frame[base + 1] := bg[base + 1];
          frame[base + 2] := bg[base + 2];
          frame[base + 3] := bg[base + 3];
        }
        CompositedStep(previous, frame[..], old(frame[..]), bg[..], mask[..], n);
        x, n := x + 1, n + 1;
      }
      y := y + 1;
    }
    CompositedAll(frame[..], old(frame[..]), bg[..], mask[..]);
  }
}
