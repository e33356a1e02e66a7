/**
 * `BasePixelBuffer` of drivers/vga/src/pixel_buffer.rs: a frame buffer of
 * bytes in one of three pixel formats, written one pixel at a time by
 * blending the new colour over the old one.
 */
module PixelBuffer {
  import opened Div255
  import opened Digits

  /** `VGAColor<u8>`. */
  datatype Color = Color(red: Byte, green: Byte, blue: Byte, alpha: Byte)

  /** One `put_pixel(index, color)` call. */
  datatype Dot = Dot(index: nat, color: Color)

  /** `PixelFormat`: the order of the colour bytes in a pixel's slot. */
  datatype PixelFormat = RGB | BGR | U8

  /** `prev * (255 - a) + gray * a` of three bytes is at most `255 * 255`, so it fits `div_255_fast`. */
  lemma BlendBound(prev: Byte, gray: Byte, a: Byte)
    ensures 0 <= prev * (255 - a) + gray * a <= 255 * 255
  {
    MulNonnegative(prev, 255 - a);
    MulNonnegative(gray, a);
    MulMonotone(prev, 255, 255 - a);
    MulMonotone(gray, 255, a);
  }

  /** The grey a `U8` pixel gets: `div_255_fast(prev * (255 - a) + gray * a)`. */
  function BlendGray(prev: Byte, gray: Byte, a: Byte): Byte {
    Div255Fast(Blend(prev, gray, a))
  }

  /** `prev * (255 - a) + gray * a`: a `u16` that fits `div_255_fast`. */
  function Blend(prev: Byte, gray: Byte, a: Byte): (x: nat)
    ensures x <= 255 * 255
  {
    BlendBound(prev, gray, a);
    prev * (255 - a) + gray * a
  }

  /** Transparent keeps the old grey, opaque stores the colour's grey, and the result lies between the two. */
  lemma BlendGrayEnds(prev: Byte, gray: Byte, a: Byte)
    ensures a == 0 ==> BlendGray(prev, gray, a) == prev
    ensures a == 255 ==> BlendGray(prev, gray, a) == gray
    ensures Min(prev, gray) <= BlendGray(prev, gray, a) <= Max(prev, gray)
  {
    var x := Blend(prev, gray, a);
    var lo, hi := Min(prev, gray), Max(prev, gray);
    MulMonotone(lo, prev, 255 - a);
    MulMonotone(lo, gray, a);
    MulMonotone(prev, hi, 255 - a);
    MulMonotone(gray, hi, a);
    assert lo * (255 - a) + lo * a == lo * 255;
    assert hi * (255 - a) + hi * a == hi * 255;
    assert lo * 255 <= x <= hi * 255;
    if a == 0 {
      DivModUnique(x, 255, prev, 0);
    } else if a == 255 {
      DivModUnique(x, 255, gray, 0);
    }
  }


  class PixelBuffer {
    const format: PixelFormat
    const bytesPerPixel: nat
    /** `frame_pointer`. */
    const frame: array<Byte>
    /** `VGAColor::interpolate(frame, color, alpha)`, defined outside this model. */
    const interpolate: (Color, Color, Byte) -> Color
    /** `VGAColor::to_grayscale`, defined outside this model. */
    const grayscale: Color -> Byte

    constructor (format: PixelFormat, bytesPerPixel: nat, frame: array<Byte>,
                 interpolate: (Color, Color, Byte) -> Color, grayscale: Color -> Byte)
      ensures this.format == format && this.bytesPerPixel == bytesPerPixel && this.frame == frame
      ensures this.interpolate == interpolate && this.grayscale == grayscale
    {
      this.format := format;
      this.bytesPerPixel := bytesPerPixel;
      this.frame := frame;
      this.interpolate := interpolate;
      this.grayscale := grayscale;
    }

    /** The offset of the last byte `put_pixel` touches in a slot: the alpha byte is used only with more than three bytes per pixel. */
    function LastOffset(): nat {
      match format
      case RGB | BGR => if bytesPerPixel > 3 then 3 else 2
      case U8 => 0
    }

    /** `put_pixel(index, _)` does not panic on a buffer of `len` bytes. */
    predicate Fits(len: nat, index: nat) {
      index * bytesPerPixel + LastOffset() < len
    }

    /** The bytes after `put_pixel(index, color)`. */
    function Put(b: seq<Byte>, index: nat, color: Color): (r: seq<Byte>)
      requires Fits(|b|, index)
      ensures |r| == |b|
      ensures forall j :: 0 <= j < |b| && !(index * bytesPerPixel <= j <= index * bytesPerPixel + LastOffset()) ==> r[j] == b[j]
    {
      var o := index * bytesPerPixel;
      match format
      case RGB =>
        var seen := Color(b[o], b[o + 1], b[o + 2], if bytesPerPixel > 3 then b[o + 3] else 255);
        var c := interpolate(seen, color, color.alpha);
        var r := b[o := c.red][o + 1 := c.green][o + 2 := c.blue];
        if bytesPerPixel > 3 then r[o + 3 := c.alpha] else r
      case BGR =>
        var seen := Color(b[o + 2], b[o + 1], b[o], if bytesPerPixel > 3 then b[o + 3] else 255);
        var c := interpolate(seen, color, color.alpha);
        var r := b[o + 2 := c.red][o + 1 := c.green][o := c.blue];
        if bytesPerPixel > 3 then r[o + 3 := c.alpha] else r
      case U8 =>
        b[o := BlendGray(b[o], grayscale(color), color.alpha)]
    }

    /** The colour `put_pixel` reads from the slot before blending; alpha 255 without an alpha byte. */
    function Seen(b: seq<Byte>, index: nat): (c: Color)
      requires format != U8 && Fits(|b|, index)
      ensures bytesPerPixel <= 3 ==> c.alpha == 255
    {
      var o := index * bytesPerPixel;
      var alpha := if bytesPerPixel > 3 then b[o + 3] else 255;
      if format == RGB then Color(b[o], b[o + 1], b[o + 2], alpha)
      else Color(b[o + 2], b[o + 1], b[o], alpha)
    }

    /** `put_pixel`. */
    method PutPixel(index: nat, color: Color)
      requires Fits(frame.Length, index)
      modifies frame
      ensures frame[..] == Put(old(frame[..]), index, color)
    {
      var o := index * bytesPerPixel;
      match format {
        case RGB =>
          var seen := Color(frame[o], frame[o + 1], frame[o + 2], if bytesPerPixel > 3 then frame[o + 3] else 255);
          var c := interpolate(seen, color, color.alpha);
          frame[o] := c.red;
          frame[o + 1] := c.green;
          frame[o + 2] := c.blue;
          if bytesPerPixel > 3 {
            frame[o + 3] := c.alpha;
          }
        case BGR =>
          var seen := Color(frame[o + 2], frame[o + 1], frame[o], if bytesPerPixel > 3 then frame[o + 3] else 255);
          var c := interpolate(seen, color, color.alpha);
          frame[o + 2] := c.red;
          frame[o + 1] := c.green;
          frame[o] := c.blue;
          if bytesPerPixel > 3 {
            frame[o + 3] := c.alpha;
          }
        case U8 =>
          var gray := frame[o];
          frame[o] := BlendGray(gray, grayscale(color), color.alpha);
      }
    }

    /** The channel layout: RGB stores red, green, blue at +0, +1, +2, BGR the reverse; alpha at +3 only with a fourth byte. */
    lemma PutLayout(b: seq<Byte>, index: nat, color: Color)
      requires format != U8 && Fits(|b|, index)
      ensures var o := index * bytesPerPixel;
        var c := interpolate(Seen(b, index), color, color.alpha);
        var r := Put(b, index, color);
        && r[o + 1] == c.green
        && (format == RGB ==> r[o] == c.red && r[o + 2] == c.blue)
        && (format == BGR ==> r[o] == c.blue && r[o + 2] == c.red)
        && (bytesPerPixel > 3 ==> r[o + 3] == c.alpha)
    {
    }

    /** A `U8` pixel: transparent colours change nothing, opaque ones store their grey. */
    lemma PutGray(b: seq<Byte>, index: nat, color: Color)
      requires format == U8 && Fits(|b|, index)
      ensures color.alpha == 0 ==> Put(b, index, color) == b
      ensures color.alpha == 255 ==> Put(b, index, color)[index * bytesPerPixel] == grayscale(color)
    {
      BlendGrayEnds(b[index * bytesPerPixel], grayscale(color), color.alpha);
    }

    /** All dots fit a buffer of `len` bytes. */
    predicate AllFit(len: nat, dots: seq<Dot>) {
      forall i :: 0 <= i < |dots| ==> Fits(len, dots[i].index)
    }

    /** `put_pixel` for each dot in turn. */
    function PaintAll(b: seq<Byte>, dots: seq<Dot>): (r: seq<Byte>)
      requires AllFit(|b|, dots)
      ensures |r| == |b|
    {
      if |dots| == 0 then b
      else
        var last := dots[|dots| - 1];
        Put(PaintAll(b, dots[..|dots| - 1]), last.index, last.color)
    }

    /** Painting one more dot. */
    lemma PaintAllSnoc(b: seq<Byte>, dots: seq<Dot>, dot: Dot)
      requires AllFit(|b|, dots) && Fits(|b|, dot.index)
      ensures AllFit(|b|, dots + [dot])
      ensures PaintAll(b, dots + [dot]) == Put(PaintAll(b, dots), dot.index, dot.color)
    {
      assert (dots + [dot])[..|dots|] == dots;
    }

    /** Painting two runs one after the other is painting their concatenation. */
    lemma {:induction false} PaintAllAppend(b: seq<Byte>, xs: seq<Dot>, ys: seq<Dot>)
      requires AllFit(|b|, xs) && AllFit(|b|, ys)
      ensures AllFit(|b|, xs + ys)
      ensures PaintAll(b, xs + ys) == PaintAll(PaintAll(b, xs), ys)
      decreases |ys|
    {
      if |ys| == 0 {
        assert xs + ys == xs;
      } else {
        var ys' := ys[..|ys| - 1];
        assert (xs + ys)[..|xs + ys| - 1] == xs + ys';
        PaintAllAppend(b, xs, ys');
      }
    }

    /** Only the slots of the painted dots change. */
    lemma {:induction false} PaintAllElsewhere(b: seq<Byte>, dots: seq<Dot>, j: nat)
      requires AllFit(|b|, dots) && j < |b|
      requires forall k :: 0 <= k < |dots| ==> !(dots[k].index * bytesPerPixel <= j <= dots[k].index * bytesPerPixel + LastOffset())
      ensures PaintAll(b, dots)[j] == b[j]
      decreases |dots|
    {
      if |dots| > 0 {
        PaintAllElsewhere(b, dots[..|dots| - 1], j);
      }
    }
  }
}
