/** ImageData buffers: width, height and a flat RGBA byte array, addressed as
    getPixelColor and setPixelColor do, at (y * width + x) * 4. */
module Raster {
  import opened Colour
  import opened Grid

  /** A store into a Uint8ClampedArray of an integer value: clamped into 0..255. */
  function ClampByte(v: int): (b: Byte)
    ensures 0 <= v < 256 ==> b == v
    ensures v < 0 ==> b == 0
    ensures v >= 256 ==> b == 255
  {
    if v < 0 then 0 else if v > 255 then 255 else v
  }

  /** The flat index of the red byte of pixel (x, y) lies inside the buffer, with room
      for the other three channels. */
  lemma PixelIndexInRange(w: nat, h: nat, x: nat, y: nat)
    requires x < w && y < h
    ensures 0 <= (y * w + x) * 4 && (y * w + x) * 4 + 3 < w * h * 4
  {
    assert y * w + x < y * w + w == (y + 1) * w;
    assert (y + 1) * w <= h * w;
  }

  /** Different pixels have different flat indexes. */
  lemma PixelIndexInjective(w: nat, x: nat, y: nat, x': nat, y': nat)
    requires x < w && x' < w && (x != x' || y != y')
    ensures y * w + x != y' * w + x'
  {
    if y < y' {
      MulMono(y + 1, y', w);
    } else if y' < y {
      MulMono(y' + 1, y, w);
    }
  }

  /** An ImageData: a Uint8ClampedArray of width * height * 4 bytes, RGBA row by row. */
  class Image {
    const width: nat
    const height: nat
    const data: array<Byte>

    ghost predicate Valid() {
      data.Length == width * height * 4
    }

    /** ctx.createImageData(w, h): all bytes 0, so every pixel is transparent black. */
    constructor (w: nat, h: nat)
      ensures Valid() && width == w && height == h && fresh(data)
      ensures forall i :: 0 <= i < data.Length ==> data[i] == 0
    {
      width, height := w, h;
      data := new Byte[w * h * 4](_ => 0);
    }

    /** getPixelColor */
    function GetPixelColor(x: nat, y: nat): Rgba
      requires Valid() && x < width && y < height
      reads data
    {
      PixelIndexInRange(width, height, x, y);
      var i := (y * width + x) * 4;
      Rgba(data[i], data[i + 1], data[i + 2], data[i + 3])
    }

    /** setPixelColor: writes the four bytes of pixel (x, y) and nothing else. */
    method SetPixelColor(x: nat, y: nat, r: int, g: int, b: int, a: int)
      requires Valid() && x < width && y < height
      modifies data
      ensures GetPixelColor(x, y) == Rgba(ClampByte(r), ClampByte(g), ClampByte(b), ClampByte(a))
      ensures forall i :: 0 <= i < data.Length && !((y * width + x) * 4 <= i < (y * width + x) * 4 + 4)
                ==> data[i] == old(data[i])
      ensures forall x': nat, y': nat :: x' < width && y' < height && (x' != x || y' != y)
                ==> GetPixelColor(x', y') == old(GetPixelColor(x', y'))
    {
      PixelIndexInRange(width, height, x, y);
      var i := (y * width + x) * 4;
      data[i] := ClampByte(r);
      data[i + 1] := ClampByte(g);
      data[i + 2] := ClampByte(b);
      data[i + 3] := ClampByte(a);
      forall x': nat, y': nat | x' < width && y' < height && (x' != x || y' != y)
        ensures GetPixelColor(x', y') == old(GetPixelColor(x', y'))
      {
        PixelIndexInRange(width, height, x', y');
        PixelIndexInjective(width, x, y, x', y');
        var j := (y' * width + x') * 4;
        assert data[j] == old(data[j]) && data[j + 1] == old(data[j + 1]);
        assert data[j + 2] == old(data[j + 2]) && data[j + 3] == old(data[j + 3]);
      }
    }
  }

  /** The pixels of an image as a grid, row by row. */
  function Pixels(img: Image): (g: seq<seq<Rgba>>)
    requires img.Valid()
    reads img.data
    ensures IsGrid(g, img.width, img.height)
  {
    seq(img.height, y requires 0 <= y < img.height reads img.data =>
      seq(img.width, x requires 0 <= x < img.width reads img.data => img.GetPixelColor(x, y)))
  }

  /** One row of a raster copied into an image, leaving the other rows alone. */
  method CopyRow(img: Image, g: seq<seq<Rgba>>, y: nat)
    requires img.Valid() && IsGrid(g, img.width, img.height) && y < img.height
    modifies img.data
    ensures forall x': nat, y': nat :: x' < img.width && y' < img.height ==>
      img.GetPixelColor(x', y') == if y' == y then g[y][x'] else old(img.GetPixelColor(x', y'))
  {
    for x := 0 to img.width
      invariant forall x': nat, y': nat :: x' < img.width && y' < img.height ==>
        img.GetPixelColor(x', y') == if y' == y && x' < x then g[y][x'] else old(img.GetPixelColor(x', y'))
    {
      var p := g[y][x];
      img.SetPixelColor(x, y, p.r, p.g, p.b, p.a);
    }
  }

  /** getImageData: a fresh ImageData holding the pixels of the raster g. */
  method FromGrid(g: seq<seq<Rgba>>, w: nat, h: nat) returns (img: Image)
    requires IsGrid(g, w, h)
    ensures fresh(img) && fresh(img.data) && img.Valid() && img.width == w && img.height == h
    ensures Pixels(img) == g
  {
    img := new Image(w, h);
    for y := 0 to h
      invariant img.Valid() && fresh(img.data) && img.width == w && img.height == h
      invariant forall x': nat, y': nat :: x' < w && y' < y ==> img.GetPixelColor(x', y') == g[y'][x']
    {
      CopyRow(img, g, y);
    }
    assert Pixels(img) == g by {
      forall y | 0 <= y < h
        ensures Pixels(img)[y] == g[y]
      {
        forall x | 0 <= x < w
          ensures Pixels(img)[y][x] == g[y][x]
        {
          assert Pixels(img)[y][x] == img.GetPixelColor(x, y);
        }
      }
    }
  }
}
