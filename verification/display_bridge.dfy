/** The bridge between the JUCE drawing surface and the Push 2 display: it owns
    an RGB image the demo draws into, and on every flip it encodes that image
    into a freshly made device bitmap of 16-bit pixels, row by row, masking
    each pixel with a per-column XOR pattern the display requires. */
module DisplayBridge {
  import opened Wrappers
  import opened NBase

  type Pixel = bv16

  /** One RGB sample of the image, as `getRed`, `getGreen`, `getBlue` return it. */
  datatype Colour = Colour(red: bv8, green: bv8, blue: bv8)

  /** A row-major RGB raster of `width` by `height` samples. */
  datatype Image = Image(width: nat, height: nat, pixels: seq<Colour>) {

    predicate Valid() {
      |pixels| == width * height
    }

    /** The colour at column `x`, row `y` (`getPixelColour(x, y)`). */
    function PixelAt(x: nat, y: nat): Colour
      requires Valid() && x < width && y < height
    {
      pixels[CellIndex(width, height, x, y)]
    }
  }

  /** The packing of three 8-bit channels into one native pixel
      (`Push2DisplayBitmap::SPixelFromRGB`). Its bit layout is defined outside
      this model, so every operation here takes it as a parameter. */
  type PackFn = (bv8, bv8, bv8) -> Pixel

  /** A reference to the low-level display the bridge hands its bitmaps to. */
  datatype DisplayRef = DisplayRef(id: nat)

  /** The bridge's state: the display it is bound to, if any, and the image
      the demo draws into. */
  datatype Bridge = Bridge(display: Option<DisplayRef>, image: Image)

  /** The two XOR masks, indexed by column parity. */
  const XorMasks: seq<Pixel> := [0xf3e7, 0xffe7]

  /** Where row `y` starts in a row-major raster of the given width: the sum
      of `y` row widths, which `RowStartIsProduct` shows equals `y * width`. */
  function RowStart(width: nat, y: nat): nat {
    if y == 0 then 0 else RowStart(width, y - 1) + width
  }

  /** Position of column `x`, row `y` in a row-major `width` by `height`
      raster; it always lies inside the raster. */
  function CellIndex(width: nat, height: nat, x: nat, y: nat): (i: nat)
    requires x < width && y < height
    ensures i < width * height
  {
    RowStartMono(width, y + 1, height);
    RowStartIsProduct(width, height);
    RowStart(width, y) + x
  }

  /** The mask applied to a pixel written in column `x`. */
  function XorMask(x: nat): (m: Pixel)
    ensures x % 2 == 0 ==> m == 0xf3e7
    ensures x % 2 == 1 ==> m == 0xffe7
  {
    XorMasks[x % 2]
  }

  /** The value written for colour `c` in column `x`: the packed colour
      XOR-ed with the mask of the column's parity, which XOR-ing with that
      mask again removes. */
  function EncodePixel(pack: PackFn, c: Colour, x: nat): (p: Pixel)
    ensures p ^ pack(c.red, c.green, c.blue) == XorMask(x)
    ensures Unmask(p, x) == pack(c.red, c.green, c.blue)
  {
    var packed, mask := pack(c.red, c.green, c.blue), XorMask(x);
    XorCancels(packed, mask);
    packed ^ mask
  }

  /** XOR-ing with the same mask twice gives the value back, and XOR-ing the
      masked value with the original gives the mask. */
  lemma XorCancels(v: Pixel, m: Pixel)
    ensures (v ^ m) ^ m == v && (v ^ m) ^ v == m
  {
  }

  /** Removes the column mask from a written cell. */
  function Unmask(cell: Pixel, x: nat): Pixel {
    cell ^ XorMask(x)
  }

  function Min(a: nat, b: nat): nat {
    if a < b then a else b
  }

  /** A freshly constructed bridge: bound to no display yet. */
  function NewBridge(image: Image): (b: Bridge)
    ensures b.display.None? && b.image == image
  {
    Bridge(None, image)
  }

  /** Binds the bridge to `display`; this step cannot fail. */
  function Init(bridge: Bridge, display: DisplayRef): (r: (Bridge, Result))
    ensures r.1.Succeeded()
    ensures r.0.display == Some(display)
    ensures r.0.image == bridge.image
  {
    (bridge.(display := Some(display)), NoError)
  }

  lemma {:induction false} RowStartIsProduct(width: nat, y: nat)
    ensures RowStart(width, y) == y * width
  {
    if y > 0 {
      RowStartIsProduct(width, y - 1);
    }
  }

  /** Rows start further on the further down they are. */
  lemma {:induction false} RowStartMono(width: nat, a: nat, b: nat)
    requires a <= b
    ensures RowStart(width, a) <= RowStart(width, b)
    decreases b - a
  {
    if a < b {
      RowStartMono(width, a + 1, b);
    }
  }

  /** The stride: column `x` of row `y` is stored at `y * width + x`. */
  lemma CellIndexIsStride(width: nat, height: nat, x: nat, y: nat)
    requires x < width && y < height
    ensures CellIndex(width, height, x, y) == y * width + x
  {
    RowStartIsProduct(width, y);
  }

  /** Every cell of rows before `y` lies before the start of row `y`. */
  lemma EarlierRowsBelow(width: nat, height: nat, y: nat)
    requires y <= height
    ensures forall yy: nat, xx: nat :: yy < y && xx < width ==>
              CellIndex(width, height, xx, yy) < RowStart(width, y)
  {
    forall yy: nat, xx: nat | yy < y && xx < width
      ensures CellIndex(width, height, xx, yy) < RowStart(width, y)
    {
      RowStartMono(width, yy + 1, y);
    }
  }

  /** Every cell of rows from `y` on lies at or after the start of row `y`. */
  lemma LaterRowsAbove(width: nat, height: nat, y: nat)
    ensures forall yy: nat, xx: nat :: y <= yy < height && xx < width ==>
              RowStart(width, y) <= CellIndex(width, height, xx, yy)
  {
    forall yy: nat, xx: nat | y <= yy < height && xx < width
      ensures RowStart(width, y) <= CellIndex(width, height, xx, yy)
    {
      RowStartMono(width, y, yy);
    }
  }

  /** `bitmap` is the encoding of `image` into a fresh `devWidth` by
      `devHeight` device bitmap whose prior contents were `initial`: every cell
      of the overlap of the two rasters holds the masked packed colour of the
      image pixel at the same column and row, and every other cell keeps its
      prior value. */
  predicate EncodesFrame(bitmap: seq<Pixel>, image: Image, pack: PackFn, devWidth: nat, devHeight: nat,
                         initial: seq<Pixel>)
    requires image.Valid()
  {
    && |bitmap| == devWidth * devHeight
    && |initial| == devWidth * devHeight
    && (forall x: nat, y: nat :: x < Min(devWidth, image.width) && y < Min(devHeight, image.height) ==>
          bitmap[CellIndex(devWidth, devHeight, x, y)] == EncodePixel(pack, image.PixelAt(x, y), x))
    && (forall x: nat, y: nat ::
          x < devWidth && y < devHeight && (x >= Min(devWidth, image.width) || y >= Min(devHeight, image.height)) ==>
          bitmap[CellIndex(devWidth, devHeight, x, y)] == initial[CellIndex(devWidth, devHeight, x, y)])
  }

  /** Every position of a `width` by `height` raster is the index of some cell. */
  lemma {:induction false} EveryIndexIsACell(width: nat, height: nat, i: nat)
    requires i < RowStart(width, height)
    ensures exists x: nat, y: nat :: x < width && y < height && CellIndex(width, height, x, y) == i
  {
    var y := height - 1;
    if i < RowStart(width, y) {
      EveryIndexIsACell(width, y, i);
      var x: nat, yy: nat :| x < width && yy < y && CellIndex(width, y, x, yy) == i;
      assert CellIndex(width, height, x, yy) == i;
    } else {
      assert CellIndex(width, height, i - RowStart(width, y), y) == i;
    }
  }

  /** The frame encoding fixes every cell of the device bitmap: two bitmaps
      that both encode the same image over the same prior contents are equal. */
  lemma EncodingIsUnique(b1: seq<Pixel>, b2: seq<Pixel>, image: Image, pack: PackFn,
                         devWidth: nat, devHeight: nat, initial: seq<Pixel>)
    requires image.Valid()
    requires EncodesFrame(b1, image, pack, devWidth, devHeight, initial)
    requires EncodesFrame(b2, image, pack, devWidth, devHeight, initial)
    ensures b1 == b2
  {
    RowStartIsProduct(devWidth, devHeight);
    forall i | 0 <= i < |b1|
      ensures b1[i] == b2[i]
    {
      EveryIndexIsACell(devWidth, devHeight, i);
    }
  }

  /** The inner loop of `Flip`: writes the `sizex` encoded pixels of image
      row `y` at consecutive positions from `start`, which is where device row
      `y` begins, and returns the position after the last one written. */
  method EncodeRow(data: array<Pixel>, image: Image, pack: PackFn, devWidth: nat, devHeight: nat,
                   sizex: nat, y: nat, start: nat)
    returns (p: nat)
    requires image.Valid()
    requires sizex <= devWidth && sizex <= image.width && y < devHeight && y < image.height
    requires data.Length == devWidth * devHeight
    requires start == RowStart(devWidth, y)
    modifies data
    ensures p == start + sizex
    ensures forall xx: nat :: xx < sizex ==>
              data[CellIndex(devWidth, devHeight, xx, y)] == EncodePixel(pack, image.PixelAt(xx, y), xx)
    ensures forall i :: 0 <= i < data.Length && !(start <= i < p) ==> data[i] == old(data[i])
  {
    RowStartMono(devWidth, y + 1, devHeight);
    RowStartIsProduct(devWidth, devHeight);
    p := start;
    var x := 0;
    while x < sizex
      invariant 0 <= x <= sizex
      invariant p == start + x
      invariant forall xx: nat :: xx < x ==>
                  data[CellIndex(devWidth, devHeight, xx, y)] == EncodePixel(pack, image.PixelAt(xx, y), xx)
      invariant forall i :: 0 <= i < data.Length && !(start <= i < p) ==> data[i] == old(data[i])
    {
      var c := image.PixelAt(x, y);
      data[p] := pack(c.red, c.green, c.blue) ^ XorMasks[x % 2];
      p := p + 1;
      x := x + 1;
    }
  }

  /** Encodes the bridge's image into a device bitmap of `devWidth` by
      `devHeight` pixels whose fresh contents are `initial`, walking the
      overlap of the two rasters with a single write position that skips the
      unwritten tail of each device row. The result is what is handed to the
      display. */
  method Flip(bridge: Bridge, pack: PackFn, devWidth: nat, devHeight: nat, initial: seq<Pixel>)
    returns (bitmap: seq<Pixel>)
    requires bridge.display.Some?
    requires bridge.image.Valid()
    requires |initial| == devWidth * devHeight
    ensures EncodesFrame(bitmap, bridge.image, pack, devWidth, devHeight, initial)
    ensures forall x: nat, y: nat ::
              x < Min(devWidth, bridge.image.width) && y < Min(devHeight, bridge.image.height) ==>
              Unmask(bitmap[CellIndex(devWidth, devHeight, x, y)], x) ==
              var c := bridge.image.PixelAt(x, y); pack(c.red, c.green, c.blue)
  {
    var image := bridge.image;
    RowStartIsProduct(devWidth, devHeight);
    var n := RowStart(devWidth, devHeight);
    var data := new Pixel[n](i => if 0 <= i < |initial| then initial[i] else 0);
    var sizex := Min(devWidth, image.width);
    var sizey := Min(devHeight, image.height);
    var p := 0;
    var y := 0;
    while y < sizey
      invariant 0 <= y <= sizey
      invariant p == RowStart(devWidth, y)
      invariant n == |initial| == data.Length
      invariant forall yy: nat, xx: nat :: yy < y && xx < sizex ==>
                  data[CellIndex(devWidth, devHeight, xx, yy)] == EncodePixel(pack, image.PixelAt(xx, yy), xx)
      invariant forall yy: nat, xx: nat :: yy < y && sizex <= xx < devWidth ==>
                  data[CellIndex(devWidth, devHeight, xx, yy)] == initial[CellIndex(devWidth, devHeight, xx, yy)]
      invariant forall i :: p <= i < n ==> data[i] == initial[i]
    {
      EarlierRowsBelow(devWidth, devHeight, y);
      p := EncodeRow(data, image, pack, devWidth, devHeight, sizex, y, p);
      p := p + (devWidth - sizex);
      y := y + 1;
    }
    LaterRowsAbove(devWidth, devHeight, sizey);
    bitmap := data[..];
  }
}
