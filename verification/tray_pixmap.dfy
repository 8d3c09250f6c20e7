/** `SystemTrayItem.__get_pixbuf`: pick the widest entry of an
    `IconPixmap` array and turn its ARGB32 pixels (network byte order, as
    the StatusNotifierItem specification lays out `IconPixmap`) into the
    RGBA byte order a `GdkPixbuf` with alpha expects. */
module TrayPixmap {
  import opened Wrappers

  /** One `(width, height, bytes)` entry of a D-Bus `a(iiay)` pixmap array. */
  datatype Pixmap = Pixmap(width: int, height: int, data: seq<bv8>)

  /** The pixbuf built from the converted bytes: RGB colour space with
      alpha, 8 bits per sample, `width * 4` bytes per row. */
  datatype Pixbuf = Pixbuf(width: int, height: int, rowstride: int, pixels: seq<bv8>)

  /** Python's `IndexError`, raised when the byte buffer is shorter than
      the loop expects. */
  datatype IndexError = IndexError

  /** `sorted(pixmaps, key=lambda x: x[0])[-1]`: an entry of maximal width;
      the sort is stable, so among equally wide entries the last one in
      input order. */
  function WidestIndex(ps: seq<Pixmap>): (k: nat)
    requires |ps| > 0
    ensures k < |ps|
    ensures forall i :: 0 <= i < |ps| ==> ps[i].width <= ps[k].width
    ensures forall i :: k < i < |ps| ==> ps[i].width < ps[k].width
  {
    if |ps| == 1 then 0
    else
      var k := WidestIndex(ps[..|ps| - 1]);
      if ps[|ps| - 1].width >= ps[k].width then |ps| - 1 else k
  }

  /** The number of pixels `range(0, 4 * width * height, 4)` visits: the
      product when it is positive, none otherwise. */
  function PixelCount(width: int, height: int): (n: nat)
    ensures 4 * n == (if 4 * width * height > 0 then 4 * width * height else 0)
  {
    var m := width * height;
    assert 4 * width * height == 4 * m;
    if m > 0 then m else 0
  }

  /** Pixel `p` of a buffer: the four bytes from `4 * p`. */
  function Pixel(s: seq<bv8>, p: nat): seq<bv8>
    requires 4 * p + 4 <= |s|
  {
    s[4 * p..4 * p + 4]
  }

  /** ARGB to RGBA: the alpha byte moves from the front to the back. */
  function RotateLeft(px: seq<bv8>): (r: seq<bv8>)
    requires |px| == 4
    ensures r == [px[1], px[2], px[3], px[0]]
  {
    px[1..] + [px[0]]
  }

  /** RGBA to ARGB: the alpha byte moves from the back to the front. */
  function RotateRight(px: seq<bv8>): (r: seq<bv8>)
    requires |px| == 4
    ensures r == [px[3], px[0], px[1], px[2]]
  {
    [px[3]] + px[..3]
  }

  /** Where output byte `j` of a converted pixel comes from. */
  function RgbaSource(j: nat): nat {
    if j % 4 == 3 then j - 3 else j + 1
  }

  /** The four sources of pixel `p`'s output bytes. */
  lemma RgbaSourceOfPixel(p: nat)
    ensures RgbaSource(4 * p) == 4 * p + 1 && RgbaSource(4 * p + 1) == 4 * p + 2
    ensures RgbaSource(4 * p + 2) == 4 * p + 3 && RgbaSource(4 * p + 3) == 4 * p
  {
  }

  /** A buffer that takes each of the first `4 * n` bytes from its
      `RgbaSource` and keeps the rest is the converted buffer. */
  lemma ToRgbaBytes(out: seq<bv8>, data: seq<bv8>, n: nat)
    requires |out| == |data| && 4 * n <= |data|
    requires forall j :: 0 <= j < 4 * n ==> out[j] == data[RgbaSource(j)]
    requires forall j :: 4 * n <= j < |data| ==> out[j] == data[j]
    ensures out == ToRgba(data, n)
  {
  }

  /** Where output byte `j` of a pixel converted back comes from. */
  function ArgbSource(j: nat): nat {
    if j % 4 == 0 then j + 3 else j - 1
  }

  /** The first `n` pixels of `data` converted from ARGB to RGBA; the rest
      of the buffer is left alone. */
  function ToRgba(data: seq<bv8>, n: nat): (r: seq<bv8>)
    requires 4 * n <= |data|
    ensures |r| == |data|
    ensures forall p :: 0 <= p < n ==> Pixel(r, p) == RotateLeft(Pixel(data, p))
    ensures forall j :: 4 * n <= j < |data| ==> r[j] == data[j]
  {
    var r := seq(|data|, j requires 0 <= j < |data| => if j < 4 * n then data[RgbaSource(j)] else data[j]);
    forall p | 0 <= p < n ensures Pixel(r, p) == RotateLeft(Pixel(data, p)) {
      RgbaSourceOfPixel(p);
    }
    r
  }

  /** The first `n` pixels of `data` converted from RGBA back to ARGB. */
  function ToArgb(data: seq<bv8>, n: nat): (r: seq<bv8>)
    requires 4 * n <= |data|
    ensures |r| == |data|
    ensures forall p :: 0 <= p < n ==> Pixel(r, p) == RotateRight(Pixel(data, p))
    ensures forall j :: 4 * n <= j < |data| ==> r[j] == data[j]
  {
    var r := seq(|data|, j requires 0 <= j < |data| => if j < 4 * n then data[ArgbSource(j)] else data[j]);
    forall p | 0 <= p < n ensures Pixel(r, p) == RotateRight(Pixel(data, p)) {
      assert ArgbSource(4 * p) == 4 * p + 3;
      assert ArgbSource(4 * p + 1) == 4 * p;
    }
    r
  }

  /** Two buffers of equal length that agree pixel by pixel on the first
      `n` pixels and byte by byte after them are equal. */
  lemma SamePixels(a: seq<bv8>, b: seq<bv8>, n: nat)
    requires |a| == |b| && 4 * n <= |a|
    requires forall p :: 0 <= p < n ==> Pixel(a, p) == Pixel(b, p)
    requires forall j :: 4 * n <= j < |a| ==> a[j] == b[j]
    ensures a == b
  {
    forall j | 0 <= j < |a| ensures a[j] == b[j] {
      if j < 4 * n {
        var p := j / 4;
        assert Pixel(a, p)[j - 4 * p] == a[j];
        assert Pixel(b, p)[j - 4 * p] == b[j];
      }
    }
  }

  /** Converting to RGBA and back restores the ARGB buffer. */
  lemma ArgbRoundTrip(data: seq<bv8>, n: nat)
    requires 4 * n <= |data|
    ensures ToArgb(ToRgba(data, n), n) == data
  {
    var r := ToArgb(ToRgba(data, n), n);
    forall p | 0 <= p < n ensures Pixel(r, p) == Pixel(data, p) {
      assert Pixel(data, p) == [Pixel(data, p)[0], Pixel(data, p)[1], Pixel(data, p)[2], Pixel(data, p)[3]];
    }
    SamePixels(r, data, n);
  }

  /** Converting to ARGB and back restores the RGBA buffer. */
  lemma RgbaRoundTrip(data: seq<bv8>, n: nat)
    requires 4 * n <= |data|
    ensures ToRgba(ToArgb(data, n), n) == data
  {
    var r := ToRgba(ToArgb(data, n), n);
    forall p | 0 <= p < n ensures Pixel(r, p) == Pixel(data, p) {
      assert Pixel(data, p) == [Pixel(data, p)[0], Pixel(data, p)[1], Pixel(data, p)[2], Pixel(data, p)[3]];
    }
    SamePixels(r, data, n);
  }

  /** The loop of `__get_pixbuf` over the first `n` pixels of a
      `bytearray` copy of the pixmap bytes, held in `a` and updated one byte
      at a time as the source does: at each offset `i = 4 * p` the
      alpha byte is saved, the colour bytes move one place forward, and the
      alpha byte goes last. */
  method RotatePixels(data: seq<bv8>, n: nat) returns (out: seq<bv8>)
    requires 4 * n <= |data|
    ensures out == ToRgba(data, n)
  {
    var a := data;
    var p := 0;
    while p < n
      invariant 0 <= p <= n
      invariant |a| == |data|
      invariant forall j :: 0 <= j < 4 * p ==> a[j] == data[RgbaSource(j)]
      invariant forall j :: 4 * p <= j < |a| ==> a[j] == data[j]
    {
      var i := 4 * p;
      var alpha := a[i];
      a := a[i := a[i + 1]];
      a := a[i + 1 := a[i + 2]];
      a := a[i + 2 := a[i + 3]];
      a := a[i + 3 := alpha];
      RgbaSourceOfPixel(p);
      p := p + 1;
    }
    out := a;
    ToRgbaBytes(out, data, n);
  }

  /** The pixel conversion of `__get_pixbuf` for a `width` x `height`
      pixmap: every visited pixel turns from ARGB into RGBA, and every byte
      past the visited pixels keeps its value. */
  method ConvertPixels(data: seq<bv8>, width: int, height: int) returns (out: seq<bv8>)
    requires 4 * width * height <= |data|
    ensures |out| == |data|
    ensures forall p :: 0 <= p < PixelCount(width, height) ==>
              Pixel(out, p) == [data[4 * p + 1], data[4 * p + 2], data[4 * p + 3], data[4 * p]]
    ensures forall j :: 4 * PixelCount(width, height) <= j < |data| ==> out[j] == data[j]
  {
    var n := PixelCount(width, height);
    out := RotatePixels(data, n);
    forall q | 0 <= q < n
      ensures Pixel(out, q) == [data[4 * q + 1], data[4 * q + 2], data[4 * q + 3], data[4 * q]]
    {
      assert Pixel(out, q) == RotateLeft(Pixel(data, q));
    }
  }

  /** `__get_pixbuf`: the widest pixmap's bytes converted to RGBA, or
      `IndexError` when its buffer is shorter than `4 * width * height`. */
  function GetPixbuf(ps: seq<Pixmap>): (r: Result<Pixbuf, IndexError>)
    requires |ps| > 0
    ensures r.Failure? <==> |ps[WidestIndex(ps)].data| < 4 * PixelCount(ps[WidestIndex(ps)].width, ps[WidestIndex(ps)].height)
    ensures r.Success? ==> forall i :: 0 <= i < |ps| ==> ps[i].width <= r.value.width
    ensures r.Success? ==> r.value.rowstride == 4 * r.value.width
    ensures r.Success? ==> r.value.width == ps[WidestIndex(ps)].width && r.value.height == ps[WidestIndex(ps)].height
    ensures r.Success? ==> |r.value.pixels| == |ps[WidestIndex(ps)].data|
    ensures r.Success? ==> ToArgb(r.value.pixels, PixelCount(r.value.width, r.value.height)) == ps[WidestIndex(ps)].data
  {
    var pm := ps[WidestIndex(ps)];
    var n := PixelCount(pm.width, pm.height);
    if |pm.data| < 4 * n then Failure(IndexError)
    else
      ArgbRoundTrip(pm.data, n);
      Success(Pixbuf(pm.width, pm.height, pm.width * 4, ToRgba(pm.data, n)))
  }
}
