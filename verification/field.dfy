/** The per-frame field evaluation of `main` (src/main.rs:122-143): every
    pixel sums the influence of every ball, the sum is clamped and thresholded
    to a grey level, and the level is written into a row-major RGBA byte buffer. */
module Field {
  import opened Geometry
  import opened Metaballs

  /** Rust's `u8`. */
  newtype uint8 = x: int | 0 <= x < 256

  /** Each ball's `dist` is scaled by this before it is added to the sum. */
  const Gain: real := 50.0
  /** A clamped sum at or above this value lights the pixel. */
  const Threshold: real := 100.0
  /** The grey level of a lit pixel (deliberately not full white). */
  const Lit: uint8 := 200
  /** The grey level of an unlit pixel. */
  const Dark: uint8 := 0
  /** The alpha byte every pixel receives. */
  const Opaque: uint8 := 255

  /** `f32::clamp(lo, hi)`, which Rust only accepts with `lo <= hi`. */
  function Clamp(d: real, lo: real, hi: real): (r: real)
    requires lo <= hi
    ensures lo <= r <= hi
    ensures lo <= d <= hi ==> r == d
    ensures d < lo ==> r == lo
    ensures hi < d ==> r == hi
  {
    if d < lo then lo else if hi < d then hi else d
  }

  /** The grey level of a pixel whose accumulated sum is `d`: the sum is clamped
      to `[0, 255]` and compared with the threshold. Because the threshold lies
      inside that range, the clamp never changes the outcome. */
  function Luminance(d: real): (u: uint8)
    ensures u == Lit || u == Dark
    ensures u == Lit <==> Threshold <= d
    ensures u == Dark <==> d < Threshold
  {
    if Clamp(d, 0.0, 255.0) < Threshold then Dark else Lit
  }

  /** The accumulated sum at `(px, py)`: the balls' scaled influences added
      in collection order, starting from 0. */
  function FieldSum(balls: seq<Metaball>, px: real, py: real, sqrt: real -> real): (r: real)
    reads balls
    requires PositiveOnPositives(sqrt)
    ensures balls == [] ==> r == 0.0
    ensures (forall i :: 0 <= i < |balls| ==> 0.0 <= balls[i].size) ==> 0.0 <= r
    decreases |balls|
  {
    if balls == [] then 0.0
    else
      var last := balls[|balls| - 1];
      FieldSum(balls[..|balls| - 1], px, py, sqrt) + last.Dist(px, py, sqrt) * Gain
  }

  /** A ball appended to the collection contributes its own scaled influence
      to the sum at every pixel, on top of the sum of the balls before it. */
  lemma FieldSumAppend(balls: seq<Metaball>, b: Metaball, px: real, py: real, sqrt: real -> real)
    requires PositiveOnPositives(sqrt)
    ensures FieldSum(balls + [b], px, py, sqrt) == FieldSum(balls, px, py, sqrt) + b.Dist(px, py, sqrt) * Gain
  {
    assert (balls + [b])[..|balls|] == balls;
  }

  /** The inner loop over the balls: accumulate `d` over them in collection order. */
  method FieldAt(balls: seq<Metaball>, px: real, py: real, sqrt: real -> real) returns (d: real)
    requires PositiveOnPositives(sqrt)
    ensures d == FieldSum(balls, px, py, sqrt)
  {
    d := 0.0;
    for i := 0 to |balls|
      invariant d == FieldSum(balls[..i], px, py, sqrt)
    {
      assert balls[..i + 1][..i] == balls[..i];
      d := d + balls[i].Dist(px, py, sqrt) * Gain;
    }
    assert balls[..|balls|] == balls;
  }

  /** Byte offset of pixel `(x, y)`'s first channel: `4 * x + 4 * y * width`.
      For a pixel of a window `width` wide it is a multiple of 4 that decodes
      back to `(x, y)`, so the layout is row-major with four bytes per pixel. */
  function Offset(x: int, y: int, width: int): (o: int)
    ensures 0 <= x < width && 0 <= y ==>
      0 <= o && o % 4 == 0 && (o / 4) % width == x && (o / 4) / width == y
  {
    OffsetDecodes(x, y, width);
    4 * x + 4 * y * width
  }

  /** The byte that channel `c` of pixel `(x, y)` receives: the grey level on
      the three colour channels and full opacity on the fourth. */
  function PixelByte(balls: seq<Metaball>, sqrt: real -> real, x: int, y: int, c: int): (b: uint8)
    reads balls
    requires PositiveOnPositives(sqrt)
    requires 0 <= c < 4
    ensures c == 3 ==> b == Opaque
    ensures c < 3 ==> (b == Lit || b == Dark)
    ensures c < 3 ==> (b == Lit <==> Threshold <= FieldSum(balls, x as real, y as real, sqrt))
  {
    if c == 3 then Opaque else Luminance(FieldSum(balls, x as real, y as real, sqrt))
  }

  /** The three colour channels of a pixel always agree. */
  lemma ColourChannelsAgree(balls: seq<Metaball>, sqrt: real -> real, x: int, y: int, c: int, c': int)
    requires PositiveOnPositives(sqrt)
    requires 0 <= c < 3 && 0 <= c' < 3
    ensures PixelByte(balls, sqrt, x, y, c) == PixelByte(balls, sqrt, x, y, c')
  {
  }

  /** With no balls every sum is 0, so every pixel is opaque black. */
  lemma NoBallsIsBlack(sqrt: real -> real, x: int, y: int, c: int)
    requires PositiveOnPositives(sqrt)
    requires 0 <= c < 4
    ensures PixelByte([], sqrt, x, y, c) == if c == 3 then Opaque else Dark
  {
  }

  /** One ball of size 50 and the real square root: a point is lit exactly when
      its squared distance to the centre is positive and at most 625, that is
      when `50 / sqrt(d2) * 50 >= 100`. The centre itself stays dark, because
      `dist` is 0 there. */
  lemma SingleBallBoundary(b: Metaball, px: real, py: real, sqrt: real -> real)
    requires IsSquareRoot(sqrt)
    requires b.size == 50.0
    ensures PositiveOnPositives(sqrt)
    ensures var d2 := b.position.Minus(Vec2(px, py)).LengthSqr();
      Luminance(FieldSum([b], px, py, sqrt)) == Lit <==> 0.0 < d2 <= 625.0
  {
    SquareRootIsPositiveAndIncreasing(sqrt);
    var d2 := b.position.Minus(Vec2(px, py)).LengthSqr();
    assert FieldSum([b], px, py, sqrt) == b.Dist(px, py, sqrt) * Gain by {
      assert [b][..0] == [];
    }
    if d2 != 0.0 {
      assert 0.0 <= d2;
      var s := sqrt(d2);
      assert 0.0 < s && s * s == d2;
      QuotientAtThreshold(s);
      RootAtMost(s, d2);
    }
  }

  /** `50 / s * 50` reaches the threshold exactly when `s <= 25`. */
  lemma QuotientAtThreshold(s: real)
    requires 0.0 < s
    ensures Threshold <= 1.0 * 50.0 / s * Gain <==> s <= 25.0
  {
    var q := 1.0 * 50.0 / s;
    assert q * s == 50.0;
    if s <= 25.0 {
      MulLe(s, 25.0, q);
    } else {
      MulLe(25.0, s, q);
    }
  }

  /** For a positive root `s` of `d2`, `s <= 25` exactly when `d2 <= 625`. */
  lemma RootAtMost(s: real, d2: real)
    requires 0.0 < s && s * s == d2
    ensures s <= 25.0 <==> d2 <= 625.0
  {
    if s <= 25.0 {
      MulLe(s, 25.0, s);
      MulLe(s, 25.0, 25.0);
    } else {
      MulLe(25.0, s, s);
      MulLe(25.0, s, 25.0);
    }
  }

  /** The boundary on concrete pixels, for a ball of size 50 centred at (5, 5):
      the pixel 25 below the centre is lit ... */
  lemma SingleBallLitAt25(b: Metaball, sqrt: real -> real)
    requires IsSquareRoot(sqrt)
    requires b.size == 50.0 && b.position == Vec2(5.0, 5.0)
    ensures PositiveOnPositives(sqrt)
    ensures Luminance(FieldSum([b], 5.0, 30.0, sqrt)) == Lit
  {
    SingleBallBoundary(b, 5.0, 30.0, sqrt);
    assert b.position.Minus(Vec2(5.0, 30.0)) == Vec2(0.0, -25.0);
    assert Vec2(0.0, -25.0).LengthSqr() == 625.0;
  }

  /** ... the pixel 26 below it is dark ... */
  lemma SingleBallDarkAt26(b: Metaball, sqrt: real -> real)
    requires IsSquareRoot(sqrt)
    requires b.size == 50.0 && b.position == Vec2(5.0, 5.0)
    ensures PositiveOnPositives(sqrt)
    ensures Luminance(FieldSum([b], 5.0, 31.0, sqrt)) == Dark
  {
    SingleBallBoundary(b, 5.0, 31.0, sqrt);
    assert b.position.Minus(Vec2(5.0, 31.0)) == Vec2(0.0, -26.0);
    assert Vec2(0.0, -26.0).LengthSqr() == 676.0;
  }

  /** ... and the centre pixel itself is dark, whatever the ball's size. */
  lemma SingleBallCentreDark(b: Metaball, sqrt: real -> real)
    requires PositiveOnPositives(sqrt)
    ensures Luminance(FieldSum([b], b.position.x, b.position.y, sqrt)) == Dark
  {
    assert [b][..0] == [];
    assert b.Dist(b.position.x, b.position.y, sqrt) == 0.0;
  }

  /** The byte at index `i` of the buffer, found by decoding `i` into its pixel and channel. */
  function ByteAt(balls: seq<Metaball>, sqrt: real -> real, width: int, i: int): uint8
    reads balls
    requires PositiveOnPositives(sqrt)
    requires 0 < width && 0 <= i
  {
    PixelByte(balls, sqrt, (i / 4) % width, (i / 4) / width, i % 4)
  }

  /** Every byte written for a pixel of the window lies inside the buffer. */
  lemma OffsetInBounds(x: int, y: int, c: int, width: int, height: int)
    requires 0 <= x < width && 0 <= y < height && 0 <= c < 4
    ensures 0 <= Offset(x, y, width) + c < width * height * 4
  {
    MulMono(y, height - 1, width);
    assert y * width <= height * width - width;
  }

  /** Distinct (pixel, channel) pairs never share a byte. */
  lemma OffsetInjective(x: int, y: int, c: int, x': int, y': int, c': int, width: int)
    requires 0 <= x < width && 0 <= y && 0 <= c < 4
    requires 0 <= x' < width && 0 <= y' && 0 <= c' < 4
    requires Offset(x, y, width) + c == Offset(x', y', width) + c'
    ensures x == x' && y == y' && c == c'
  {
    var p, p' := x + y * width, x' + y' * width;
    assert 4 * p + c == 4 * p' + c';
    assert c == c' && p == p';
    CellInjective(x, y, x', y', width);
  }

  /** Decoding the offset of a pixel of the window gives the pixel back. */
  lemma OffsetDecodes(x: int, y: int, width: int)
    ensures 0 <= x < width && 0 <= y ==>
      var o := 4 * x + 4 * y * width;
      0 <= o && o % 4 == 0 && (o / 4) % width == x && (o / 4) / width == y
  {
    if 0 <= x < width && 0 <= y {
      var p := x + y * width;
      assert 4 * x + 4 * y * width == 4 * p;
      MulMono(0, y, width);
      assert (4 * p) / 4 == p && (4 * p) % 4 == 0;
      var q, m := p / width, p % width;
      assert p == m + q * width;
      CellInjective(x, y, m, q, width);
    }
  }

  /** Row-major cell numbering `x + y * width` is one-to-one on the window. */
  lemma CellInjective(x: int, y: int, x': int, y': int, width: int)
    requires 0 <= x < width && 0 <= x' < width
    requires x + y * width == x' + y' * width
    ensures x == x' && y == y'
  {
    if y < y' {
      MulMono(y + 1, y', width);
      assert false;
    } else if y' < y {
      MulMono(y' + 1, y, width);
      assert false;
    }
  }

  /** Every index of the buffer is the byte of exactly the pixel and channel it decodes to. */
  lemma OffsetCovers(i: int, width: int, height: int)
    requires 0 < width && 0 <= i < width * height * 4
    ensures 0 <= (i / 4) % width < width && 0 <= (i / 4) / width < height
    ensures Offset((i / 4) % width, (i / 4) / width, width) + i % 4 == i
  {
    var p := i / 4;
    var x, y := p % width, p / width;
    assert p == y * width + x;
    assert p < width * height;
    if height <= y {
      MulMono(height, y, width);
      assert false;
    }
  }

  lemma MulMono(a: int, b: int, k: int)
    requires a <= b && 0 <= k
    ensures a * k <= b * k
  {
    assert b * k - a * k == (b - a) * k;
  }

  /** The four bytes of pixel `(x, y)` in `s` hold what the field prescribes. */
  ghost predicate PixelDone(s: seq<uint8>, balls: seq<Metaball>, sqrt: real -> real, width: int, x: int, y: int)
    reads balls
    requires PositiveOnPositives(sqrt)
  {
    0 <= Offset(x, y, width) && Offset(x, y, width) + 4 <= |s| &&
    forall c :: 0 <= c < 4 ==> s[Offset(x, y, width) + c] == PixelByte(balls, sqrt, x, y, c)
  }

  /** The byte ranges of two distinct pixels do not overlap. */
  lemma PixelsDisjoint(x: int, y: int, x': int, y': int, width: int)
    requires 0 <= x < width && 0 <= y && 0 <= x' < width && 0 <= y'
    requires (x, y) != (x', y')
    ensures Offset(x, y, width) + 4 <= Offset(x', y', width) || Offset(x', y', width) + 4 <= Offset(x, y, width)
  {
    var p, p' := x + y * width, x' + y' * width;
    assert Offset(x, y, width) == 4 * p && Offset(x', y', width) == 4 * p';
    if p == p' {
      CellInjective(x, y, x', y', width);
    }
  }

  /** Writing four bytes elsewhere leaves a finished pixel finished. */
  lemma PixelDoneKept(s: seq<uint8>, s': seq<uint8>, o: int, balls: seq<Metaball>, sqrt: real -> real,
                      width: int, x: int, y: int)
    requires PositiveOnPositives(sqrt)
    requires PixelDone(s, balls, sqrt, width, x, y)
    requires |s'| == |s|
    requires forall k :: 0 <= k < |s| && (k < o || o + 4 <= k) ==> s'[k] == s[k]
    requires Offset(x, y, width) + 4 <= o || o + 4 <= Offset(x, y, width)
    ensures PixelDone(s', balls, sqrt, width, x, y)
  {
    forall c | 0 <= c < 4 ensures s'[Offset(x, y, width) + c] == PixelByte(balls, sqrt, x, y, c) {
      assert s'[Offset(x, y, width) + c] == s[Offset(x, y, width) + c];
    }
  }

  /** The whole nested fill loop of `main`: `x` outside, `y` inside, each
      pixel's four bytes written at `4 * x + 4 * y * width`. Afterwards every
      pixel, and so every byte of the buffer, holds what the field prescribes. */
  method FillBuffer(buf: array<uint8>, width: nat, height: nat, balls: seq<Metaball>, sqrt: real -> real)
    requires buf.Length == width * height * 4
    requires PositiveOnPositives(sqrt)
    modifies buf
    ensures forall x, y :: 0 <= x < width && 0 <= y < height ==> PixelDone(buf[..], balls, sqrt, width, x, y)
    ensures forall i :: 0 <= i < buf.Length ==> 0 < width && buf[i] == ByteAt(balls, sqrt, width, i)
  {
    for x := 0 to width
      invariant forall px, py :: 0 <= px < x && 0 <= py < height ==> PixelDone(buf[..], balls, sqrt, width, px, py)
    {
      for y := 0 to height
        invariant forall px, py :: 0 <= px < x && 0 <= py < height ==> PixelDone(buf[..], balls, sqrt, width, px, py)
        invariant forall py :: 0 <= py < y ==> PixelDone(buf[..], balls, sqrt, width, x, py)
      {
        FillPixel(buf, x, y, width, height, balls, sqrt);
      }
    }
    forall i | 0 <= i < buf.Length ensures 0 < width && buf[i] == ByteAt(balls, sqrt, width, i) {
      OffsetCovers(i, width, height);
      assert PixelDone(buf[..], balls, sqrt, width, (i / 4) % width, (i / 4) / width);
    }
  }

  /** The body of the fill loop for pixel `(x, y)`: accumulate the field,
      threshold it and write the pixel's four bytes. Every other finished pixel
      stays finished. */
  method FillPixel(buf: array<uint8>, x: nat, y: nat, width: nat, height: nat, balls: seq<Metaball>, sqrt: real -> real)
    requires buf.Length == width * height * 4
    requires x < width && y < height
    requires PositiveOnPositives(sqrt)
    modifies buf
    ensures PixelDone(buf[..], balls, sqrt, width, x, y)
    ensures forall px, py ::
      (0 <= px < width && 0 <= py < height && (px, py) != (x, y) && PixelDone(old(buf[..]), balls, sqrt, width, px, py))
      ==> PixelDone(buf[..], balls, sqrt, width, px, py)
  {
    var d := FieldAt(balls, x as real, y as real, sqrt);
    var u := Luminance(d);
    var xf := 4 * x;
    var yf := 4 * y * width;
    OffsetInBounds(x, y, 3, width, height);
    ghost var before := buf[..];
    WritePixel(buf, xf + yf, u);
    assert PixelDone(buf[..], balls, sqrt, width, x, y);
    forall px, py | 0 <= px < width && 0 <= py < height && (px, py) != (x, y) &&
                    PixelDone(before, balls, sqrt, width, px, py)
      ensures PixelDone(buf[..], balls, sqrt, width, px, py)
    {
      PixelsDisjoint(px, py, x, y, width);
      PixelDoneKept(before, buf[..], xf + yf, balls, sqrt, width, px, py);
    }
  }

  /** The four writes of one pixel, `buf[o + 0] .. buf[o + 3]`. */
  method WritePixel(buf: array<uint8>, o: nat, u: uint8)
    requires o + 4 <= buf.Length
    modifies buf
    ensures buf[o] == u && buf[o + 1] == u && buf[o + 2] == u && buf[o + 3] == Opaque
    ensures forall k :: 0 <= k < buf.Length && (k < o || o + 4 <= k) ==> buf[k] == old(buf[k])
  {
    buf[o + 0] := u;
    buf[o + 1] := u;
    buf[o + 2] := u;
    buf[o + 3] := 255;
  }
}
