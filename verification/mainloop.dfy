/** The state `main` owns across frames (src/main.rs:87-159): the ball
    collection, the fixed-size RGBA buffer, and the window bounds every ball
    reflects against. One frame advances every ball, refills the buffer, and a
    click appends a ball. The window, texture, drawing, mouse and clock calls
    around these steps are raylib's and are not modelled. */
module MainLoop {
  import opened Geometry
  import opened Metaballs
  import opened Field

  /** The window is 800 pixels wide and 600 high. */
  const ScreenWidth: nat := 800
  const ScreenHeight: nat := 600

  class Simulation {
    const width: nat
    const height: nat
    const bounds: Vec2
    /** The image buffer, `screen.0 * screen.1 * 4` bytes, written in place every frame. */
    const buf: array<uint8>
    /** `blobs`: it only ever grows. */
    var blobs: seq<Metaball>

    ghost predicate Valid()
      reads this, blobs
    {
      buf.Length == width * height * 4 &&
      bounds == Vec2(width as real, height as real) &&
      (forall i, j :: 0 <= i < j < |blobs| ==> blobs[i] != blobs[j]) &&
      (forall i :: 0 <= i < |blobs| ==> blobs[i].limit == bounds)
    }

    /** The start of `main`: the screen size, the bounds, the five initial balls
        (drawn at random, so given here) and a white image. */
    constructor (initial: seq<Metaball>)
      requires |initial| == 5
      requires forall i, j :: 0 <= i < j < |initial| ==> initial[i] != initial[j]
      requires forall i :: 0 <= i < |initial| ==> initial[i].limit == Vec2(ScreenWidth as real, ScreenHeight as real)
      ensures Valid() && fresh(buf)
      ensures width == ScreenWidth && height == ScreenHeight && blobs == initial
      ensures forall k :: 0 <= k < buf.Length ==> buf[k] == Opaque
    {
      width := ScreenWidth;
      height := ScreenHeight;
      bounds := Vec2(ScreenWidth as real, ScreenHeight as real);
      buf := new uint8[ScreenWidth * ScreenHeight * 4](_ => 255);
      blobs := initial;
    }

    /** Each frame updates every ball in turn with the frame time: every ball
        moves and reflects on its own, and none is added, removed or reordered. */
    method AdvanceAll(elapsed: real)
      requires Valid()
      modifies blobs
      ensures Valid() && blobs == old(blobs)
      ensures forall i :: 0 <= i < |blobs| ==>
        blobs[i].position == old(blobs[i].position).Plus(old(blobs[i].vel).Times(elapsed)) &&
        blobs[i].vel == Vec2(Reflect(blobs[i].position.x, old(blobs[i].vel).x, bounds.x),
                             Reflect(blobs[i].position.y, old(blobs[i].vel).y, bounds.y)) &&
        blobs[i].size == old(blobs[i].size)
    {
      for i := 0 to |blobs|
        invariant forall j :: 0 <= j < i ==>
          blobs[j].position == old(blobs[j].position).Plus(old(blobs[j].vel).Times(elapsed)) &&
          blobs[j].vel == Vec2(Reflect(blobs[j].position.x, old(blobs[j].vel).x, bounds.x),
                               Reflect(blobs[j].position.y, old(blobs[j].vel).y, bounds.y)) &&
          blobs[j].size == old(blobs[j].size)
        invariant forall j :: i <= j < |blobs| ==>
          blobs[j].position == old(blobs[j].position) && blobs[j].vel == old(blobs[j].vel) &&
          blobs[j].size == old(blobs[j].size)
        invariant forall j :: 0 <= j < |blobs| ==> blobs[j].limit == bounds
      {
        blobs[i].Update(elapsed);
      }
    }

    /** The fill loop over the whole window with the current balls. */
    method Render(sqrt: real -> real)
      requires Valid() && PositiveOnPositives(sqrt)
      modifies buf
      ensures Valid()
      ensures forall x, y :: 0 <= x < width && 0 <= y < height ==> PixelDone(buf[..], blobs, sqrt, width, x, y)
      ensures forall i :: 0 <= i < buf.Length ==> 0 < width && buf[i] == ByteAt(blobs, sqrt, width, i)
    {
      FillBuffer(buf, width, height, blobs, sqrt);
    }

    /** One pass of the frame loop's computing steps: move the balls, then
        refill the buffer from their new positions. */
    method Tick(elapsed: real, sqrt: real -> real)
      requires Valid() && PositiveOnPositives(sqrt)
      modifies blobs, buf
      ensures Valid() && blobs == old(blobs)
      ensures forall i :: 0 <= i < |blobs| ==>
        blobs[i].position == old(blobs[i].position).Plus(old(blobs[i].vel).Times(elapsed)) &&
        blobs[i].vel == Vec2(Reflect(blobs[i].position.x, old(blobs[i].vel).x, bounds.x),
                             Reflect(blobs[i].position.y, old(blobs[i].vel).y, bounds.y)) &&
        blobs[i].size == old(blobs[i].size)
      ensures forall i :: 0 <= i < buf.Length ==> 0 < width && buf[i] == ByteAt(blobs, sqrt, width, i)
    {
      AdvanceAll(elapsed);
      Render(sqrt);
    }

    /** A click appends a new ball: it sits at the click position, has the size
        and velocity drawn for it, is bounded by the window, and comes after the
        existing balls, which are left as they were. */
    method Spawn(position: Vec2, size: real, vel: Vec2)
      requires Valid()
      modifies this`blobs
      ensures Valid()
      ensures |blobs| == |old(blobs)| + 1 && blobs[..|old(blobs)|] == old(blobs)
      ensures fresh(blobs[|blobs| - 1])
      ensures blobs[|blobs| - 1].position == position && blobs[|blobs| - 1].size == size
      ensures blobs[|blobs| - 1].vel == vel && blobs[|blobs| - 1].limit == bounds
    {
      var b := new Metaball(position, size, vel, bounds);
      blobs := blobs + [b];
    }
  }
}
