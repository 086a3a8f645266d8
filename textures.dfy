/** The procedural checkerboard (src/textures/checkerboard.cpp) and the image
    texture's border mapping (src/textures/image.cpp), with C++'s truncating
    float-to-int conversion and remainder written out. */
module Textures {
  import opened Geometry

  /** `int(x)`: conversion toward zero. */
  function Trunc(x: real): int {
    if x >= 0.0 then x.Floor else -((-x).Floor)
  }

  /** C++ `a % b`: the remainder takes the sign of the dividend. */
  function CppRem(a: int, b: int): int
    requires b != 0
  {
    var r := (if a < 0 then -a else a) % (if b < 0 then -b else b);
    if a < 0 then -r else r
  }

  /** Truncation drops the fraction toward zero: the result never exceeds `x` in
      magnitude, has its sign, and is within one of it. */
  lemma TruncFacts(x: real)
    ensures x >= 0.0 ==> Trunc(x) as real <= x < Trunc(x) as real + 1.0
    ensures x < 0.0 ==> Trunc(x) as real - 1.0 < x <= Trunc(x) as real
    ensures Trunc(x) == 0 <==> -1.0 < x < 1.0
  {
  }

  /** `% 2` on a C++ int is 0 exactly on even numbers and -1 on negative odd ones. */
  lemma RemTwo(a: int)
    ensures CppRem(a, 2) == 0 <==> a % 2 == 0
    ensures a < 0 && a % 2 == 1 ==> CppRem(a, 2) == -1
    ensures a >= 0 && a % 2 == 1 ==> CppRem(a, 2) == 1
  {
    if a < 0 {
      assert (-a) % 2 == 0 <==> a % 2 == 0;
    }
  }

  datatype Checkerboard = Checkerboard(color0: Color, color1: Color, scale: Vec2)

  /** The constructor's property defaults. */
  const DefaultCheckerboard := Checkerboard(Black, White, Vec2(1.0, 1.0))

  /** The texture coordinate scaled per axis. */
  function Scaled(t: Checkerboard, uv: Vec2): Vec2 { Vec2(uv.x * t.scale.x, uv.y * t.scale.y) }

  /** The cell number `int(x) + int(y)` of a scaled coordinate. */
  function CellAt(p: Vec2): int { Trunc(p.x) + Trunc(p.y) }

  function Cell(t: Checkerboard, uv: Vec2): int { CellAt(Scaled(t, uv)) }

  /** `CheckerboardTexture::evaluate`: `color0` exactly on even cells. */
  function EvaluateCheckerboard(t: Checkerboard, uv: Vec2): (c: Color)
    ensures c == t.color0 || c == t.color1
    ensures Cell(t, uv) % 2 == 0 ==> c == t.color0
    ensures Cell(t, uv) % 2 == 1 ==> c == t.color1
  {
    RemTwo(Cell(t, uv));
    if CppRem(Cell(t, uv), 2) == 0 then t.color0 else t.color1
  }

  /** Truncation toward zero makes cell 0 twice as wide: every point of the open
      square (-1,1)^2 (in scaled coordinates) gets `color0`. */
  lemma ZeroCellDoubled(t: Checkerboard, uv: Vec2)
    requires -1.0 < Scaled(t, uv).x < 1.0 && -1.0 < Scaled(t, uv).y < 1.0
    ensures Cell(t, uv) == 0 && EvaluateCheckerboard(t, uv) == t.color0
  {
    TruncFacts(Scaled(t, uv).x);
    TruncFacts(Scaled(t, uv).y);
  }

  /** On the non-negative side, one scaled unit further along `u` is the other colour. */
  lemma {:induction false} StepFlips(t: Checkerboard, uv: Vec2, next: Vec2)
    requires Scaled(t, uv).x >= 0.0
    requires Scaled(t, next).x == Scaled(t, uv).x + 1.0 && Scaled(t, next).y == Scaled(t, uv).y
    requires t.color0 != t.color1
    ensures EvaluateCheckerboard(t, next) != EvaluateCheckerboard(t, uv)
  {
    var x := Scaled(t, uv).x;
    assert Trunc(x + 1.0) == Trunc(x) + 1 by {
      assert (x + 1.0).Floor == x.Floor + 1;
    }
    assert Cell(t, next) == Cell(t, uv) + 1;
  }

  /** Where truncation differs from flooring: cell `-1` starts only at `-2`. */
  lemma NegativeCellsShifted(t: Checkerboard, uv: Vec2)
    requires -2.0 < Scaled(t, uv).x <= -1.0 && 0.0 <= Scaled(t, uv).y < 1.0
    ensures Cell(t, uv) == -1 && CppRem(Cell(t, uv), 2) == -1
    ensures EvaluateCheckerboard(t, uv) == t.color1
  {
    var p := Scaled(t, uv);
    assert (-p.x).Floor == 1;
    assert Trunc(p.y) == 0 by { TruncFacts(p.y); }
    assert CppRem(-1, 2) == -1;
  }

  datatype BorderMode = Clamp | Repeat
  datatype FilterMode = Nearest | Bilinear

  /** An image: its resolution and its pixel lookup `get`. */
  datatype Image = Image(width: nat, height: nat, get: (int, int) -> Color)

  datatype ImageTexture = ImageTexture(image: Image, exposure: real, border: BorderMode, filter: FilterMode)

  /** The constructor's property defaults: exposure 1, border Repeat, filter Bilinear. */
  function MakeImageTexture(image: Image, exposure: Option<real>, border: Option<BorderMode>,
                            filter: Option<FilterMode>): (t: ImageTexture)
    ensures t.image == image
    ensures exposure.None? ==> t.exposure == 1.0
    ensures border.None? ==> t.border == Repeat
    ensures filter.None? ==> t.filter == Bilinear
  {
    ImageTexture(image, if exposure.Some? then exposure.value else 1.0,
                 if border.Some? then border.value else Repeat,
                 if filter.Some? then filter.value else Bilinear)
  }

  function Clamp01(x: real): real { if x < 0.0 then 0.0 else if x > 1.0 then 1.0 else x }

  /** `fmod(x, 1)`: the remainder keeps the sign of the dividend. */
  function Fmod1(x: real): real { x - Trunc(x) as real }

  /** The border mapping of texture coordinates, v axis flipped. */
  function BorderMap(border: BorderMode, uv: Vec2): Vec2 {
    match border
    case Clamp => Vec2(Clamp01(uv.x), 1.0 - Clamp01(uv.y))
    case Repeat => Vec2(Fmod1(uv.x), 1.0 - Fmod1(uv.y))
  }

  /** The fetched pixel: each mapped coordinate scaled by the resolution and truncated. */
  function PixelIndex(border: BorderMode, image: Image, uv: Vec2): (int, int) {
    var m := BorderMap(border, uv);
    (Trunc(m.x * image.width as real), Trunc(m.y * image.height as real))
  }

  /** `ImageTexture::evaluate`: a single pixel fetch. */
  function EvaluateImage(t: ImageTexture, uv: Vec2): Color {
    var index := PixelIndex(t.border, t.image, uv);
    t.image.get(index.0, index.1)
  }

  /** Clamp mode keeps both mapped coordinates in [0,1] (v flipped) and so the
      pixel index in [0,width] x [0,height]. */
  lemma {:induction false} ClampBounds(image: Image, uv: Vec2)
    ensures var m := BorderMap(Clamp, uv);
      0.0 <= m.x <= 1.0 && 0.0 <= m.y <= 1.0 && m.y == 1.0 - Clamp01(uv.y)
    ensures var index := PixelIndex(Clamp, image, uv);
      0 <= index.0 <= image.width && 0 <= index.1 <= image.height
  {
    var m := BorderMap(Clamp, uv);
    ScaledIndex(m.x, image.width);
    ScaledIndex(m.y, image.height);
  }

  /** A coordinate in [0,1] scaled by a resolution truncates into [0,resolution]. */
  lemma ScaledIndex(m: real, size: nat)
    requires 0.0 <= m <= 1.0
    ensures 0 <= Trunc(m * size as real) <= size
  {
    var w := size as real;
    assert 0.0 <= m * w <= w by {
      assert (1.0 - m) * w >= 0.0;
      assert m * w == w - (1.0 - m) * w;
    }
    TruncFacts(m * w);
  }

  /** Repeat mode: `fmod` keeps the sign, so a negative `u` maps into (-1,0]
      and a non-negative one into [0,1); the mapped value differs from `u` by
      a whole number, and v is flipped into (0,2). */
  lemma RepeatRanges(uv: Vec2)
    ensures var m := BorderMap(Repeat, uv);
      (uv.x >= 0.0 ==> 0.0 <= m.x < 1.0) && (uv.x < 0.0 ==> -1.0 < m.x <= 0.0) &&
      (uv.x - m.x).Floor as real == uv.x - m.x &&
      0.0 < m.y < 2.0 && m.y == 1.0 - Fmod1(uv.y)
  {
    TruncFacts(uv.x);
    TruncFacts(uv.y);
  }

  /** On the non-negative side, repeat mode is periodic with period 1. */
  lemma RepeatPeriodic(x: real)
    requires x >= 0.0
    ensures Fmod1(x + 1.0) == Fmod1(x)
  {
    assert (x + 1.0).Floor == x.Floor + 1;
  }

  /** The lookup ignores the filter mode and the exposure. */
  lemma FilterAndExposureUnused(t: ImageTexture, uv: Vec2, exposure: real, filter: FilterMode)
    ensures EvaluateImage(t.(exposure := exposure, filter := filter), uv) == EvaluateImage(t, uv)
  {
  }
}
