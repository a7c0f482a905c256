/** rgbToHsl of app.js. Numbers are exact reals with ECMAScript's NaN and infinities, so
    the function is total as in the source; rounding to doubles and the sign of zero are
    not modelled. */
module Hsl {

  datatype Num = NaN | PosInf | NegInf | Fin(r: real)
  {
    /** Math.round(this): half up. */
    function Round(): Num {
      if Fin? then Fin((r + 0.5).Floor as real) else this
    }

    /** Math.max(0, this - x) */
    function LowerBy(x: real): Num {
      match this
      case NaN => NaN
      case PosInf => PosInf
      case NegInf => Fin(0.0)
      case Fin(y) => Fin(MaxOf(0.0, y - x))
    }

    /** if (this) */
    predicate Truthy() {
      this != NaN && this != Fin(0.0)
    }

    function Negative(): Num {
      match this
      case NaN => NaN
      case PosInf => NegInf
      case NegInf => PosInf
      case Fin(x) => Fin(-x)
    }

    function Plus(y: Num): Num {
      if Fin? && y.Fin? then Fin(r + y.r)
      else if this == NaN || y == NaN || (this == PosInf && y == NegInf) || (this == NegInf && y == PosInf) then NaN
      else if Fin? then y
      else this
    }

    function Minus(y: Num): Num {
      Plus(y.Negative())
    }

    function Times(y: Num): Num {
      if Fin? && y.Fin? then Fin(r * y.r)
      else if this == NaN || y == NaN || this == Fin(0.0) || y == Fin(0.0) then NaN
      else if IsAbove() == y.IsAbove() then PosInf
      else NegInf
    }

    /** The quotient, with zeros taken as positive. */
    function Over(y: Num): Num {
      if this == NaN || y == NaN || (!Fin? && !y.Fin?) then NaN
      else if !y.Fin? then Fin(0.0)
      else if Fin? && y.r != 0.0 then Fin(r / y.r)
      else if this == Fin(0.0) then NaN
      else if IsAbove() == (y.r >= 0.0) then PosInf
      else NegInf
    }

    /** this % m */
    function Modulo(m: real): Num
      requires m > 0.0
    {
      if Fin? then Fin(Rem(r, m)) else NaN
    }

    predicate IsAbove() {
      this == PosInf || (Fin? && r > 0.0)
    }

    predicate AtMost(y: Num) {
      this == NegInf || y == PosInf || (Fin? && y.Fin? && r <= y.r)
    }

    /** Math.max(this, y) */
    function Max(y: Num): Num {
      if this == NaN || y == NaN then NaN else if y.AtMost(this) then this else y
    }

    /** Math.min(this, y) */
    function Min(y: Num): Num {
      if this == NaN || y == NaN then NaN else if this.AtMost(y) then this else y
    }

    /** Math.abs(this) */
    function Magnitude(): Num {
      if this == NegInf || (Fin? && r < 0.0) then Negative() else this
    }
  }

  datatype Hsla = Hsla(h: Num, s: Num, l: Num, a: Num)

  function MaxOf(x: real, y: real): real { if x < y then y else x }

  function MinOf(x: real, y: real): real { if x < y then x else y }

  function Abs(x: real): real { if x < 0.0 then -x else x }

  /** ECMAScript's %, which truncates. */
  function Rem(x: real, m: real): real
    requires m > 0.0
  {
    if x >= 0.0 then x - m * (x / m).Floor as real else x + m * (-x / m).Floor as real
  }

  /** The hue in sixths of a turn, before it is wrapped. */
  function Sixths(r: real, g: real, b: real, max: real, d: real): real
    requires d > 0.0
  {
    if max == r then Rem((g - b) / d, 6.0) else if max == g then (b - r) / d + 2.0 else (r - g) / d + 4.0
  }

  function Hue(r: real, g: real, b: real, max: real, d: real): real
    requires d > 0.0
  {
    Rem(Sixths(r, g, b, max, d) * 60.0 + 360.0, 360.0)
  }

  /** The saturation: a division that a colour outside the gamut may take by zero. */
  function Saturation(d: real, l: real): Num
    requires d > 0.0
  {
    var divisor := 1.0 - Abs(2.0 * l - 1.0);
    if divisor == 0.0 then PosInf else Fin(d / divisor * 100.0)
  }

  /** The computation on three finite components, scaled to [0, 1]. */
  function FromUnit(r: real, g: real, b: real, a: Num): Hsla {
    var max, min := MaxOf(MaxOf(r, g), b), MinOf(MinOf(r, g), b);
    var d := max - min;
    var l := (max + min) / 2.0;
    if d == 0.0 then Hsla(Fin(0.0), Fin(0.0), Fin(l * 100.0), a)
    else Hsla(Fin(Hue(r, g, b, max, d)), Saturation(d, l), Fin(l * 100.0), a)
  }

  /** The same expressions with an infinite component and no NaN. When all three are equal the
      spread is NaN, which counts as false. Otherwise it is infinite, so the saturation is NaN,
      and so is the hue unless the largest component is the only infinite one. */
  function FromInfinite(r: Num, g: Num, b: Num, a: Num): Hsla {
    var up := r == PosInf || g == PosInf || b == PosInf;
    var down := r == NegInf || g == NegInf || b == NegInf;
    if r == g == b then Hsla(Fin(0.0), Fin(0.0), r, a)
    else
      var l := if up && down then NaN else if up then PosInf else NegInf;
      var h := if r == PosInf && g.Fin? && b.Fin? then Fin(0.0)
               else if g == PosInf && b.Fin? && r.Fin? then Fin(120.0)
               else if b == PosInf && r.Fin? && g.Fin? then Fin(240.0)
               else NaN;
      Hsla(h, NaN, l, a)
  }

  function RgbToHsl(r: Num, g: Num, b: Num, a: Num): Hsla {
    if r == NaN || g == NaN || b == NaN then Hsla(Fin(0.0), Fin(0.0), NaN, a)
    else if r.Fin? && g.Fin? && b.Fin? then FromUnit(r.r / 255.0, g.r / 255.0, b.r / 255.0, a)
    else FromInfinite(r, g, b, a)
  }

  // ---------------------------------------------------------------------------
  // The inverse: section 7.1 of CSS Color Module Level 4
  // ---------------------------------------------------------------------------

  /** x mod m, in [0, m). */
  function Mod(x: real, m: real): real
    requires m > 0.0
  {
    x - m * (x / m).Floor as real
  }

  /** The component at offset n, for hue in degrees and saturation and lightness in [0, 1]. */
  function Component(n: int, hue: real, sat: real, light: real): real {
    var k := Mod(n as real + hue / 30.0, 12.0);
    var a := sat * MinOf(light, 1.0 - light);
    light - a * MaxOf(-1.0, MinOf(MinOf(k - 3.0, 9.0 - k), 1.0))
  }

  /** hslToRgb: hue in degrees, saturation and lightness in percent; components in [0, 1]. */
  function HslToRgb(hue: real, sat: real, light: real): (real, real, real) {
    var (h, s, l) := (Mod(hue, 360.0), sat / 100.0, light / 100.0);
    (Component(0, h, s, l), Component(8, h, s, l), Component(4, h, s, l))
  }

  // ---------------------------------------------------------------------------
  // Arithmetic
  // ---------------------------------------------------------------------------

  lemma Quotient(x: real, d: real)
    requires d > 0.0 && -d <= x <= d
    ensures d * (x / d) == x && -1.0 <= x / d <= 1.0
    ensures x >= 0.0 <==> x / d >= 0.0
  {
  }

  lemma Cancel(d: real, q: real)
    requires q > 0.0
    ensures d / (2.0 * q) * q == d / 2.0
  {
    var x := d / (2.0 * q);
    assert x * (2.0 * q) == d;
    assert x * q * 2.0 == x * (2.0 * q);
  }

  lemma Opposite(d: real, t: real)
    ensures d * -t == -(d * t)
  {
  }

  lemma SignOfProduct(d: real, t: real)
    requires d > 0.0
    ensures t > 0.0 <==> d * t > 0.0
    ensures t < 0.0 <==> d * t < 0.0
  {
  }

  lemma Middle(l: real, d: real, t: real)
    ensures l - d / 2.0 * (1.0 - 2.0 * t) == l - d / 2.0 + d * t
  {
  }

  lemma Mod12(x: real, q: int)
    requires 0.0 <= x - 12.0 * q as real < 12.0
    ensures Mod(x, 12.0) == x - 12.0 * q as real
  {
    assert (x / 12.0).Floor == q;
  }

  lemma Mod360(x: real)
    requires 0.0 <= x < 360.0
    ensures Mod(x, 360.0) == x
  {
    assert (x / 360.0).Floor == 0;
  }

  lemma Rem6(x: real)
    requires -6.0 < x < 6.0
    ensures Rem(x, 6.0) == x
  {
    assert (if x >= 0.0 then (x / 6.0).Floor else (-x / 6.0).Floor) == 0;
  }

  /** The scaling to degrees, from the sixths before the wrap to those after it. */
  lemma Degrees(p: real, wraps: bool)
    requires if wraps then -1.0 <= p < 0.0 else 0.0 <= p < 6.0
    ensures Rem(p * 60.0 + 360.0, 360.0) == 60.0 * if wraps then p + 6.0 else p
  {
    assert ((p * 60.0 + 360.0) / 360.0).Floor == if wraps then 0 else 1;
  }

  // ---------------------------------------------------------------------------
  // The hue circle
  // ---------------------------------------------------------------------------

  /** The bracket of `Component` at offset n for the hue 60 * p. */
  function Clamp(n: int, p: real): real {
    var k := Mod(n as real + 2.0 * p, 12.0);
    MaxOf(-1.0, MinOf(MinOf(k - 3.0, 9.0 - k), 1.0))
  }

  /** The bracket in the six sectors of the hue circle: -1 for the largest component, 1 for the
      smallest, and 1 - 2 * t for the one in between. */
  lemma ClampValues(p: real)
    requires 0.0 <= p < 6.0
    ensures var (r, g, b) := (Clamp(0, p), Clamp(8, p), Clamp(4, p));
            if p <= 1.0 then r == -1.0 && b == 1.0 && g == 1.0 - 2.0 * p
            else if p <= 2.0 then g == -1.0 && b == 1.0 && r == 1.0 - 2.0 * (2.0 - p)
            else if p <= 3.0 then g == -1.0 && r == 1.0 && b == 1.0 - 2.0 * (p - 2.0)
            else if p <= 4.0 then b == -1.0 && r == 1.0 && g == 1.0 - 2.0 * (4.0 - p)
            else if p <= 5.0 then b == -1.0 && g == 1.0 && r == 1.0 - 2.0 * (p - 4.0)
            else r == -1.0 && g == 1.0 && b == 1.0 - 2.0 * (6.0 - p)
  {
    Mod12(0.0 + 2.0 * p, 0);
    Mod12(8.0 + 2.0 * p, if p < 2.0 then 0 else 1);
    Mod12(4.0 + 2.0 * p, if p < 4.0 then 0 else 1);
  }

  /** top and bottom are the largest and smallest of the three components. */
  predicate Spans(r: real, g: real, b: real, top: real, bottom: real) {
    && bottom <= r <= top && bottom <= g <= top && bottom <= b <= top
    && (top == r || top == g || top == b) && (bottom == r || bottom == g || bottom == b)
  }

  /** p in [0, 6) is the place on the hue circle, in sixths, of a colour that is not grey: which
      component is largest, and where the other two stand. `m` is (top - bottom) * p. */
  predicate HuePoint(r: real, g: real, b: real, top: real, d: real, p: real, m: real) {
    && 0.0 <= p < 6.0
    && if top == r then
         if g >= b then p <= 1.0 && m == g - b else p >= 5.0 && m == 6.0 * d + g - b
       else if top == g then
         1.0 < p <= 3.0 && m == 2.0 * d + b - r
       else
         3.0 < p <= 5.0 && m == 4.0 * d + r - g
  }

  lemma HueFromRed(r: real, g: real, b: real, d: real, t: real)
    requires d > 0.0 && t == (g - b) / d && -1.0 <= t <= 1.0
    ensures Hue(r, g, b, r, d) == 60.0 * if t < 0.0 then t + 6.0 else t
  {
    Rem6(t);
    Degrees(t, t < 0.0);
  }

  lemma HueFromGreen(r: real, g: real, b: real, d: real, t: real)
    requires d > 0.0 && t == (b - r) / d && -1.0 <= t <= 1.0 && r != g
    ensures Hue(r, g, b, g, d) == 60.0 * (t + 2.0)
  {
    Degrees(t + 2.0, false);
  }

  lemma HueFromBlue(r: real, g: real, b: real, d: real, t: real)
    requires d > 0.0 && t == (r - g) / d && -1.0 <= t <= 1.0 && r != b && g != b
    ensures Hue(r, g, b, b, d) == 60.0 * (t + 4.0)
  {
    Degrees(t + 4.0, false);
  }

  lemma Shift(d: real, t: real, k: real)
    requires k == 0.0 || k == 2.0 || k == 4.0 || k == 6.0
    ensures d * (t + k) == d * t + k * d
  {
  }

  /** `p` is the hue in sixths, and `m` its product with the spread. */
  predicate Placed(r: real, g: real, b: real, top: real, d: real, p: real, m: real)
    requires d > 0.0
  {
    HuePoint(r, g, b, top, d, p, m) && Hue(r, g, b, top, d) == 60.0 * p && m == d * p
  }

  lemma HueIsRed(r: real, g: real, b: real, d: real) returns (p: real, m: real)
    requires d > 0.0 && -d <= g - b <= d
    ensures Placed(r, g, b, r, d, p, m)
  {
    Quotient(g - b, d);
    HueFromRed(r, g, b, d, (g - b) / d);
    var k := if g >= b then 0.0 else 6.0;
    Shift(d, (g - b) / d, k);
    p, m := (g - b) / d + k, g - b + k * d;
  }

  lemma HueIsGreen(r: real, g: real, b: real, d: real) returns (p: real, m: real)
    requires d > 0.0 && -d < b - r <= d && g != r
    ensures Placed(r, g, b, g, d, p, m)
  {
    Quotient(b - r, d);
    SignOfProduct(d, (b - r) / d + 1.0);
    HueFromGreen(r, g, b, d, (b - r) / d);
    Shift(d, (b - r) / d, 2.0);
    p, m := (b - r) / d + 2.0, b - r + 2.0 * d;
  }

  lemma HueIsBlue(r: real, g: real, b: real, d: real) returns (p: real, m: real)
    requires d > 0.0 && -d < r - g <= d && b != r && b != g
    ensures Placed(r, g, b, b, d, p, m)
  {
    Quotient(r - g, d);
    SignOfProduct(d, (r - g) / d + 1.0);
    HueFromBlue(r, g, b, d, (r - g) / d);
    Shift(d, (r - g) / d, 4.0);
    p, m := (r - g) / d + 4.0, r - g + 4.0 * d;
  }

  // ---------------------------------------------------------------------------
  // The round trip
  // ---------------------------------------------------------------------------

  predicate InGamut(r: real, g: real, b: real) {
    0.0 <= r <= 255.0 && 0.0 <= g <= 255.0 && 0.0 <= b <= 255.0
  }

  /** The component that a bracket c stands for, l being the middle and d the spread. */
  lemma EndBracket(l: real, d: real, c: real)
    ensures c == -1.0 ==> l - d / 2.0 * c == l + d / 2.0
    ensures c == 1.0 ==> l - d / 2.0 * c == l - d / 2.0
  {
  }

  lemma InnerBracket(l: real, d: real, p: real, k: real, up: bool, c: real)
    requires k == 0.0 || k == 2.0 || k == 4.0 || k == 6.0
    requires c == 1.0 - 2.0 * if up then p - k else k - p
    ensures l - d / 2.0 * c == l - d / 2.0 + if up then d * p - k * d else k * d - d * p
  {
    Middle(l, d, if up then p - k else k - p);
    Shift(d, p - k, k);
    Opposite(d, p - k);
  }

  /** Where the product d * p stands against the sector's middle. */
  lemma Sector(d: real, p: real, k: real)
    requires d > 0.0 && (k == 2.0 || k == 4.0)
    ensures p > k <==> d * p - k * d > 0.0
    ensures p < k <==> d * p - k * d < 0.0
  {
    SignOfProduct(d, p - k);
    Shift(d, p - k, k);
  }

  predicate BracketsGive(r: real, g: real, b: real, l: real, d: real, p: real) {
    l - d / 2.0 * Clamp(0, p) == r && l - d / 2.0 * Clamp(8, p) == g && l - d / 2.0 * Clamp(4, p) == b
  }

  /** The bracket values in one sector, p between lo and hi, applied to the spread: top is the
      offset of the largest component, inner that of the middle one, whose value is m - k * d
      above the smallest (or k * d - m, going down). */
  lemma SectorGives(l: real, d: real, p: real, k: real, up: bool, top: int, inner: int, bottom: int)
    requires k == 0.0 || k == 2.0 || k == 4.0 || k == 6.0
    requires Clamp(top, p) == -1.0 && Clamp(bottom, p) == 1.0
    requires Clamp(inner, p) == 1.0 - 2.0 * if up then p - k else k - p
    ensures l - d / 2.0 * Clamp(top, p) == l + d / 2.0
    ensures l - d / 2.0 * Clamp(bottom, p) == l - d / 2.0
    ensures l - d / 2.0 * Clamp(inner, p) == l - d / 2.0 + if up then d * p - k * d else k * d - d * p
  {
    EndBracket(l, d, Clamp(top, p));
    EndBracket(l, d, Clamp(bottom, p));
    InnerBracket(l, d, p, k, up, Clamp(inner, p));
  }

  lemma RedInvertsUp(r: real, g: real, b: real, l: real, d: real, p: real)
    requires l + d / 2.0 == r && 0.0 <= p <= 1.0 && l - d / 2.0 == b && d * p == g - b
    ensures BracketsGive(r, g, b, l, d, p)
  {
    ClampValues(p);
    SectorGives(l, d, p, 0.0, true, 0, 8, 4);
  }

  lemma RedInvertsDown(r: real, g: real, b: real, l: real, d: real, p: real)
    requires l + d / 2.0 == r && 5.0 < p < 6.0 && l - d / 2.0 == g && d * p == 6.0 * d + g - b
    ensures BracketsGive(r, g, b, l, d, p)
  {
    ClampValues(p);
    SectorGives(l, d, p, 6.0, false, 0, 4, 8);
  }

  lemma MagentaInverts(r: real, g: real, b: real, l: real, d: real)
    requires l + d / 2.0 == r == b && l - d / 2.0 == g
    ensures BracketsGive(r, g, b, l, d, 5.0)
  {
    ClampValues(5.0);
    EndBracket(l, d, -1.0);
    EndBracket(l, d, 1.0);
  }

  lemma GreenInvertsDown(r: real, g: real, b: real, l: real, d: real, p: real)
    requires l + d / 2.0 == g && 1.0 < p <= 2.0 && l - d / 2.0 == b && d * p == 2.0 * d + b - r
    ensures BracketsGive(r, g, b, l, d, p)
  {
    ClampValues(p);
    SectorGives(l, d, p, 2.0, false, 8, 0, 4);
  }

  lemma GreenInvertsUp(r: real, g: real, b: real, l: real, d: real, p: real)
    requires l + d / 2.0 == g && 2.0 < p <= 3.0 && l - d / 2.0 == r && d * p == 2.0 * d + b - r
    ensures BracketsGive(r, g, b, l, d, p)
  {
    ClampValues(p);
    SectorGives(l, d, p, 2.0, true, 8, 4, 0);
  }

  lemma BlueInvertsDown(r: real, g: real, b: real, l: real, d: real, p: real)
    requires l + d / 2.0 == b && 3.0 < p <= 4.0 && l - d / 2.0 == r && d * p == 4.0 * d + r - g
    ensures BracketsGive(r, g, b, l, d, p)
  {
    ClampValues(p);
    SectorGives(l, d, p, 4.0, false, 4, 8, 0);
  }

  lemma BlueInvertsUp(r: real, g: real, b: real, l: real, d: real, p: real)
    requires l + d / 2.0 == b && 4.0 < p <= 5.0 && l - d / 2.0 == g && d * p == 4.0 * d + r - g
    ensures BracketsGive(r, g, b, l, d, p)
  {
    ClampValues(p);
    SectorGives(l, d, p, 4.0, true, 4, 0, 8);
  }

  /** The middle component decides which half of its sector pair the hue is in. */
  lemma HalfOfSector(d: real, p: real, k: real, x: real)
    requires d > 0.0 && (k == 2.0 || k == 4.0) && d * p == k * d + x
    ensures p <= k <==> x <= 0.0
  {
    Sector(d, p, k);
  }

  /** The hue of a colour that is not grey, and its three brackets: scaled by half the spread,
      they are the distances of the components from the middle. */
  lemma HueInverts(r: real, g: real, b: real, top: real, bottom: real, l: real, d: real) returns (p: real)
    requires Spans(r, g, b, top, bottom) && d == top - bottom > 0.0 && l == (top + bottom) / 2.0
    ensures 0.0 <= p < 6.0 && Hue(r, g, b, top, d) == 60.0 * p && BracketsGive(r, g, b, l, d, p)
  {
    var m: real;
    if top == r {
      p, m := HueIsRed(r, g, b, d);
      if g >= b {
        RedInvertsUp(r, g, b, l, d, p);
      } else if p > 5.0 {
        RedInvertsDown(r, g, b, l, d, p);
      } else {
        MagentaInverts(r, g, b, l, d);
      }
    } else if top == g {
      p, m := HueIsGreen(r, g, b, d);
      HalfOfSector(d, p, 2.0, b - r);
      if p <= 2.0 {
        GreenInvertsDown(r, g, b, l, d, p);
      } else {
        GreenInvertsUp(r, g, b, l, d, p);
      }
    } else {
      p, m := HueIsBlue(r, g, b, d);
      HalfOfSector(d, p, 4.0, r - g);
      if p <= 4.0 {
        BlueInvertsDown(r, g, b, l, d, p);
      } else {
        BlueInvertsUp(r, g, b, l, d, p);
      }
    }
  }

  lemma ComponentIs(n: int, p: real, h: real, s: real, l: real, d: real, x: real)
    requires s * MinOf(l, 1.0 - l) == d / 2.0 && h == 60.0 * p && l - d / 2.0 * Clamp(n, p) == x
    ensures Component(n, h, s, l) == x
  {
    assert h / 30.0 == 2.0 * p;
  }

  lemma GreyComponent(n: int, h: real, l: real)
    ensures Component(n, h, 0.0, l) == l
  {
  }

  lemma ComponentsAre(h: real, s: real, l: real, p: real, d: real, x: real, y: real, z: real)
    requires s * MinOf(l, 1.0 - l) == d / 2.0 && h == 60.0 * p && BracketsGive(x, y, z, l, d, p)
    ensures Component(0, h, s, l) == x && Component(8, h, s, l) == y && Component(4, h, s, l) == z
  {
    ComponentIs(0, p, h, s, l, d, x);
    ComponentIs(8, p, h, s, l, d, y);
    ComponentIs(4, p, h, s, l, d, z);
  }

  /** The conversion back, from percents. */
  lemma HslToRgbIs(h: real, s: real, l: real, s100: real, l100: real, x: real, y: real, z: real)
    requires 0.0 <= h < 360.0 && s100 == s * 100.0 && l100 == l * 100.0
    requires Component(0, h, s, l) == x && Component(8, h, s, l) == y && Component(4, h, s, l) == z
    ensures HslToRgb(h, s100, l100) == (x, y, z)
  {
    Mod360(h);
    assert s100 / 100.0 == s && l100 / 100.0 == l;
  }

  lemma GreyRoundTrip(l: real)
    ensures HslToRgb(0.0, 0.0, l * 100.0) == (l, l, l)
  {
    GreyComponent(0, 0.0, l);
    GreyComponent(8, 0.0, l);
    GreyComponent(4, 0.0, l);
    HslToRgbIs(0.0, 0.0, l, 0.0, l * 100.0, l, l, l);
  }

  lemma SaturationIs(d: real, l: real, q: real) returns (s: real)
    requires 0.0 < d && 0.0 <= l <= 1.0 && q == MinOf(l, 1.0 - l) && d / 2.0 <= q
    ensures Saturation(d, l) == Fin(s * 100.0) && 0.0 <= s <= 1.0 && s * q == d / 2.0
  {
    assert 1.0 - Abs(2.0 * l - 1.0) == 2.0 * q;
    Quotient(d, 2.0 * q);
    Cancel(d, q);
    s := d / (2.0 * q);
  }

  lemma UnitSpan(x: real, y: real, z: real, top: real, bottom: real)
    requires top == MaxOf(MaxOf(x, y), z) && bottom == MinOf(MinOf(x, y), z)
    ensures Spans(x, y, z, top, bottom)
  {
  }

  predicate Inverts(c: Hsla, x: real, y: real, z: real) {
    && c.h.Fin? && c.s.Fin? && c.l.Fin?
    && 0.0 <= c.h.r < 360.0 && 0.0 <= c.s.r <= 100.0 && 0.0 <= c.l.r <= 100.0
    && HslToRgb(c.h.r, c.s.r, c.l.r) == (x, y, z)
  }

  lemma PartsInvert(x: real, y: real, z: real, p: real, l: real, d: real, s: real, c: Hsla)
    requires c == Hsla(Fin(60.0 * p), Fin(s * 100.0), Fin(l * 100.0), c.a)
    requires 0.0 <= p < 6.0 && BracketsGive(x, y, z, l, d, p)
    requires 0.0 <= l <= 1.0 && 0.0 <= s <= 1.0 && s * MinOf(l, 1.0 - l) == d / 2.0
    ensures Inverts(c, x, y, z)
  {
    ComponentsAre(60.0 * p, s, l, p, d, x, y, z);
    HslToRgbIs(60.0 * p, s, l, s * 100.0, l * 100.0, x, y, z);
  }

  lemma HeightFits(top: real, bottom: real, l: real, d: real)
    requires 0.0 <= bottom <= top <= 1.0 && l == (top + bottom) / 2.0 && d == top - bottom
    ensures 0.0 <= l <= 1.0 && d / 2.0 <= MinOf(l, 1.0 - l)
  {
  }

  /** The saturation of a colour that is not grey, as a fraction. */
  lemma SaturationInverts(top: real, bottom: real, l: real, d: real) returns (s: real)
    requires 0.0 <= bottom < top <= 1.0 && l == (top + bottom) / 2.0 && d == top - bottom
    ensures 0.0 <= l <= 1.0 && 0.0 <= s <= 1.0
    ensures Saturation(d, l) == Fin(s * 100.0) && s * MinOf(l, 1.0 - l) == d / 2.0
  {
    HeightFits(top, bottom, l, d);
    s := SaturationIs(d, l, MinOf(l, 1.0 - l));
  }

  lemma GreyInverts(x: real, a: Num)
    requires 0.0 <= x <= 1.0
    ensures Inverts(FromUnit(x, x, x, a), x, x, x)
  {
    GreyRoundTrip(x);
  }

  lemma ColourInverts(x: real, y: real, z: real, a: Num, top: real, bottom: real)
    requires 0.0 <= bottom < top <= 1.0 && Spans(x, y, z, top, bottom)
    requires top == MaxOf(MaxOf(x, y), z) && bottom == MinOf(MinOf(x, y), z)
    ensures Inverts(FromUnit(x, y, z, a), x, y, z)
  {
    var l, d := (top + bottom) / 2.0, top - bottom;
    var s := SaturationInverts(top, bottom, l, d);
    var p := HueInverts(x, y, z, top, bottom, l, d);
    PartsInvert(x, y, z, p, l, d, s, FromUnit(x, y, z, a));
  }

  lemma FromUnitInverts(x: real, y: real, z: real, a: Num)
    requires 0.0 <= x <= 1.0 && 0.0 <= y <= 1.0 && 0.0 <= z <= 1.0
    ensures Inverts(FromUnit(x, y, z, a), x, y, z)
  {
    var top, bottom := MaxOf(MaxOf(x, y), z), MinOf(MinOf(x, y), z);
    UnitSpan(x, y, z, top, bottom);
    if top == bottom {
      GreyInverts(x, a);
    } else {
      ColourInverts(x, y, z, a, top, bottom);
    }
  }

  /** For every colour of the gamut: the hue is in [0, 360), saturation and lightness are in
      [0, 100], no division is by zero, the alpha is kept, and the conversion of the CSS
      standard gives the exact colour back. */
  lemma RoundTrip(r: real, g: real, b: real, a: Num)
    requires InGamut(r, g, b)
    ensures Inverts(RgbToHsl(Fin(r), Fin(g), Fin(b), a), r / 255.0, g / 255.0, b / 255.0)
    ensures RgbToHsl(Fin(r), Fin(g), Fin(b), a).a == a
  {
    FromUnitInverts(r / 255.0, g / 255.0, b / 255.0, a);
    assert RgbToHsl(Fin(r), Fin(g), Fin(b), a) == FromUnit(r / 255.0, g / 255.0, b / 255.0, a);
  }

  function Largest(r: Num, g: Num, b: Num): Num {
    r.Max(g).Max(b)
  }

  function Smallest(r: Num, g: Num, b: Num): Num {
    r.Min(g).Min(b)
  }

  predicate AllFinite(r: Num, g: Num, b: Num) {
    r.Fin? && g.Fin? && b.Fin?
  }

  lemma Extremes(r: Num, g: Num, b: Num)
    ensures r == NaN || g == NaN || b == NaN ==> Largest(r, g, b) == NaN
    ensures AllFinite(r, g, b) ==>
            Largest(r, g, b) == Fin(MaxOf(MaxOf(r.r, g.r), b.r))
            && Smallest(r, g, b) == Fin(MinOf(MinOf(r.r, g.r), b.r))
    ensures AllFinite(r, g, b) ==> Smallest(r, g, b).r <= Largest(r, g, b).r
  {
  }

  /** The block `if (d)` for the hue. */
  method ComputeHue(r: Num, g: Num, b: Num, max: Num, d: Num) returns (h: Num)
    requires r != NaN && g != NaN && b != NaN && d.Truthy() && max == Largest(r, g, b)
    requires AllFinite(r, g, b) ==> max.Fin? && d.Fin? && d.r > 0.0
    requires !AllFinite(r, g, b) ==> d == PosInf && !(r == g == b)
    ensures AllFinite(r, g, b) ==> h == Fin(Hue(r.r, g.r, b.r, max.r, d.r))
    ensures !AllFinite(r, g, b) ==> h == FromInfinite(r, g, b, NaN).h
  {
    if max == r {
      h := g.Minus(b).Over(d).Modulo(6.0);
    } else if max == g {
      h := b.Minus(r).Over(d).Plus(Fin(2.0));
    } else {
      h := r.Minus(g).Over(d).Plus(Fin(4.0));
    }
    assert h == SixthsOf(r, g, b, max, d);
    if AllFinite(r, g, b) {
      SixthsOfFinite(r.r, g.r, b.r, max.r, d.r);
    } else {
      SixthsOfInfinite(r, g, b);
    }
    h := Wrap(h);
  }

  method Wrap(h0: Num) returns (h: Num)
    ensures h0 == NaN ==> h == NaN
    ensures h0.Fin? ==> h == Fin(Rem(h0.r * 60.0 + 360.0, 360.0))
    ensures h0 == Fin(0.0) ==> h == Fin(0.0)
    ensures h0 == Fin(2.0) ==> h == Fin(120.0)
    ensures h0 == Fin(4.0) ==> h == Fin(240.0)
  {
    WholeTurns();
    h := h0.Times(Fin(60.0)).Plus(Fin(360.0)).Modulo(360.0);
  }

  /** The three branches, on any numbers. */
  function SixthsOf(r: Num, g: Num, b: Num, max: Num, d: Num): Num {
    if max == r then g.Minus(b).Over(d).Modulo(6.0)
    else if max == g then b.Minus(r).Over(d).Plus(Fin(2.0))
    else r.Minus(g).Over(d).Plus(Fin(4.0))
  }

  lemma SixthsOfFinite(r: real, g: real, b: real, max: real, d: real)
    requires d > 0.0
    ensures SixthsOf(Fin(r), Fin(g), Fin(b), Fin(max), Fin(d)) == Fin(Sixths(r, g, b, max, d))
  {
    FiniteQuotient(g, b, d);
    FiniteQuotient(b, r, d);
    FiniteQuotient(r, g, d);
  }

  lemma SixthsOfInfinite(r: Num, g: Num, b: Num)
    requires r != NaN && g != NaN && b != NaN && !AllFinite(r, g, b) && !(r == g == b)
    ensures SixthsOf(r, g, b, Largest(r, g, b), PosInf) ==
            if r == PosInf && g.Fin? && b.Fin? then Fin(0.0)
            else if g == PosInf && b.Fin? && r.Fin? then Fin(2.0)
            else if b == PosInf && r.Fin? && g.Fin? then Fin(4.0)
            else NaN
  {
    InfiniteQuotients();
  }

  lemma FiniteQuotient(x: real, y: real, d: real)
    requires d > 0.0
    ensures Fin(x).Minus(Fin(y)).Over(Fin(d)) == Fin((x - y) / d)
  {
  }

  /** Over an infinite spread a finite difference is nothing and an infinite one not a number. */
  lemma InfiniteQuotients()
    ensures forall x: Num, y: Num :: x.Fin? && y.Fin? ==> x.Minus(y).Over(PosInf) == Fin(0.0)
    ensures forall x: Num, y: Num :: !x.Fin? || !y.Fin? ==> x.Minus(y).Over(PosInf) == NaN
    ensures Fin(0.0).Modulo(6.0) == Fin(0.0) && Fin(0.0).Plus(Fin(2.0)) == Fin(2.0)
            && Fin(0.0).Plus(Fin(4.0)) == Fin(4.0)
  {
    WholeTurns();
  }

  lemma WholeTurns()
    ensures Rem(0.0, 6.0) == 0.0
    ensures Rem(360.0, 360.0) == 0.0 && Rem(480.0, 360.0) == 120.0 && Rem(600.0, 360.0) == 240.0
  {
  }

  method ComputeSaturation(d: Num, l: Num) returns (s: Num)
    ensures !d.Truthy() ==> s == Fin(0.0)
    ensures d.Fin? && d.r > 0.0 && l.Fin? ==> s == Saturation(d.r, l.r)
    ensures d == PosInf && !l.Fin? ==> s == NaN
  {
    s := Fin(0.0);
    if d.Truthy() {
      s := d.Over(Fin(1.0).Minus(Fin(2.0).Times(l).Minus(Fin(1.0)).Magnitude()));
    }
    s := s.Times(Fin(100.0));
  }

  lemma MiddleIs(r: Num, g: Num, b: Num)
    requires r != NaN && g != NaN && b != NaN && !AllFinite(r, g, b)
    ensures Largest(r, g, b).Plus(Smallest(r, g, b)).Over(Fin(2.0)).Times(Fin(100.0)) == FromInfinite(r, g, b, NaN).l
    ensures !Largest(r, g, b).Plus(Smallest(r, g, b)).Over(Fin(2.0)).Fin?
    ensures r == g == b ==> Largest(r, g, b).Minus(Smallest(r, g, b)) == NaN
    ensures !(r == g == b) ==> Largest(r, g, b).Minus(Smallest(r, g, b)) == PosInf
  {
  }

  /** x / 255 */
  function Scaled(x: Num): (y: Num)
    ensures x.Fin? ==> y == Fin(x.r / 255.0)
    ensures !x.Fin? ==> y == x
  {
    x.Over(Fin(255.0))
  }

  lemma MiddleOfFinite(x: real, y: real)
    ensures Fin(x).Plus(Fin(y)).Over(Fin(2.0)) == Fin((x + y) / 2.0)
    ensures Fin(x).Minus(Fin(y)) == Fin(x - y)
  {
  }

  lemma NumbersOnly(r: Num, g: Num, b: Num)
    ensures r == NaN || g == NaN || b == NaN ==>
            Largest(r, g, b) == NaN && Largest(r, g, b).Minus(Smallest(r, g, b)) == NaN
    ensures Largest(r, g, b) == NaN ==> Largest(r, g, b).Plus(Smallest(r, g, b)).Over(Fin(2.0)).Times(Fin(100.0)) == NaN
  {
  }

  lemma FiniteAssembled(x: real, y: real, z: real, a: Num, top: real, bottom: real, h: Num, s: Num)
    requires top == MaxOf(MaxOf(x, y), z) && bottom == MinOf(MinOf(x, y), z)
    requires top == bottom ==> h == Fin(0.0) && s == Fin(0.0)
    requires top > bottom ==>
             h == Fin(Hue(x, y, z, top, top - bottom)) && s == Saturation(top - bottom, (top + bottom) / 2.0)
    ensures Hsla(h, s, Fin((top + bottom) / 2.0 * 100.0), a) == FromUnit(x, y, z, a)
  {
  }

  lemma Finite(r: Num, g: Num, b: Num, a: Num, h: Num, s: Num)
    requires AllFinite(r, g, b)
    requires var d := Largest(r, g, b).Minus(Smallest(r, g, b));
             var l := Largest(r, g, b).Plus(Smallest(r, g, b)).Over(Fin(2.0));
             && (!d.Truthy() ==> h == Fin(0.0) && s == Fin(0.0))
             && (d.Fin? && d.r > 0.0 && l.Fin? ==>
                 h == Fin(Hue(r.r, g.r, b.r, Largest(r, g, b).r, d.r)) && s == Saturation(d.r, l.r))
    ensures Hsla(h, s, Largest(r, g, b).Plus(Smallest(r, g, b)).Over(Fin(2.0)).Times(Fin(100.0)), a) ==
            FromUnit(r.r, g.r, b.r, a)
  {
    Extremes(r, g, b);
    MiddleOfFinite(Largest(r, g, b).r, Smallest(r, g, b).r);
    FiniteAssembled(r.r, g.r, b.r, a, Largest(r, g, b).r, Smallest(r, g, b).r, h, s);
  }

  lemma InfiniteUnscaled(r: Num, g: Num, b: Num, a: Num)
    requires r != NaN && g != NaN && b != NaN && !AllFinite(r, g, b)
    ensures FromInfinite(Scaled(r), Scaled(g), Scaled(b), a) == RgbToHsl(r, g, b, a)
  {
  }

  lemma SpreadOf(r: Num, g: Num, b: Num)
    requires Largest(r, g, b).Minus(Smallest(r, g, b)).Truthy()
    ensures r != NaN && g != NaN && b != NaN
    ensures var d := Largest(r, g, b).Minus(Smallest(r, g, b));
            && (AllFinite(r, g, b) ==> Largest(r, g, b).Fin? && d.Fin? && d.r > 0.0)
            && (!AllFinite(r, g, b) ==> d == PosInf && !(r == g == b))
  {
    NumbersOnly(r, g, b);
    if AllFinite(r, g, b) {
      Extremes(r, g, b);
    } else {
      MiddleIs(r, g, b);
    }
  }

  /** What rgbToHsl does once it has scaled its arguments. */
  method ComputeScaled(r: Num, g: Num, b: Num, a: Num) returns (c: Hsla)
    ensures r == NaN || g == NaN || b == NaN ==> c == Hsla(Fin(0.0), Fin(0.0), NaN, a)
    ensures AllFinite(r, g, b) ==> c == FromUnit(r.r, g.r, b.r, a)
    ensures r != NaN && g != NaN && b != NaN && !AllFinite(r, g, b) ==> c == FromInfinite(r, g, b, a)
  {
    var max, min := Largest(r, g, b), Smallest(r, g, b);
    var d := max.Minus(min);
    var h := Fin(0.0);
    if d.Truthy() {
      SpreadOf(r, g, b);
      h := ComputeHue(r, g, b, max, d);
    }
    var l := max.Plus(min).Over(Fin(2.0));
    var s := ComputeSaturation(d, l);
    c := Hsla(h, s, l.Times(Fin(100.0)), a);
    if r == NaN || g == NaN || b == NaN {
      NumbersOnly(r, g, b);
    } else if AllFinite(r, g, b) {
      Finite(r, g, b, a, h, s);
    } else {
      MiddleIs(r, g, b);
    }
  }

  /** rgbToHsl with its reassigned locals, on any numbers that parseFloat can return. */
  method ComputeHsl(r0: Num, g0: Num, b0: Num, a: Num) returns (c: Hsla)
    ensures c == RgbToHsl(r0, g0, b0, a)
  {
    var r, g, b := Scaled(r0), Scaled(g0), Scaled(b0);
    c := ComputeScaled(r, g, b, a);
    if r0 != NaN && g0 != NaN && b0 != NaN && !AllFinite(r0, g0, b0) {
      InfiniteUnscaled(r0, g0, b0, a);
    }
  }
}
