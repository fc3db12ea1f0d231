/** Dimension normalisation of one rendered page: the longer side is capped at
    2000 pixels by proportional downscaling. The source scales with a float
    ratio and truncates; this model uses exact integer floor division. */
module ImageNormalizer {

  /** `MAX_SIZE` of the conversion loop. */
  const MaxSize: nat := 2000

  /** Pixel dimensions of a raster, width first, as PIL's `size`. */
  datatype Dims = Dims(width: nat, height: nat)

  function Longer(d: Dims): nat
  {
    if d.width >= d.height then d.width else d.height
  }

  /** Scales one side by `MaxSize / longer`, rounding down. */
  function ScaleSide(side: nat, longer: nat): (r: nat)
    requires longer > 0
    ensures r * longer <= side * MaxSize < (r + 1) * longer
  {
    side * MaxSize / longer
  }

  /** The size the page is resized to before encoding. */
  function Normalize(d: Dims): (r: Dims)
    ensures Longer(d) <= MaxSize ==> r == d
    ensures Longer(d) > MaxSize ==>
              r.width * Longer(d) <= d.width * MaxSize < (r.width + 1) * Longer(d) &&
              r.height * Longer(d) <= d.height * MaxSize < (r.height + 1) * Longer(d)
  {
    var m := Longer(d);
    if m > MaxSize then Dims(ScaleSide(d.width, m), ScaleSide(d.height, m)) else d
  }

  lemma {:induction false} ScaleSideOfLonger(m: nat)
    requires m > 0
    ensures ScaleSide(m, m) == MaxSize
  {
    var r := ScaleSide(m, m);
    assert m * MaxSize == MaxSize * m;
    LeCancel(r, MaxSize, m);
    LtCancel(MaxSize, r + 1, m);
  }

  lemma {:induction false} ScaleSideBounded(side: nat, m: nat)
    requires m > MaxSize && side <= m
    ensures ScaleSide(side, m) <= side
    ensures ScaleSide(side, m) <= MaxSize
  {
    var r := ScaleSide(side, m);
    MulLe(side, MaxSize, m);
    LeCancel(r, side, m);
    MulLe(MaxSize, side, m);
    LeCancel(r, MaxSize, m);
  }

  lemma {:induction false} ScaleSideMonotone(a: nat, b: nat, m: nat)
    requires m > 0 && a <= b
    ensures ScaleSide(a, m) <= ScaleSide(b, m)
  {
    var ra, rb := ScaleSide(a, m), ScaleSide(b, m);
    MulLe(MaxSize, a, b);
    LtCancel(ra, rb + 1, m);
  }

  /** Within the cap the page passes through unchanged; above it both sides
      shrink (or stay), the longer side becomes exactly `MaxSize`, and the side
      that was longer is still the longer one. */
  lemma {:induction false} NormalizeCapsLongerSide(d: Dims)
    ensures Longer(d) <= MaxSize ==> Normalize(d) == d
    ensures Longer(d) > MaxSize ==>
              Normalize(d).width <= d.width && Normalize(d).height <= d.height &&
              Longer(Normalize(d)) == MaxSize &&
              (d.width >= d.height <==> Normalize(d).width >= Normalize(d).height)
  {
    var m := Longer(d);
    if m > MaxSize {
      var r := Normalize(d);
      ScaleSideBounded(d.width, m);
      ScaleSideBounded(d.height, m);
      ScaleSideOfLonger(m);
      if d.width >= d.height {
        ScaleSideMonotone(d.height, d.width, m);
      } else {
        ScaleSideMonotone(d.width, d.height, m);
      }
    }
  }

  /** Every normalised size is within the cap. */
  lemma {:induction false} NormalizeWithinCap(d: Dims)
    ensures Longer(Normalize(d)) <= MaxSize
  {
    NormalizeCapsLongerSide(d);
  }

  /** Normalising twice is normalising once. */
  lemma {:induction false} NormalizeIdempotent(d: Dims)
    ensures Normalize(Normalize(d)) == Normalize(d)
  {
    NormalizeWithinCap(d);
  }

  /** Aspect ratio is kept to within one pixel of rounding: the cross products
      `new_w * h` and `new_h * w` differ by less than the original longer side. */
  lemma {:induction false} NormalizeKeepsAspect(d: Dims)
    requires Longer(d) > MaxSize
    ensures -(Longer(d) as int) < Normalize(d).width * d.height - Normalize(d).height * d.width < Longer(d)
  {
    var r := Normalize(d);
    AspectBound(d.width, d.height, Longer(d), r.width, r.height);
  }

  /** Two sides scaled down by the same factor `MaxSize / m` and floored. */
  lemma {:induction false} AspectBound(w: nat, h: nat, m: nat, rw: nat, rh: nat)
    requires 0 < m && w <= m && h <= m
    requires rw * m <= w * MaxSize < (rw + 1) * m
    requires rh * m <= h * MaxSize < (rh + 1) * m
    ensures -(m as int) < rw * h - rh * w < m
  {
    var a := w * MaxSize - rw * m;
    var b := h * MaxSize - rh * m;
    assert (rw + 1) * m == rw * m + m;
    assert (rh + 1) * m == rh * m + m;
    CrossProduct(w, h, m, rw, rh, a, b);
    RemainderProduct(w, h, m, a, b, rw * h - rh * w);
  }

  lemma {:induction false} RemainderProduct(w: nat, h: nat, m: nat, a: nat, b: nat, x: int)
    requires 0 < m && w <= m && h <= m && a < m && b < m
    requires x * m == b * w - a * h
    ensures -(m as int) < x < m
  {
    MulLe(b, w, m);
    MulLt(b, m, m);
    MulLe(a, h, m);
    MulLt(a, m, m);
    BoundFromProduct(x, m);
  }

  lemma {:induction false} BoundFromProduct(x: int, m: nat)
    requires m > 0 && -(m * m) < x * m < m * m
    ensures -(m as int) < x < m
  {
    LtCancel(x, m, m);
    assert (-x) * m == -(x * m);
    LtCancel(-x, m, m);
  }

  /** The ring identity behind the aspect bound. */
  lemma {:induction false} CrossProduct(w: int, h: int, m: int, rw: int, rh: int, a: int, b: int)
    requires a == w * MaxSize - rw * m && b == h * MaxSize - rh * m
    ensures (rw * h - rh * w) * m == b * w - a * h
  {
    calc {
      (rw * h - rh * w) * m;
      == (rw * m) * h - (rh * m) * w;
      == (w * MaxSize - a) * h - (h * MaxSize - b) * w;
      == b * w - a * h;
    }
  }

  lemma {:induction false} MulLe(a: nat, b: int, c: int)
    requires b <= c
    ensures a * b <= a * c
  {
  }

  lemma {:induction false} MulLt(a: nat, b: nat, c: nat)
    requires a < b && c > 0
    ensures a * c < b * c
  {
  }

  lemma {:induction false} LeCancel(a: int, b: int, c: nat)
    requires c > 0 && a * c <= b * c
    ensures a <= b
  {
    assert (b + 1) * c == b * c + c;
    LtCancel(a, b + 1, c);
  }

  lemma {:induction false} LtCancel(a: int, b: int, c: nat)
    requires c > 0 && a * c < b * c
    ensures a < b
  {
  }
}
