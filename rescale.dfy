/** The isotropic scale factor that `resize_im` hands to the image-resize call. */
module Rescale {

  datatype Option<T> = None | Some(value: T)

  function Shorter(height: nat, width: nat): nat {
    if height < width then height else width
  }

  function Longer(height: nat, width: nat): nat {
    if height < width then width else height
  }

  /** The factor `f` of `resize_im` for an image of `height` x `width` pixels:
      first `scale / min(height, width)`; if a cap `maxScale` is given and the
      long side would grow beyond it, `maxScale / max(height, width)` instead.
      An image with an empty side makes the first division fail (Python raises
      ZeroDivisionError), which is `None` here. */
  function ResizeFactor(height: nat, width: nat, scale: real, maxScale: Option<real>): (f: Option<real>)
    ensures f.None? <==> Shorter(height, width) == 0
    // with no cap, the short side is brought to exactly `scale`
    ensures f.Some? && maxScale.None? ==> f.value * Shorter(height, width) as real == scale
    // with a cap, the long side never exceeds it
    ensures f.Some? && maxScale.Some? ==> f.value * Longer(height, width) as real <= maxScale.value
    // with a cap, either the short side reaches `scale` or the long side reaches the cap
    ensures f.Some? && maxScale.Some? ==>
      f.value * Shorter(height, width) as real == scale || f.value * Longer(height, width) as real == maxScale.value
    // the cap only ever shrinks the factor
    ensures f.Some? ==> f.value * Shorter(height, width) as real <= scale
    ensures f.Some? && scale > 0.0 && (maxScale.Some? ==> maxScale.value > 0.0) ==> f.value > 0.0
  {
    var short := Shorter(height, width) as real;
    var long := Longer(height, width) as real;
    if short == 0.0 then None
    else
      var f := scale / short;
      if maxScale.Some? && f * long > maxScale.value then Some(maxScale.value / long)
      else Some(f)
  }

  function Min(a: real, b: real): real {
    if a <= b then a else b
  }

  /** With a cap, the factor is the smaller of the uncapped factor and the
      factor that brings the long side exactly to the cap. */
  lemma ResizeFactorCappedIsMin(height: nat, width: nat, scale: real, cap: real)
    requires Shorter(height, width) > 0
    ensures ResizeFactor(height, width, scale, Some(cap)) ==
      Some(Min(scale / Shorter(height, width) as real, cap / Longer(height, width) as real))
  {
    var short, long := Shorter(height, width) as real, Longer(height, width) as real;
    assert long > 0.0;
    var f, g := scale / short, cap / long;
    assert g * long == cap;
    if f * long > cap {
      assert f * long > g * long;
    } else {
      assert f * long <= g * long;
    }
  }

  /** A cap that the uncapped factor respects does not change the factor. */
  lemma ResizeFactorLooseCap(height: nat, width: nat, scale: real, cap: real)
    requires Shorter(height, width) > 0
    requires scale * Longer(height, width) as real <= cap * Shorter(height, width) as real
    ensures ResizeFactor(height, width, scale, Some(cap)) == ResizeFactor(height, width, scale, None)
  {
    var short, long := Shorter(height, width) as real, Longer(height, width) as real;
    var f := scale / short;
    assert f * short == scale;
    assert f * long * short == scale * long;
    if f * long > cap {
      assert f * long * short > cap * short;
    }
  }
}
