/** Elementwise clamping of coordinates and of box tables to image bounds. */
module Geometry {

  /** `threshold`: the smaller of `c` and `hi`, raised to at least `lo`.
      When `lo <= hi` this is the clamp of `c` into `[lo, hi]`; when the bounds
      are inverted the lower bound wins. */
  function Threshold(c: int, lo: int, hi: int): (r: int)
    ensures r >= lo
    ensures lo <= hi ==> r <= hi
    ensures lo <= c <= hi ==> r == c
    ensures c < lo ==> r == lo
    ensures lo <= hi < c ==> r == hi
    ensures hi < lo ==> r == lo
  {
    var capped := if c < hi then c else hi;
    if capped > lo then capped else lo
  }

  /** Clamping twice is clamping once. */
  lemma ThresholdIdempotent(c: int, lo: int, hi: int)
    ensures Threshold(Threshold(c, lo, hi), lo, hi) == Threshold(c, lo, hi)
  {
  }

  /** Clamping keeps the order of coordinates (never swaps two of them). */
  lemma ThresholdMonotone(c: int, d: int, lo: int, hi: int)
    requires c <= d
    ensures Threshold(c, lo, hi) <= Threshold(d, lo, hi)
  {
  }

  /** What `clip_boxes` stores in column `col` of a box table: even columns are
      x coordinates clamped against the width, odd columns y coordinates
      clamped against the height. */
  function ClipCoord(col: nat, v: int, height: nat, width: nat): (r: int)
    ensures col % 2 == 0 && width >= 1 ==> 0 <= r <= width - 1
    ensures col % 2 == 1 && height >= 1 ==> 0 <= r <= height - 1
    ensures col % 2 == 0 && 0 <= v <= width - 1 ==> r == v
    ensures col % 2 == 1 && 0 <= v <= height - 1 ==> r == v
    ensures col % 2 == 0 && width == 0 ==> r == 0
    ensures col % 2 == 1 && height == 0 ==> r == 0
  {
    if col % 2 == 0 then Threshold(v, 0, width - 1) else Threshold(v, 0, height - 1)
  }

  /** Clipping an already clipped table changes nothing. */
  lemma ClipCoordIdempotent(col: nat, v: int, height: nat, width: nat)
    ensures ClipCoord(col, ClipCoord(col, v, height, width), height, width) == ClipCoord(col, v, height, width)
  {
    if col % 2 == 0 {
      ThresholdIdempotent(v, 0, width - 1);
    } else {
      ThresholdIdempotent(v, 0, height - 1);
    }
  }

  /** One slice assignment `boxes[:, start::2] = threshold(boxes[:, start::2], 0, bound)`:
      columns start, start + 2, ... are clamped to `[0, bound]` in place, the
      other columns are left alone. */
  method ClipColumns(boxes: array2<int>, start: nat, bound: int)
    requires start < 2
    modifies boxes
    ensures forall i, k :: 0 <= i < boxes.Length0 && 0 <= k < boxes.Length1 ==>
      boxes[i, k] == if k % 2 == start then Threshold(old(boxes[i, k]), 0, bound) else old(boxes[i, k])
  {
    var j := start;
    while j < boxes.Length1
      invariant start <= j <= boxes.Length1 + 1
      invariant j % 2 == start
      invariant forall i, k :: 0 <= i < boxes.Length0 && 0 <= k < boxes.Length1 ==>
        boxes[i, k] == if k % 2 == start && k < j then Threshold(old(boxes[i, k]), 0, bound) else old(boxes[i, k])
    {
      var i := 0;
      while i < boxes.Length0
        invariant 0 <= i <= boxes.Length0
        invariant forall r, k :: 0 <= r < boxes.Length0 && 0 <= k < boxes.Length1 ==>
          boxes[r, k] == if k % 2 == start && (k < j || (k == j && r < i)) then Threshold(old(boxes[r, k]), 0, bound) else old(boxes[r, k])
      {
        boxes[i, j] := Threshold(boxes[i, j], 0, bound);
        i := i + 1;
      }
      j := j + 2;
    }
  }

  /** `clip_boxes`: clamps every x column of the table to `[0, width - 1]` and
      every y column to `[0, height - 1]`, in place, and returns the same table. */
  method ClipBoxes(boxes: array2<int>, height: nat, width: nat) returns (clipped: array2<int>)
    modifies boxes
    ensures clipped == boxes
    ensures forall i, k :: 0 <= i < boxes.Length0 && 0 <= k < boxes.Length1 ==>
      boxes[i, k] == ClipCoord(k, old(boxes[i, k]), height, width)
    ensures width >= 1 ==> forall i, k :: 0 <= i < boxes.Length0 && 0 <= k < boxes.Length1 && k % 2 == 0 ==>
      0 <= boxes[i, k] <= width - 1
    ensures height >= 1 ==> forall i, k :: 0 <= i < boxes.Length0 && 0 <= k < boxes.Length1 && k % 2 == 1 ==>
      0 <= boxes[i, k] <= height - 1
  {
    ClipColumns(boxes, 0, width - 1);
    ClipColumns(boxes, 1, height - 1);
    clipped := boxes;
  }
}
