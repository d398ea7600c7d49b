/** Integer rectangles in frame-pixel coordinates and the one rounding rule
    the autoframer uses: conversion of an exact value to an integer by
    truncation toward zero. */
module Geometry {

  /** A rectangle given by its top-left corner and its extent, as the
      four-element lists `[x, y, w, h]` of the tracker and the face
      detector's output rows. */
  datatype Rect = Rect(x: int, y: int, w: int, h: int)

  /** The capture size, read once when the camera is opened. */
  datatype Frame = Frame(width: int, height: int)

  function Area(r: Rect): int {
    r.w * r.h
  }

  function Max(a: int, b: int): (m: int)
    ensures m >= a && m >= b
    ensures m == a || m == b
  {
    if a >= b then a else b
  }

  function Min(a: int, b: int): (m: int)
    ensures m <= a && m <= b
    ensures m == a || m == b
  {
    if a <= b then a else b
  }

  /** `outer` covers every pixel of `inner`. */
  predicate Contains(outer: Rect, inner: Rect) {
    && outer.x <= inner.x
    && outer.y <= inner.y
    && inner.x + inner.w <= outer.x + outer.w
    && inner.y + inner.h <= outer.y + outer.h
  }

  /** `r` lies inside the frame with a non-negative corner. */
  predicate Fits(r: Rect, frame: Frame) {
    && 0 <= r.x
    && 0 <= r.y
    && r.x + r.w <= frame.width
    && r.y + r.h <= frame.height
  }

  /** `q` is `v` rounded toward zero: the largest integer not above `v` when
      `v` is non-negative, the smallest integer not below it otherwise. */
  predicate TruncatesTo(v: real, q: int) {
    && (0.0 <= v ==> q as real <= v < q as real + 1.0)
    && (v < 0.0 ==> q as real - 1.0 < v <= q as real)
  }

  /** Python's `int()` applied to a number: the integer part, rounding toward
      zero. For negative values this differs from `Floor`. */
  function Trunc(v: real): (q: int)
    ensures TruncatesTo(v, q)
  {
    if v >= 0.0 then v.Floor else -((-v).Floor)
  }

  /** Truncation leaves integers alone. */
  lemma TruncOfInt(n: int)
    ensures Trunc(n as real) == n
  {
  }

  /** Truncation is monotone: a larger value never truncates to a smaller
      integer. */
  lemma TruncMonotone(u: real, v: real)
    requires u <= v
    ensures Trunc(u) <= Trunc(v)
  {
  }

  /** A value between two integers truncates to an integer between them. */
  lemma TruncBetween(lo: int, hi: int, v: real)
    requires lo as real <= v <= hi as real
    ensures lo <= Trunc(v) <= hi
  {
    TruncMonotone(lo as real, v);
    TruncMonotone(v, hi as real);
    TruncOfInt(lo);
    TruncOfInt(hi);
  }
}
