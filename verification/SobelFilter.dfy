/** The Sobel edge filter: five loops over a grey image, a checked window on the border and an unchecked
    one inside, gradient and saturation, over exact integers. */
module SobelFilter {

  // ---------------------------------------------------------------- the filter, as values

  /** The image with zeros around it. */
  function Padded(src: array2<int>, y: int, x: int): int
    reads src
  {
    if 0 <= y < src.Length0 && 0 <= x < src.Length1 then src[y, x] else 0
  }

  /** Horizontal and vertical gradients of the 3x3 neighbourhood, weights 1, 2, 1. */
  function GradientX(src: array2<int>, y: int, x: int): int
    reads src
  {
    Padded(src, y - 1, x + 1) + 2 * Padded(src, y, x + 1) + Padded(src, y + 1, x + 1)
    - Padded(src, y - 1, x - 1) - 2 * Padded(src, y, x - 1) - Padded(src, y + 1, x - 1)
  }

  function GradientY(src: array2<int>, y: int, x: int): int
    reads src
  {
    Padded(src, y + 1, x - 1) + 2 * Padded(src, y + 1, x) + Padded(src, y + 1, x + 1)
    - Padded(src, y - 1, x - 1) - 2 * Padded(src, y - 1, x) - Padded(src, y - 1, x + 1)
  }

  /** Integer part of the square root. */
  function Root(q: nat): (r: nat)
    ensures r * r <= q < (r + 1) * (r + 1)
  {
    if q == 0 then 0 else var r := Root(q - 1); if (r + 1) * (r + 1) <= q then r + 1 else r
  }

  /** From the threshold 256*256/sqrt(256*256+256*256) on the magnitude is replaced by the saturation value
      256*255/sqrt(256*256+256*256); the cast to a byte keeps the integer part. */
  function Saturated(q: nat): nat { if q >= 32768 then 180 else Root(q) }

  /** Root of q against the threshold as the program writes it, squared and without the division. */
  predicate ReachesThreshold(q: nat) { q * (256 * 256 + 256 * 256) >= (256 * 256) * (256 * 256) }

  /** r is the integer part of the saturation value as the program writes it. */
  predicate IsSaturationValue(r: nat) {
    r * r * (256 * 256 + 256 * 256) <= (256 * 255) * (256 * 255) < (r + 1) * (r + 1) * (256 * 256 + 256 * 256)
  }

  /** The pixel of a squared magnitude q is, in the program's own constants, the integer part of the saturation
      value from the threshold on and that of the magnitude below. */
  lemma SaturatedAsWritten(q: nat, r: nat)
    ensures Saturated(q) == r <==>
            if ReachesThreshold(q) then IsSaturationValue(r) else r * r <= q < (r + 1) * (r + 1)
  {
    ThresholdValue(q);
    if ReachesThreshold(q) { OnlySaturationValue(r); } else { OnlyOneRoot(r, Root(q), q); }
  }

  lemma ThresholdValue(q: nat)
    ensures ReachesThreshold(q) <==> q >= 32768
  {
  }

  lemma OnlySaturationValue(r: nat)
    ensures IsSaturationValue(r) <==> r == 180
  {
    SaturationSquare(r * r, (r + 1) * (r + 1));
    OnlyOneRoot(r, 180, 32512);
  }

  /** The squared saturation value lies between 32512 and 32513. */
  lemma SaturationSquare(a: nat, b: nat)
    ensures a * (256 * 256 + 256 * 256) <= (256 * 255) * (256 * 255) < b * (256 * 256 + 256 * 256) <==> a <= 32512 < b
  {
  }

  lemma OnlyOneRoot(r: nat, s: nat, q: nat)
    requires s * s <= q < (s + 1) * (s + 1)
    ensures r * r <= q < (r + 1) * (r + 1) <==> r == s
  {
    if r < s { SquareGrows(r + 1, s); }
    if r > s { SquareGrows(s + 1, r); }
  }

  function Pixel(src: array2<int>, y: int, x: int): nat
    reads src
  {
    var gx, gy := GradientX(src, y, x), GradientY(src, y, x);
    Squares(gx, gy);
    Saturated(gx * gx + gy * gy)
  }

  /** The pixel is the integer part of the length of the gradient, or of the saturation value where that reaches
      the threshold. */
  lemma PixelAsWritten(src: array2<int>, y: int, x: int, q: nat, r: nat)
    requires q == GradientX(src, y, x) * GradientX(src, y, x) + GradientY(src, y, x) * GradientY(src, y, x)
    ensures Pixel(src, y, x) == r <==>
            if q * (256 * 256 + 256 * 256) >= (256 * 256) * (256 * 256) then IsSaturationValue(r)
            else r * r <= q < (r + 1) * (r + 1)
  {
    assert Pixel(src, y, x) == Saturated(q);
    SaturatedAsWritten(q, r);
  }

  /** The horizontal gradient smooths the differences of columns down the rows with weights 1, 2, 1; the vertical
      one does the same to the differences of rows along the columns. */
  lemma GradientIsSmoothedDifference(src: array2<int>, y: int, x: int)
    ensures GradientX(src, y, x)
            == 1 * (Padded(src, y - 1, x + 1) - Padded(src, y - 1, x - 1))
               + 2 * (Padded(src, y, x + 1) - Padded(src, y, x - 1))
               + 1 * (Padded(src, y + 1, x + 1) - Padded(src, y + 1, x - 1))
    ensures GradientY(src, y, x)
            == 1 * (Padded(src, y + 1, x - 1) - Padded(src, y - 1, x - 1))
               + 2 * (Padded(src, y + 1, x) - Padded(src, y - 1, x))
               + 1 * (Padded(src, y + 1, x + 1) - Padded(src, y - 1, x + 1))
  {
  }

  /** Exchanging rows and columns of the image exchanges the gradients and leaves the pixel as it is. */
  lemma TransposedPixel(src: array2<int>, t: array2<int>, y: int, x: int)
    requires t.Length0 == src.Length1 && t.Length1 == src.Length0
    requires forall r, c :: 0 <= r < src.Length0 && 0 <= c < src.Length1 ==> t[c, r] == src[r, c]
    ensures GradientX(t, x, y) == GradientY(src, y, x) && GradientY(t, x, y) == GradientX(src, y, x)
    ensures Pixel(t, x, y) == Pixel(src, y, x)
  {
    assert forall r, c :: Padded(t, c, r) == Padded(src, r, c);
  }

  /** Outside the image the padded one is 0, inside it is the image. */
  lemma PaddedMeans(src: array2<int>, y: int, x: int)
    ensures Padded(src, y, x) == if y < 0 || y >= src.Length0 || x < 0 || x >= src.Length1 then 0 else src[y, x]
  {
  }

  lemma Squares(x: int, y: int)
    ensures x * x >= 0 && y * y >= 0
  {
  }

  /** No result exceeds 181, so the cast loses nothing; 181 itself is reached only just below saturation,
      and saturated pixels are darker than it. */
  lemma PixelRange(q: nat)
    ensures Saturated(q) <= 181
    ensures Saturated(q) == 181 <==> 32761 <= q < 32768
  {
    var r := Root(q);
    if r >= 182 { SquareGrows(182, r); }
    if r <= 180 { SquareGrows(r + 1, 181); }
    if r >= 181 { SquareGrows(181, r); }
  }

  lemma SquareGrows(a: nat, b: nat)
    requires a <= b
    ensures a * a <= b * b
  {
    assert a * a <= a * b <= b * b;
  }

  // ---------------------------------------------------------------- windows, convolution, gradient

  /** w holds the zero-padded neighbourhood of (y, x). */
  predicate Holds(w: array2<int>, src: array2<int>, y: int, x: int)
    requires w.Length0 == 3 && w.Length1 == 3
    reads w, src
  {
    forall r, c :: 0 <= r < 3 && 0 <= c < 3 ==> w[r, c] == Padded(src, y + r - 1, x + c - 1)
  }

  method HalfWindow(src: array2<int>, x: nat, y: nat, w: array2<int>)
    requires y < src.Length0 && x < src.Length1 && w.Length0 == 3 && w.Length1 == 3 && w != src
    modifies w
    ensures Holds(w, src, y, x)
    ensures forall r, c :: 0 <= r < 3 && 0 <= c < 3 ==>
              w[r, c] == if 0 <= y + r - 1 < src.Length0 && 0 <= x + c - 1 < src.Length1
                         then src[y + r - 1, x + c - 1] else 0
  {
    w[0, 0] := if x == 0 || y == 0 then 0 else src[y - 1, x - 1];
    w[0, 1] := if y == 0 then 0 else src[y - 1, x];
    w[0, 2] := if x == src.Length1 - 1 || y == 0 then 0 else src[y - 1, x + 1];
    w[1, 0] := if x == 0 then 0 else src[y, x - 1];
    w[1, 1] := src[y, x];
    w[1, 2] := if x == src.Length1 - 1 then 0 else src[y, x + 1];
    w[2, 0] := if x == 0 || y == src.Length0 - 1 then 0 else src[y + 1, x - 1];
    w[2, 1] := if y == src.Length0 - 1 then 0 else src[y + 1, x];
    w[2, 2] := if x == src.Length1 - 1 || y == src.Length0 - 1 then 0 else src[y + 1, x + 1];
  }

  /** No bounds are checked: only inner pixels may be asked for. */
  method Window(src: array2<int>, x: nat, y: nat, w: array2<int>)
    requires 0 < y < src.Length0 - 1 && 0 < x < src.Length1 - 1
    requires w.Length0 == 3 && w.Length1 == 3 && w != src
    modifies w
    ensures Holds(w, src, y, x)
  {
    w[0, 0] := src[y - 1, x - 1];
    w[0, 1] := src[y - 1, x];
    w[0, 2] := src[y - 1, x + 1];
    w[1, 0] := src[y, x - 1];
    w[1, 1] := src[y, x];
    w[1, 2] := src[y, x + 1];
    w[2, 0] := src[y + 1, x - 1];
    w[2, 1] := src[y + 1, x];
    w[2, 2] := src[y + 1, x + 1];
  }

  type Kernel = k: seq<seq<int>> | |k| == 3 && |k[0]| == 3 && |k[1]| == 3 && |k[2]| == 3
    witness [[0, 0, 0], [0, 0, 0], [0, 0, 0]]

  const KX: Kernel := [[-1, -2, -1], [0, 0, 0], [1, 2, 1]]
  const KY: Kernel := [[-1, 0, 1], [-2, 0, 2], [-1, 0, 1]]

  /** The first n products, column by column of the window: window and kernel are indexed crosswise. */
  function Products(w: array2<int>, k: Kernel, n: nat): int
    requires w.Length0 == 3 && w.Length1 == 3 && n <= 9
    reads w
  {
    if n == 0 then 0 else Products(w, k, n - 1) + w[(n - 1) % 3, (n - 1) / 3] * k[(n - 1) / 3][(n - 1) % 3]
  }

  method Convolve(w: array2<int>, k: Kernel) returns (r: int)
    requires w.Length0 == 3 && w.Length1 == 3
    ensures r == Products(w, k, 9)
  {
    r := 0;
    for j := 0 to 3
      invariant r == Products(w, k, 3 * j)
    {
      for i := 0 to 3
        invariant r == Products(w, k, 3 * j + i)
      {
        assert (3 * j + i) % 3 == i && (3 * j + i) / 3 == j;
        r := r + w[i, j] * k[j][i];
      }
    }
  }

  /** Because of the crosswise indexing the kernel named after y gives the vertical difference of rows and
      the one named after x that of columns, which leaves the magnitude unchanged. */
  lemma CrosswiseGradients(w: array2<int>, src: array2<int>, y: int, x: int)
    requires w.Length0 == 3 && w.Length1 == 3 && Holds(w, src, y, x)
    ensures Products(w, KY, 9) == GradientY(src, y, x)
    ensures Products(w, KX, 9) == GradientX(src, y, x)
  {
    NineProducts(w, KY);
    NineProducts(w, KX);
  }

  lemma NineProducts(w: array2<int>, k: Kernel)
    requires w.Length0 == 3 && w.Length1 == 3
    ensures Products(w, k, 9)
            == w[0, 0] * k[0][0] + w[1, 0] * k[0][1] + w[2, 0] * k[0][2]
               + w[0, 1] * k[1][0] + w[1, 1] * k[1][1] + w[2, 1] * k[1][2]
               + w[0, 2] * k[2][0] + w[1, 2] * k[2][1] + w[2, 2] * k[2][2]
  {
    assert Products(w, k, 1) == w[0, 0] * k[0][0];
    assert Products(w, k, 2) == Products(w, k, 1) + w[1, 0] * k[0][1];
    assert Products(w, k, 3) == Products(w, k, 2) + w[2, 0] * k[0][2];
    assert Products(w, k, 4) == Products(w, k, 3) + w[0, 1] * k[1][0];
    assert Products(w, k, 5) == Products(w, k, 4) + w[1, 1] * k[1][1];
    assert Products(w, k, 6) == Products(w, k, 5) + w[2, 1] * k[1][2];
    assert Products(w, k, 7) == Products(w, k, 6) + w[0, 2] * k[2][0];
    assert Products(w, k, 8) == Products(w, k, 7) + w[1, 2] * k[2][1];
  }

  method Sobel(w: array2<int>, ghost src: array2<int>, ghost y: int, ghost x: int) returns (s: nat)
    requires w.Length0 == 3 && w.Length1 == 3 && Holds(w, src, y, x)
    ensures s == Pixel(src, y, x)
  {
    var sx := Convolve(w, KY);
    var sy := Convolve(w, KX);
    CrosswiseGradients(w, src, y, x);
    Squares(sx, sy);
    s := Root(sx * sx + sy * sy);
    if sx * sx + sy * sy >= 32768 { s := 180; }
  }

  // ---------------------------------------------------------------- the five loops

  /** All three channels of the pixel hold the filter's value. */
  predicate Done(dst: array3<int>, src: array2<int>, y: int, x: int)
    requires dst.Length0 == src.Length0 && dst.Length1 == src.Length1 && dst.Length2 == 3
    requires 0 <= y < src.Length0 && 0 <= x < src.Length1
    reads dst, src
  {
    dst[y, x, 0] == Pixel(src, y, x) && dst[y, x, 1] == Pixel(src, y, x) && dst[y, x, 2] == Pixel(src, y, x)
  }

  lemma DoneMeans(dst: array3<int>, src: array2<int>, y: int, x: int)
    requires dst.Length0 == src.Length0 && dst.Length1 == src.Length1 && dst.Length2 == 3
    requires 0 <= y < src.Length0 && 0 <= x < src.Length1
    ensures Done(dst, src, y, x) <==> forall c :: 0 <= c < 3 ==> dst[y, x, c] == Pixel(src, y, x)
  {
  }

  predicate RowDone(dst: array3<int>, src: array2<int>, y: int, upto: int)
    requires dst.Length0 == src.Length0 && dst.Length1 == src.Length1 && dst.Length2 == 3
    requires 0 <= y < src.Length0 && upto <= src.Length1
    reads dst, src
  {
    forall x :: 0 <= x < upto ==> Done(dst, src, y, x)
  }

  method BorderPixel(src: array2<int>, x: nat, y: nat, w: array2<int>, dst: array3<int>)
    requires w.Length0 == 3 && w.Length1 == 3 && w != src
    requires dst.Length0 == src.Length0 && dst.Length1 == src.Length1 && dst.Length2 == 3
    requires y < src.Length0 && x < src.Length1
    modifies w, dst
    ensures Done(dst, src, y, x)
    ensures forall r, c :: 0 <= r < src.Length0 && 0 <= c < src.Length1 && old(Done(dst, src, r, c)) ==>
              Done(dst, src, r, c)
  {
    HalfWindow(src, x, y, w);
    var s := Sobel(w, src, y, x);
    dst[y, x, 0] := s;
    dst[y, x, 1] := s;
    dst[y, x, 2] := s;
  }

  method InnerPixel(src: array2<int>, x: nat, y: nat, w: array2<int>, dst: array3<int>)
    requires w.Length0 == 3 && w.Length1 == 3 && w != src
    requires dst.Length0 == src.Length0 && dst.Length1 == src.Length1 && dst.Length2 == 3
    requires 0 < y < src.Length0 - 1 && 0 < x < src.Length1 - 1
    modifies w, dst
    ensures Done(dst, src, y, x)
    ensures forall r, c :: 0 <= r < src.Length0 && 0 <= c < src.Length1 && old(Done(dst, src, r, c)) ==>
              Done(dst, src, r, c)
  {
    Window(src, x, y, w);
    var s := Sobel(w, src, y, x);
    dst[y, x, 0] := s;
    dst[y, x, 1] := s;
    dst[y, x, 2] := s;
  }

  method BorderRow(src: array2<int>, y: nat, w: array2<int>, dst: array3<int>)
    requires w.Length0 == 3 && w.Length1 == 3 && w != src
    requires dst.Length0 == src.Length0 && dst.Length1 == src.Length1 && dst.Length2 == 3
    requires y < src.Length0
    modifies w, dst
    ensures RowDone(dst, src, y, src.Length1)
    ensures forall r, c :: 0 <= r < src.Length0 && 0 <= c < src.Length1 && old(Done(dst, src, r, c)) ==>
              Done(dst, src, r, c)
  {
    var x := 0;
    while x < src.Length1
      invariant 0 <= x <= src.Length1 && RowDone(dst, src, y, x)
      invariant forall r, c :: 0 <= r < src.Length0 && 0 <= c < src.Length1 && old(Done(dst, src, r, c)) ==>
                  Done(dst, src, r, c)
    {
      BorderPixel(src, x, y, w, dst);
      x := x + 1;
    }
  }

  /** Every pixel of an image of any size is written, in all three channels, with the zero-padded gradient. */
  method Filter(src: array2<int>, dst: array3<int>)
    requires src.Length0 >= 1 && src.Length1 >= 1
    requires dst.Length0 == src.Length0 && dst.Length1 == src.Length1 && dst.Length2 == 3
    modifies dst
    ensures forall y, x :: 0 <= y < src.Length0 && 0 <= x < src.Length1 ==> Done(dst, src, y, x)
  {
    var w := new int[3, 3];
    BorderRow(src, 0, w, dst);
    var y := 1;
    while y < src.Length0 - 1
      invariant 1 <= y && (y <= src.Length0 - 1 || y == src.Length0 == 1)
      invariant forall r, c :: 0 <= r < y && 0 <= c < src.Length1 ==> Done(dst, src, r, c)
    {
      MiddleRow(src, y, w, dst);
      assert forall c :: 0 <= c < src.Length1 ==> Done(dst, src, y, c);
      y := y + 1;
    }
    BorderRow(src, src.Length0 - 1, w, dst);
    ghost var last := src.Length0 - 1;
    assert forall c :: 0 <= c < src.Length1 ==> Done(dst, src, last, c);
  }

  method MiddleRow(src: array2<int>, y: nat, w: array2<int>, dst: array3<int>)
    requires w.Length0 == 3 && w.Length1 == 3 && w != src
    requires dst.Length0 == src.Length0 && dst.Length1 == src.Length1 && dst.Length2 == 3
    requires 0 < y < src.Length0 - 1 && src.Length1 >= 1
    modifies w, dst
    ensures RowDone(dst, src, y, src.Length1)
    ensures forall r, c :: 0 <= r < src.Length0 && 0 <= c < src.Length1 && old(Done(dst, src, r, c)) ==>
              Done(dst, src, r, c)
  {
    BorderPixel(src, 0, y, w, dst);
    var x := 1;
    while x < src.Length1 - 1
      invariant 1 <= x <= src.Length1 && (src.Length1 >= 2 ==> x <= src.Length1 - 1)
      invariant RowDone(dst, src, y, x)
      invariant forall r, c :: 0 <= r < src.Length0 && 0 <= c < src.Length1 && old(Done(dst, src, r, c)) ==>
                  Done(dst, src, r, c)
    {
      InnerPixel(src, x, y, w, dst);
      x := x + 1;
    }
    BorderPixel(src, src.Length1 - 1, y, w, dst);
  }
}
