/**
 * The two-page-spread splitter `maybe_split_two_pages`, which both manual
 * scripts define identically. Its input is the binarised, deskewed page: a
 * rectangle of pixel values in which 255 is background (white).
 */
module PageSplit {

  /** A pixel raster as OpenCV hands it over: `rows` rows of `width` values. */
  datatype Raster = Raster(width: nat, rows: seq<seq<int>>)

  ghost predicate Rectangular(r: Raster)
  {
    forall i :: 0 <= i < |r.rows| ==> |r.rows[i]| == r.width
  }

  /** A NumPy image is always rectangular. */
  type Image = r: Raster | Rectangular(r) witness Raster(0, [])

  /** The "white" pixel value the column counts look for. */
  const White: int := 255

  /** Images narrower than this are never split. */
  const MinSplitWidth: nat := 80

  /** `(img == 255).sum(axis=0)[j]` restricted to the first `n` rows. */
  function ColumnWhite(img: Image, j: nat, n: nat): (c: nat)
    requires j < img.width && n <= |img.rows|
    ensures c <= n
  {
    if n == 0 then 0
    else ColumnWhite(img, j, n - 1) + (if img.rows[n - 1][j] == White then 1 else 0)
  }

  /** Sum of the white counts of the columns `lo .. hi - 1`. */
  function BandSum(img: Image, lo: nat, hi: nat): (s: nat)
    requires lo <= hi <= img.width
    ensures s <= (hi - lo) * |img.rows|
    decreases hi - lo
  {
    if lo == hi then 0 else ColumnWhite(img, hi - 1, |img.rows|) + BandSum(img, lo, hi - 1)
  }

  /** For `w >= 80` the three bands `[c - w/20, c + w/20)` around `w/4`, `w/2`
      and `3w/4` lie inside the image and are non-empty. */
  lemma BandsInside(w: nat)
    requires w >= MinSplitWidth
    ensures w / 20 >= 4
    ensures 0 <= w / 4 - w / 20 && w / 4 + w / 20 <= w / 2 - w / 20
    ensures w / 2 + w / 20 <= 3 * w / 4 - w / 20 && 3 * w / 4 + w / 20 <= w
  {
  }

  /** `col_white[c - half : c + half].mean()` */
  function BandMean(img: Image, c: nat, half: nat): real
    requires half > 0 && half <= c && c + half <= img.width
  {
    BandSum(img, c - half, c + half) as real / (2 * half) as real
  }

  /** Column slice `img[:, lo:hi]`. */
  function Columns(img: Image, lo: nat, hi: nat): (part: Image)
    requires lo <= hi <= img.width
    ensures part.width == hi - lo && |part.rows| == |img.rows|
    ensures forall i :: 0 <= i < |img.rows| ==> part.rows[i] == img.rows[i][lo..hi]
  {
    Raster(hi - lo, seq(|img.rows|, i requires 0 <= i < |img.rows| => img.rows[i][lo..hi]))
  }

  /** The spread test of the source, on the three band means. */
  predicate LooksLikeSpread(img: Image)
    requires img.width >= MinSplitWidth
  {
    var w := img.width;
    BandsInside(w);
    var mid := BandMean(img, w / 2, w / 20);
    var left := BandMean(img, w / 4, w / 20);
    var right := BandMean(img, 3 * w / 4, w / 20);
    mid > 1.15 * left && mid > 1.15 * right
  }

  /** `maybe_split_two_pages` */
  function SplitTwoPages(img: Image): (parts: seq<Image>)
  {
    if img.width < MinSplitWidth then [img]
    else if LooksLikeSpread(img) then [Columns(img, 0, img.width / 2), Columns(img, img.width / 2, img.width)]
    else [img]
  }

  /** Because the bands have one common length, comparing means with the
      factor 1.15 is comparing sums with 100 against 115. */
  lemma MeanComparison(sm: nat, so: nat, len: nat)
    requires len > 0
    ensures (sm as real / len as real > 1.15 * (so as real / len as real)) <==> 100 * sm > 115 * so
  {
    var l := len as real;
    var m, o := sm as real / l, so as real / l;
    assert m * l == sm as real;
    assert o * l == so as real;
    assert (m > 1.15 * o) <==> (m * l > 1.15 * o * l);
  }

  /** White-pixel sums of the centre, left-quarter and right-quarter bands. */
  function BandSums(img: Image): (s: (nat, nat, nat))
    requires img.width >= MinSplitWidth
  {
    var w, h := img.width, img.width / 20;
    BandsInside(w);
    (BandSum(img, w / 2 - h, w / 2 + h), BandSum(img, w / 4 - h, w / 4 + h),
     BandSum(img, 3 * w / 4 - h, 3 * w / 4 + h))
  }

  /** The spread test as integer arithmetic on the band sums. */
  lemma SpreadIffSums(img: Image)
    requires img.width >= MinSplitWidth
    ensures var (mid, left, right) := BandSums(img);
      LooksLikeSpread(img) <==> 100 * mid > 115 * left && 100 * mid > 115 * right
  {
    var w, h := img.width, img.width / 20;
    BandsInside(w);
    var (mid, left, right) := BandSums(img);
    MeanComparison(mid, left, 2 * h);
    MeanComparison(mid, right, 2 * h);
  }

  /** What the splitter returns: the image itself, or its left and right
      halves (widths `w/2` and `w - w/2`, all rows) whose rows concatenate back
      to the rows of the image; two parts exactly when the spread test holds. */
  lemma SplitTwoPagesSpec(img: Image)
    ensures var parts := SplitTwoPages(img);
      && (|parts| == 1 || |parts| == 2)
      && (img.width < MinSplitWidth ==> parts == [img])
      && (|parts| == 1 ==> parts[0] == img)
      && (|parts| == 2 <==> img.width >= MinSplitWidth && LooksLikeSpread(img))
      && (|parts| == 2 ==>
            && parts[0].width == img.width / 2
            && parts[1].width == img.width - img.width / 2
            && |parts[0].rows| == |parts[1].rows| == |img.rows|
            && forall i :: 0 <= i < |img.rows| ==> parts[0].rows[i] + parts[1].rows[i] == img.rows[i])
  {
    var parts := SplitTwoPages(img);
    if |parts| == 2 {
      forall i | 0 <= i < |img.rows| ensures parts[0].rows[i] + parts[1].rows[i] == img.rows[i] {
        assert img.rows[i] == img.rows[i][..img.width / 2] + img.rows[i][img.width / 2..];
      }
    }
  }
}
