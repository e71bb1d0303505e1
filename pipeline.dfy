/**
 * The page loop shared by `full_process` and `ocr_only` of both manual
 * scripts, `upload_images` of the ElevenLabs web app and
 * `process_images_to_text` of the Speechify web app: photos are enumerated
 * from 1, an unreadable photo is skipped but uses up its number, each photo is
 * deskewed and split, and every part with non-empty text becomes a page
 * `(index, part, text)`. Also the two review-edit loops of `full_process` and
 * the paragraph chunking of the Speechify `tts_only`.
 */
module Pipeline {
  import opened Text
  import opened Wrappers
  import opened PageSplit
  import opened Normalizer
  import opened Ocr
  import opened PageIds

  /** A photo as read from disk (`cv2.imread`); only `deskew` looks at its
      pixels. */
  datatype Photo = Photo(bgr: Raster)

  /** One recognised part: photo number (from 1), part number (from 1), text. */
  datatype PageText = PageText(idx: nat, part: nat, text: string)

  /** The pages produced before the run ended, and the exception that ended
      it, if any (the ElevenLabs `ocr_ndarray` can raise). */
  datatype Run = Run(pages: seq<PageText>, failure: Option<OcrError>)

  /** The OCR step applied to one part. */
  type Recogniser = Image -> Result<string, OcrError>

  /** `ocr_ndarray` of the ElevenLabs script. */
  function ElevenOcr(langs: seq<string>, engine: Engine, spell: Option<SpellChecker>): Recogniser
  {
    (img: Image) => Select(Attempts(img, langs, engine, spell))
  }

  /** `ocr_ndarray` of the Speechify script, which never raises. */
  function SpeechifyOcr(langs: seq<string>, engine: Engine, spell: Option<SpellChecker>): Recogniser
  {
    (img: Image) => Ok(OcrJoined(img, langs, engine, spell))
  }

  /** `upload_images` cleans a non-empty OCR result a second time. */
  function WebUploadOcr(langs: seq<string>, engine: Engine, spell: Option<SpellChecker>): Recogniser
  {
    (img: Image) => match Select(Attempts(img, langs, engine, spell))
      case Ok(t) => Ok(if t != "" then Clean(t, spell) else t)
      case Err(e) => Err(e)
  }

  // ---------------------------------------------------------------------
  // Specification of the loops
  // ---------------------------------------------------------------------

  /** Pages of the parts of photo `idx`, parts numbered from 1. */
  function PartPages(idx: nat, parts: seq<Image>, recognise: Recogniser): Run
    decreases |parts|
  {
    if parts == [] then Run([], None)
    else
      var prev := PartPages(idx, parts[..|parts| - 1], recognise);
      if prev.failure.Some? then prev
      else match recognise(parts[|parts| - 1])
        case Err(e) => Run(prev.pages, Some(e))
        case Ok(t) => Run(prev.pages + (if t != "" then [PageText(idx, |parts|, t)] else []), None)
  }

  /** Pages of a list of photos; None is a photo that cannot be read. */
  function PagesOf(photos: seq<Option<Photo>>, deskew: Photo -> Image, recognise: Recogniser): Run
    decreases |photos|
  {
    if photos == [] then Run([], None)
    else Extend(PagesOf(photos[..|photos| - 1], deskew, recognise), photos[|photos| - 1], |photos|, deskew, recognise)
  }

  /** One pass of the photo loop, for photo number `idx`. */
  function Extend(prev: Run, photo: Option<Photo>, idx: nat, deskew: Photo -> Image, recognise: Recogniser): Run
  {
    if prev.failure.Some? then prev
    else match photo
      case None => prev
      case Some(p) =>
        var r := PartPages(idx, SplitTwoPages(deskew(p)), recognise);
        Run(prev.pages + r.pages, r.failure)
  }

  // ---------------------------------------------------------------------
  // The loops
  // ---------------------------------------------------------------------

  /** `for part_i, part in enumerate(parts, 1)` */
  method ExtractParts(idx: nat, parts: seq<Image>, recognise: Recogniser) returns (run: Run)
    ensures run == PartPages(idx, parts, recognise)
  {
    var pages: seq<PageText> := [];
    var j := 0;
    while j < |parts|
      invariant j <= |parts|
      invariant PartPages(idx, parts[..j], recognise) == Run(pages, None)
    {
      assert parts[..j + 1][..j] == parts[..j];
      var txt := recognise(parts[j]);
      if txt.Err? {
        assert PartPages(idx, parts[..j + 1], recognise) == Run(pages, Some(txt.error));
        PartPagesStop(idx, parts, recognise, j + 1);
        return Run(pages, Some(txt.error));
      }
      if txt.value != "" {
        pages := pages + [PageText(idx, j + 1, txt.value)];
      }
      j := j + 1;
    }
    assert parts[..j] == parts;
    return Run(pages, None);
  }

  /** `for idx, p in enumerate(imgs, 1)` */
  method ExtractPages(photos: seq<Option<Photo>>, deskew: Photo -> Image, recognise: Recogniser) returns (run: Run)
    ensures run == PagesOf(photos, deskew, recognise)
  {
    var pages: seq<PageText> := [];
    var i := 0;
    while i < |photos|
      invariant i <= |photos|
      invariant PagesOf(photos[..i], deskew, recognise) == Run(pages, None)
    {
      assert photos[..i + 1][..i] == photos[..i];
      var idx := i + 1;
      if photos[i].Some? {
        var thr := deskew(photos[i].value);
        var parts := SplitTwoPages(thr);
        var r := ExtractParts(idx, parts, recognise);
        pages := pages + r.pages;
        if r.failure.Some? {
          PagesOfStop(photos, deskew, recognise, i + 1);
          return Run(pages, r.failure);
        }
      }
      i := i + 1;
    }
    assert photos[..i] == photos;
    return Run(pages, None);
  }

  /** After a failure, later parts are not looked at. */
  lemma {:induction false} PartPagesStop(idx: nat, parts: seq<Image>, recognise: Recogniser, n: nat)
    requires n <= |parts| && PartPages(idx, parts[..n], recognise).failure.Some?
    ensures PartPages(idx, parts, recognise) == PartPages(idx, parts[..n], recognise)
    decreases |parts| - n
  {
    if n < |parts| {
      assert parts[..n + 1][..n] == parts[..n];
      PartPagesStop(idx, parts, recognise, n + 1);
    } else {
      assert parts[..n] == parts;
    }
  }

  /** After a failure, later photos are not looked at. */
  lemma {:induction false} PagesOfStop(photos: seq<Option<Photo>>, deskew: Photo -> Image, recognise: Recogniser, n: nat)
    requires n <= |photos| && PagesOf(photos[..n], deskew, recognise).failure.Some?
    ensures PagesOf(photos, deskew, recognise) == PagesOf(photos[..n], deskew, recognise)
    decreases |photos| - n
  {
    if n < |photos| {
      assert photos[..n + 1][..n] == photos[..n];
      PagesOfStop(photos, deskew, recognise, n + 1);
    } else {
      assert photos[..n] == photos;
    }
  }

  // ---------------------------------------------------------------------
  // Properties
  // ---------------------------------------------------------------------

  predicate EntryLess(a: PageText, b: PageText)
  {
    a.idx < b.idx || (a.idx == b.idx && a.part < b.part)
  }

  ghost predicate Increasing(ps: seq<PageText>)
  {
    forall a, b :: 0 <= a < b < |ps| ==> EntryLess(ps[a], ps[b])
  }

  /** What an entry says about the photo list: the photo at position
      `idx - 1` was readable, `part` is one of the parts of its split, and
      `text` is the non-empty OCR text of that part. */
  ghost predicate Genuine(photos: seq<Option<Photo>>, deskew: Photo -> Image, recognise: Recogniser, e: PageText)
  {
    && 1 <= e.idx <= |photos| && photos[e.idx - 1].Some?
    && var parts := SplitTwoPages(deskew(photos[e.idx - 1].value));
       1 <= e.part <= |parts| && e.text != "" && recognise(parts[e.part - 1]) == Ok(e.text)
  }

  lemma {:induction false} PartPagesShape(idx: nat, parts: seq<Image>, recognise: Recogniser)
    ensures var ps := PartPages(idx, parts, recognise).pages;
      && Increasing(ps)
      && forall a :: 0 <= a < |ps| ==>
           ps[a].idx == idx && 1 <= ps[a].part <= |parts| && ps[a].text != ""
           && recognise(parts[ps[a].part - 1]) == Ok(ps[a].text)
    decreases |parts|
  {
    if parts != [] {
      var init := parts[..|parts| - 1];
      PartPagesShape(idx, init, recognise);
      forall k | 0 <= k < |init| ensures init[k] == parts[k] { }
    }
  }

  lemma {:induction false} PagesOfShape(photos: seq<Option<Photo>>, deskew: Photo -> Image, recognise: Recogniser)
    ensures var ps := PagesOf(photos, deskew, recognise).pages;
      && Increasing(ps)
      && forall a :: 0 <= a < |ps| ==> Genuine(photos, deskew, recognise, ps[a])
    decreases |photos|
  {
    if photos != [] {
      var n := |photos|;
      var init, last := photos[..n - 1], photos[n - 1];
      PagesOfShape(init, deskew, recognise);
      PagesOfLast(photos, n, init, last, deskew, recognise);
      var prev := PagesOf(init, deskew, recognise);
      GenuineGrows(init, photos, deskew, recognise, prev.pages);
      if prev.failure.None? && last.Some? {
        var parts := SplitTwoPages(deskew(last.value));
        var r := PartPages(n, parts, recognise);
        PartPagesShape(n, parts, recognise);
        IncreasingAppend(prev.pages, r.pages, n);
        forall a | 0 <= a < |r.pages| ensures Genuine(photos, deskew, recognise, r.pages[a]) {
        }
        GenuineAppend(photos, deskew, recognise, prev.pages, r.pages);
      }
    }
  }

  /** Entries genuine for a prefix of the photos are genuine for all of
      them. */
  lemma GenuineGrows(init: seq<Option<Photo>>, photos: seq<Option<Photo>>, deskew: Photo -> Image, recognise: Recogniser,
                        ps: seq<PageText>)
    requires |init| <= |photos| && init == photos[..|init|]
    requires forall a :: 0 <= a < |ps| ==> Genuine(init, deskew, recognise, ps[a])
    ensures forall a :: 0 <= a < |ps| ==> Genuine(photos, deskew, recognise, ps[a]) && ps[a].idx <= |init|
  {
    forall a | 0 <= a < |ps| ensures Genuine(photos, deskew, recognise, ps[a]) && ps[a].idx <= |init| {
      assert init[ps[a].idx - 1] == photos[ps[a].idx - 1];
    }
  }

  lemma GenuineAppend(photos: seq<Option<Photo>>, deskew: Photo -> Image, recognise: Recogniser,
                         xs: seq<PageText>, ys: seq<PageText>)
    requires forall a :: 0 <= a < |xs| ==> Genuine(photos, deskew, recognise, xs[a])
    requires forall a :: 0 <= a < |ys| ==> Genuine(photos, deskew, recognise, ys[a])
    ensures forall a :: 0 <= a < |xs + ys| ==> Genuine(photos, deskew, recognise, (xs + ys)[a])
  {
  }

  /** Entries of earlier photos followed by increasing entries of photo `n`
      stay increasing. */
  lemma IncreasingAppend(xs: seq<PageText>, ys: seq<PageText>, n: nat)
    requires Increasing(xs) && Increasing(ys)
    requires forall a :: 0 <= a < |xs| ==> xs[a].idx < n
    requires forall b :: 0 <= b < |ys| ==> ys[b].idx == n
    ensures Increasing(xs + ys)
  {
  }

  /** Every entry is a genuine part of a readable photo, and the entries are
      strictly increasing in (photo number, part number), so no two share an
      identifier. */
  lemma PagesSoundAndIncreasing(photos: seq<Option<Photo>>, deskew: Photo -> Image, recognise: Recogniser)
    ensures var ps := PagesOf(photos, deskew, recognise).pages;
      && (forall a :: 0 <= a < |ps| ==> Genuine(photos, deskew, recognise, ps[a]))
      && (forall a, b :: 0 <= a < b < |ps| ==> EntryLess(ps[a], ps[b]))
      && (forall a, b :: 0 <= a < b < |ps| ==> PageId(ps[a].idx, ps[a].part) != PageId(ps[b].idx, ps[b].part))
  {
    PagesOfShape(photos, deskew, recognise);
    var ps := PagesOf(photos, deskew, recognise).pages;
    forall a, b | 0 <= a < b < |ps| ensures PageId(ps[a].idx, ps[a].part) != PageId(ps[b].idx, ps[b].part) {
      if PageId(ps[a].idx, ps[a].part) == PageId(ps[b].idx, ps[b].part) {
        PageIdInjective(ps[a].idx, ps[a].part, ps[b].idx, ps[b].part);
      }
    }
  }

  /** The same for the book-prefixed identifiers of the Speechify web app. */
  lemma BookPageIdsDistinct(book: string, photos: seq<Option<Photo>>, deskew: Photo -> Image, recognise: Recogniser)
    ensures var ps := PagesOf(photos, deskew, recognise).pages;
      forall a, b :: 0 <= a < b < |ps| ==> BookPageId(book, ps[a].idx, ps[a].part) != BookPageId(book, ps[b].idx, ps[b].part)
  {
    PagesOfShape(photos, deskew, recognise);
    var ps := PagesOf(photos, deskew, recognise).pages;
    forall a, b | 0 <= a < b < |ps|
      ensures BookPageId(book, ps[a].idx, ps[a].part) != BookPageId(book, ps[b].idx, ps[b].part)
    {
      if BookPageId(book, ps[a].idx, ps[a].part) == BookPageId(book, ps[b].idx, ps[b].part) {
        BookPageIdInjective(book, ps[a].idx, ps[a].part, ps[b].idx, ps[b].part);
      }
    }
  }

  lemma {:induction false} PartPagesComplete(idx: nat, parts: seq<Image>, recognise: Recogniser, j: nat, t: string)
    requires PartPages(idx, parts, recognise).failure.None?
    requires j < |parts| && recognise(parts[j]) == Ok(t) && t != ""
    ensures PageText(idx, j + 1, t) in PartPages(idx, parts, recognise).pages
    decreases |parts|
  {
    var init := parts[..|parts| - 1];
    if j < |parts| - 1 {
      assert init[j] == parts[j];
      PartPagesComplete(idx, init, recognise, j, t);
    }
  }

  /** When the run ends normally, every non-empty text of every part of every
      readable photo is an entry, numbered by the photo's position. */
  lemma {:induction false} PagesComplete(photos: seq<Option<Photo>>, deskew: Photo -> Image, recognise: Recogniser, k: nat, j: nat, t: string)
    requires PagesOf(photos, deskew, recognise).failure.None?
    requires k < |photos| && photos[k].Some?
    requires j < |SplitTwoPages(deskew(photos[k].value))|
    requires recognise(SplitTwoPages(deskew(photos[k].value))[j]) == Ok(t) && t != ""
    ensures PageText(k + 1, j + 1, t) in PagesOf(photos, deskew, recognise).pages
    decreases |photos|
  {
    var init := photos[..|photos| - 1];
    if k < |photos| - 1 {
      assert init[k] == photos[k];
      PagesComplete(init, deskew, recognise, k, j, t);
    } else {
      PartPagesComplete(|photos|, SplitTwoPages(deskew(photos[k].value)), recognise, j, t);
    }
  }

  /** The entries not coming from photo number `idx`. */
  function Without(ps: seq<PageText>, idx: nat): (r: seq<PageText>)
  {
    if ps == [] then []
    else Without(ps[..|ps| - 1], idx) + (if ps[|ps| - 1].idx == idx then [] else [ps[|ps| - 1]])
  }

  lemma {:induction false} WithoutAppend(a: seq<PageText>, b: seq<PageText>, idx: nat)
    ensures Without(a + b, idx) == Without(a, idx) + Without(b, idx)
    decreases |b|
  {
    if b == [] {
      assert a + b == a;
    } else {
      assert (a + b)[..|a + b| - 1] == a + b[..|b| - 1];
      WithoutAppend(a, b[..|b| - 1], idx);
    }
  }

  lemma {:induction false} WithoutNone(ps: seq<PageText>, idx: nat)
    requires forall a :: 0 <= a < |ps| ==> ps[a].idx != idx
    ensures Without(ps, idx) == ps
    decreases |ps|
  {
    if ps != [] {
      WithoutNone(ps[..|ps| - 1], idx);
    }
  }

  lemma {:induction false} WithoutAll(ps: seq<PageText>, idx: nat)
    requires forall a :: 0 <= a < |ps| ==> ps[a].idx == idx
    ensures Without(ps, idx) == []
    decreases |ps|
  {
    if ps != [] {
      WithoutAll(ps[..|ps| - 1], idx);
    }
  }

  /** The photo at position `k` made unreadable: the pages of every other
      photo keep their numbers, only the pages of photo `k + 1` disappear. */
  lemma SkippedPhotoKeepsNumbering(photos: seq<Option<Photo>>, deskew: Photo -> Image, recognise: Recogniser, k: nat)
    requires k < |photos| && PagesOf(photos, deskew, recognise).failure.None?
    ensures PagesOf(photos[k := None], deskew, recognise)
      == Run(Without(PagesOf(photos, deskew, recognise).pages, k + 1), None)
  {
    var n := |photos|;
    var skipped := photos[k := None];
    assert photos[..n] == photos && skipped[..n] == skipped;
    PagesUpToIsPagesOf(photos, n, deskew, recognise);
    PagesUpToIsPagesOf(skipped, n, deskew, recognise);
    SkipUpTo(photos, skipped, k, n, deskew, recognise);
  }

  /** The loop's run after the first `m` photos, counted on the whole list. */
  function PagesUpTo(photos: seq<Option<Photo>>, m: nat, deskew: Photo -> Image, recognise: Recogniser): Run
    requires m <= |photos|
    decreases m
  {
    if m == 0 then Run([], None)
    else Extend(PagesUpTo(photos, m - 1, deskew, recognise), photos[m - 1], m, deskew, recognise)
  }

  lemma {:induction false} PagesUpToIsPagesOf(photos: seq<Option<Photo>>, m: nat, deskew: Photo -> Image, recognise: Recogniser)
    requires m <= |photos|
    ensures PagesOf(photos[..m], deskew, recognise) == PagesUpTo(photos, m, deskew, recognise)
    decreases m
  {
    if m > 0 {
      PagesUpToIsPagesOf(photos, m - 1, deskew, recognise);
      var pre := photos[..m];
      assert pre[..m - 1] == photos[..m - 1];
      PagesOfLast(pre, m, photos[..m - 1], photos[m - 1], deskew, recognise);
    }
  }

  /** Skipping photo `k + 1`, counted over the first `m` photos. */
  lemma {:induction false} SkipUpTo(photos: seq<Option<Photo>>, skipped: seq<Option<Photo>>, k: nat, m: nat,
                                    deskew: Photo -> Image, recognise: Recogniser)
    requires k < m <= |photos| && skipped == photos[k := None]
    requires PagesUpTo(photos, m, deskew, recognise).failure.None?
    ensures PagesUpTo(skipped, m, deskew, recognise)
      == Run(Without(PagesUpTo(photos, m, deskew, recognise).pages, k + 1), None)
    decreases m
  {
    if m == k + 1 {
      SkipFirstUpTo(photos, skipped, k, deskew, recognise);
    } else {
      var prev := PagesUpTo(photos, m - 1, deskew, recognise);
      var before := PagesUpTo(skipped, m - 1, deskew, recognise);
      var last := photos[m - 1];
      assert skipped[m - 1] == last;
      assert PagesUpTo(photos, m, deskew, recognise) == Extend(prev, last, m, deskew, recognise);
      SkipUpTo(photos, skipped, k, m - 1, deskew, recognise);
      ExtendSkipped(PagesUpTo(skipped, m, deskew, recognise), before, prev,
                    PagesUpTo(photos, m, deskew, recognise), last, m, k + 1, deskew, recognise);
    }
  }

  /** The pass over photo `k + 1` itself, once it is unreadable. */
  lemma SkipFirstUpTo(photos: seq<Option<Photo>>, skipped: seq<Option<Photo>>, k: nat,
                      deskew: Photo -> Image, recognise: Recogniser)
    requires k < |photos| && skipped == photos[k := None]
    requires PagesUpTo(photos, k + 1, deskew, recognise).failure.None?
    ensures PagesUpTo(skipped, k + 1, deskew, recognise)
      == Run(Without(PagesUpTo(photos, k + 1, deskew, recognise).pages, k + 1), None)
  {
    var pre := photos[..k + 1];
    PagesUpToIsPagesOf(photos, k + 1, deskew, recognise);
    PagesUpToIsPagesOf(skipped, k + 1, deskew, recognise);
    assert skipped[..k + 1] == pre[k := None];
    SkipLast(pre, deskew, recognise);
  }

  /** The last pass on the run with an earlier photo's pages removed. */
  lemma ExtendSkipped(run: Run, before: Run, prev: Run, full: Run, last: Option<Photo>, n: nat, idx: nat,
                         deskew: Photo -> Image, recognise: Recogniser)
    requires idx != n && full == Extend(prev, last, n, deskew, recognise) && full.failure.None?
    requires before == Run(Without(prev.pages, idx), None) && run == Extend(before, last, n, deskew, recognise)
    ensures run == Run(Without(full.pages, idx), None)
  {
    assert prev.failure.None?;
    ExtendWithout(prev, last, n, idx, deskew, recognise);
  }

  /** The photo loop's last pass, on named parts. */
  lemma PagesOfLast(photos: seq<Option<Photo>>, n: nat, init: seq<Option<Photo>>, last: Option<Photo>,
                       deskew: Photo -> Image, recognise: Recogniser)
    requires n == |photos| > 0 && init == photos[..n - 1] && last == photos[n - 1]
    ensures PagesOf(photos, deskew, recognise) == Extend(PagesOf(init, deskew, recognise), last, n, deskew, recognise)
  {
  }

  /** Removing the pages of an earlier photo commutes with one later pass. */
  lemma ExtendWithout(prev: Run, photo: Option<Photo>, n: nat, idx: nat, deskew: Photo -> Image, recognise: Recogniser)
    requires prev.failure.None? && Extend(prev, photo, n, deskew, recognise).failure.None? && idx != n
    ensures Extend(Run(Without(prev.pages, idx), None), photo, n, deskew, recognise)
      == Run(Without(Extend(prev, photo, n, deskew, recognise).pages, idx), None)
  {
    if photo.Some? {
      var parts := SplitTwoPages(deskew(photo.value));
      var r := PartPages(n, parts, recognise);
      PartPagesShape(n, parts, recognise);
      WithoutAppend(prev.pages, r.pages, idx);
      WithoutNone(r.pages, idx);
    }
  }

  lemma SkipLast(photos: seq<Option<Photo>>, deskew: Photo -> Image, recognise: Recogniser)
    requires photos != [] && PagesOf(photos, deskew, recognise).failure.None?
    ensures PagesOf(photos[|photos| - 1 := None], deskew, recognise)
      == Run(Without(PagesOf(photos, deskew, recognise).pages, |photos|), None)
  {
    var n := |photos|;
    var init := photos[..n - 1];
    var prev := PagesOf(init, deskew, recognise);
    var skipped := photos[n - 1 := None];
    assert skipped[..n - 1] == init;
    PagesOfShape(init, deskew, recognise);
    forall a | 0 <= a < |prev.pages| ensures prev.pages[a].idx != n { }
    WithoutNone(prev.pages, n);
    if photos[n - 1].Some? {
      var r := PartPages(n, SplitTwoPages(deskew(photos[n - 1].value)), recognise);
      PartPagesShape(n, SplitTwoPages(deskew(photos[n - 1].value)), recognise);
      WithoutAppend(prev.pages, r.pages, n);
      WithoutAll(r.pages, n);
    }
  }

  // ---------------------------------------------------------------------
  // Review edit in `full_process`
  // ---------------------------------------------------------------------

  /** The lines typed before the first line satisfying `isEnd`; None when the
      input runs out first (`input()` raises EOFError). */
  function LinesBeforeEnd(input: seq<string>, isEnd: string -> bool): (r: Option<seq<string>>)
    ensures r.Some? ==> |r.value| < |input| && r.value == input[..|r.value|] && isEnd(input[|r.value|])
    ensures r.Some? ==> forall i :: 0 <= i < |r.value| ==> !isEnd(input[i])
    ensures r.None? <==> forall i :: 0 <= i < |input| ==> !isEnd(input[i])
  {
    if input == [] then None
    else if isEnd(input[0]) then Some([])
    else match LinesBeforeEnd(input[1..], isEnd)
      case None => None
      case Some(rest) => Some([input[0]] + rest)
  }

  predicate IsEndEleven(line: string) { line == "END" }

  predicate IsEndSpeechify(line: string) { Strip(line) == "END" }

  /** The review edit of the ElevenLabs script: the typed lines, joined by
      newlines, replace the text unless no line came before `END`. */
  method ReviewEditEleven(txt: string, input: seq<string>) returns (r: Option<string>)
    ensures r == match LinesBeforeEnd(input, IsEndEleven)
      case None => None
      case Some(lines) => Some(if lines != [] then Join("\n", lines) else txt)
  {
    var lines: seq<string> := [];
    var i := 0;
    while true
      invariant i <= |input| && lines == input[..i]
      invariant forall k :: 0 <= k < i ==> !IsEndEleven(input[k])
      decreases |input| - i
    {
      if i == |input| {
        return None;
      }
      var line := input[i];
      if line == "END" {
        break;
      }
      lines := lines + [line];
      i := i + 1;
    }
    LinesBeforeEndAt(input, IsEndEleven, i);
    if lines != [] {
      return Some(Join("\n", lines));
    }
    return Some(txt);
  }

  /** The review edit of the Speechify script: the typed lines before the
      first one that strips to `END`, joined by newlines, even when empty. */
  method ReviewEditSpeechify(input: seq<string>) returns (r: Option<string>)
    ensures r == match LinesBeforeEnd(input, IsEndSpeechify)
      case None => None
      case Some(lines) => Some(Join("\n", lines))
  {
    var lines: seq<string> := [];
    var i := 0;
    while true
      invariant i <= |input| && lines == input[..i]
      invariant forall k :: 0 <= k < i ==> !IsEndSpeechify(input[k])
      decreases |input| - i
    {
      if i == |input| {
        return None;
      }
      var line := input[i];
      if Strip(line) == "END" {
        break;
      }
      lines := lines + [line];
      i := i + 1;
    }
    LinesBeforeEndAt(input, IsEndSpeechify, i);
    return Some(Join("\n", lines));
  }

  lemma {:induction false} LinesBeforeEndAt(input: seq<string>, isEnd: string -> bool, i: nat)
    requires i < |input| && isEnd(input[i]) && forall k :: 0 <= k < i ==> !isEnd(input[k])
    ensures LinesBeforeEnd(input, isEnd) == Some(input[..i])
  {
    if i > 0 {
      forall k | 0 <= k < i - 1 ensures !isEnd(input[1..][k]) {
        assert input[1..][k] == input[k + 1];
      }
      LinesBeforeEndAt(input[1..], isEnd, i - 1);
      assert input[..i] == [input[0]] + input[1..][..i - 1];
    }
  }

  /** Typed lines never contain a newline, so the edited text splits back into
      exactly the lines that were typed. */
  lemma ReviewLinesRecoverable(lines: seq<string>)
    requires lines != []
    requires forall k, i :: 0 <= k < |lines| && 0 <= i < |lines[k]| ==> lines[k][i] != '\n'
    ensures Split(Join("\n", lines), "\n") == lines
  {
    SplitJoin(lines, '\n');
  }

  // ---------------------------------------------------------------------
  // A recogniser that never raises
  // ---------------------------------------------------------------------

  ghost predicate NeverFails(recognise: Recogniser)
  {
    forall img :: recognise(img).Ok?
  }

  lemma {:induction false} PartPagesNoFailure(idx: nat, parts: seq<Image>, recognise: Recogniser)
    requires NeverFails(recognise)
    ensures PartPages(idx, parts, recognise).failure.None?
    decreases |parts|
  {
    if parts != [] {
      PartPagesNoFailure(idx, parts[..|parts| - 1], recognise);
      assert recognise(parts[|parts| - 1]).Ok?;
    }
  }

  /** A recogniser that never raises lets the run go through every photo. */
  lemma {:induction false} PagesOfNoFailure(photos: seq<Option<Photo>>, deskew: Photo -> Image, recognise: Recogniser)
    requires NeverFails(recognise)
    ensures PagesOf(photos, deskew, recognise).failure.None?
    decreases |photos|
  {
    if photos != [] {
      PagesOfNoFailure(photos[..|photos| - 1], deskew, recognise);
      var photo := photos[|photos| - 1];
      if photo.Some? {
        PartPagesNoFailure(|photos|, SplitTwoPages(deskew(photo.value)), recognise);
      }
    }
  }

  /** The Speechify `ocr_ndarray` catches every engine error, so its runs
      never stop early, and `PagesComplete` applies to every one of them. */
  lemma SpeechifyRunCompletes(photos: seq<Option<Photo>>, deskew: Photo -> Image,
                                 langs: seq<string>, engine: Engine, spell: Option<SpellChecker>)
    ensures PagesOf(photos, deskew, SpeechifyOcr(langs, engine, spell)).failure.None?
  {
    PagesOfNoFailure(photos, deskew, SpeechifyOcr(langs, engine, spell));
  }

  /** The second `clean_text` of `upload_images` cannot raise: a part ends
      the web upload run exactly when it ends the ElevenLabs script's run
      (`PagesOfStop`), and an empty OCR result stays empty. */
  lemma WebUploadFailsLikeEleven(img: Image, langs: seq<string>, engine: Engine, spell: Option<SpellChecker>)
    ensures WebUploadOcr(langs, engine, spell)(img).Err? <==> ElevenOcr(langs, engine, spell)(img).Err?
    ensures ElevenOcr(langs, engine, spell)(img) == Ok("") ==> WebUploadOcr(langs, engine, spell)(img) == Ok("")
  {
  }

  // ---------------------------------------------------------------------
  // Paragraph chunks of the Speechify `tts_only`
  // ---------------------------------------------------------------------

  /** `[c.strip() for c in pieces if c.strip()]` */
  function NonBlankStripped(pieces: seq<string>): seq<string>
  {
    if pieces == [] then []
    else
      var c := Strip(pieces[|pieces| - 1]);
      NonBlankStripped(pieces[..|pieces| - 1]) + (if c != [] then [c] else [])
  }

  /** `[chunk.strip() for chunk in content.split('\n\n') if chunk.strip()]` */
  function ParagraphChunks(content: string): seq<string>
  {
    NonBlankStripped(Split(content, "\n\n"))
  }

  lemma {:induction false} NonBlankStrippedAppend(a: seq<string>, b: seq<string>)
    ensures NonBlankStripped(a + b) == NonBlankStripped(a) + NonBlankStripped(b)
    decreases |b|
  {
    if b == [] {
      assert a + b == a;
    } else {
      var init := b[..|b| - 1];
      var c := Strip(b[|b| - 1]);
      var last := if c != [] then [c] else [];
      assert (a + b)[..|a + b| - 1] == a + init;
      assert (a + b)[|a + b| - 1] == b[|b| - 1];
      NonBlankStrippedAppend(a, init);
      assert NonBlankStripped(a + b) == NonBlankStripped(a + init) + last;
      assert NonBlankStripped(b) == NonBlankStripped(init) + last;
    }
  }

  /** Every chunk is non-empty and already stripped. */
  lemma {:induction false} ChunksStripped(pieces: seq<string>)
    ensures forall i :: 0 <= i < |NonBlankStripped(pieces)| ==>
      NonBlankStripped(pieces)[i] != [] && Strip(NonBlankStripped(pieces)[i]) == NonBlankStripped(pieces)[i]
    decreases |pieces|
  {
    if pieces != [] {
      var init := pieces[..|pieces| - 1];
      var r := NonBlankStripped(pieces);
      ChunksStripped(init);
      StripIdempotent(pieces[|pieces| - 1]);
      assert r == NonBlankStripped(init) + (var c := Strip(pieces[|pieces| - 1]); if c != [] then [c] else []);
      forall i | 0 <= i < |r| ensures r[i] != [] && Strip(r[i]) == r[i] {
        if i < |NonBlankStripped(init)| {
          assert r[i] == NonBlankStripped(init)[i];
        }
      }
    }
  }

  /** Each non-blank piece contributes its stripped text. */
  lemma {:induction false} NoPieceDropped(pieces: seq<string>, k: nat)
    requires k < |pieces| && Strip(pieces[k]) != []
    ensures Strip(pieces[k]) in NonBlankStripped(pieces)
    decreases |pieces|
  {
    var init := pieces[..|pieces| - 1];
    if k < |init| {
      assert init[k] == pieces[k];
      NoPieceDropped(init, k);
    }
  }

  /** The chunks of a text made of two parts joined by a paragraph break are
      the chunks of the first part followed by those of the second: chunks
      keep the order of the content, and none is dropped or merged across
      the break. This needs the first part not to end in a newline, since a
      third newline would move the cut. */
  lemma ParagraphChunksOrder(a: string, b: string)
    requires a == [] || a[|a| - 1] != '\n'
    ensures ParagraphChunks(a + "\n\n" + b) == ParagraphChunks(a) + ParagraphChunks(b)
  {
    SplitAppend(a, "\n\n", b);
    NonBlankStrippedAppend(Split(a, "\n\n"), Split(b, "\n\n"));
  }

  /** The chunks of each piece in turn. */
  function EachChunks(pieces: seq<string>): seq<string>
  {
    if pieces == [] then [] else ParagraphChunks(pieces[0]) + EachChunks(pieces[1..])
  }

  /** The chunks of pieces joined by paragraph breaks are the chunks of each
      piece, in the order of the pieces, when no piece ends in a newline. */
  lemma {:induction false} JoinedChunks(pieces: seq<string>)
    requires pieces != []
    requires forall k :: 0 <= k < |pieces| ==> pieces[k] == [] || pieces[k][|pieces[k]| - 1] != '\n'
    ensures ParagraphChunks(Join("\n\n", pieces)) == EachChunks(pieces)
  {
    var rest := pieces[1..];
    if rest == [] {
      assert EachChunks(pieces) == ParagraphChunks(pieces[0]) + [];
    } else {
      JoinedChunks(rest);
      JoinCons("\n\n", pieces[0], rest);
      assert pieces == [pieces[0]] + rest;
      ParagraphChunksOrder(pieces[0], Join("\n\n", rest));
    }
  }
}
