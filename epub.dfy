/**
 * The filters `extract_text_from_epub` applies after parsing, in the
 * ElevenLabs web app and in the Speechify web app. Parsing is left to the
 * caller: each document item arrives as the text of its first h1–h3 heading,
 * the texts of all its h1–h6 headings and the texts of all its `p`/`div`
 * blocks, as BeautifulSoup's `get_text(..., strip=True)` gives them.
 */
module Epub {
  import opened Text
  import opened Wrappers

  datatype EpubItem = EpubItem(
    isDocument: bool,
    titleHeading: Option<string>,
    headings: seq<string>,
    blocks: seq<string>)

  /** Titles that mark a section that is not content. */
  const Indicators: seq<string> := ["cover", "title page", "copyright", "contents", "table of contents",
    "endorsements", "dedication", "acknowledgments", "back cover", "back ads"]

  /** `chapter_title`: the lower-cased first heading, or "". */
  function ChapterTitle(item: EpubItem): string
  {
    match item.titleHeading
    case None => ""
    case Some(t) => Lower(t)
  }

  /** `any(indicator in title for indicator in inds)` */
  function AnyIn(title: string, inds: seq<string>): (b: bool)
  {
    if inds == [] then false
    else Contains(title, inds[0]) || AnyIn(title, inds[1..])
  }

  lemma {:induction false} AnyInIff(title: string, inds: seq<string>)
    ensures AnyIn(title, inds) <==> exists k :: 0 <= k < |inds| && Contains(title, inds[k])
    decreases |inds|
  {
    if inds != [] {
      AnyInIff(title, inds[1..]);
      if Contains(title, inds[0]) {
        assert Contains(title, inds[0]);
      } else if AnyIn(title, inds[1..]) {
        var k :| 0 <= k < |inds[1..]| && Contains(title, inds[1..][k]);
        assert inds[k + 1] == inds[1..][k];
      } else {
        forall k | 0 <= k < |inds| ensures !Contains(title, inds[k]) {
          if k > 0 {
            assert inds[k] == inds[1..][k - 1];
          }
        }
      }
    }
  }

  /** The non-content test on the title, lower-cased once more. */
  predicate IsNonContent(title: string)
  {
    AnyIn(Lower(title), Indicators)
  }

  /** An item is skipped exactly when its lower-cased title contains one of
      the indicator strings. */
  lemma IsNonContentIff(title: string)
    ensures IsNonContent(title) <==> exists k :: 0 <= k < |Indicators| && Contains(Lower(title), Indicators[k])
  {
    AnyInIff(Lower(title), Indicators);
  }

  /** The indicators are matched as substrings, not as words: any title
      with "cover" somewhere inside it, such as "The Discovery", is skipped. */
  lemma SubstringMatch(title: string, k: nat)
    requires k + 5 <= |title| && Lower(title)[k..k + 5] == "cover"
    ensures IsNonContent(title)
  {
    var t := Lower(title);
    assert OccursAt(t, Indicators[0], k);
    ContainsIff(t, Indicators[0]);
    IsNonContentIff(title);
  }

  /** The items kept by the first loop, in order. */
  function ContentItems(items: seq<EpubItem>): seq<EpubItem>
    decreases |items|
  {
    if items == [] then []
    else
      var item := items[|items| - 1];
      ContentItems(items[..|items| - 1])
        + (if item.isDocument && !IsNonContent(ChapterTitle(item)) then [item] else [])
  }

  /** The first loop over `book.get_items()`. */
  method SelectContentItems(items: seq<EpubItem>) returns (selected: seq<EpubItem>)
    ensures selected == ContentItems(items)
  {
    selected := [];
    for i := 0 to |items|
      invariant selected == ContentItems(items[..i])
    {
      assert items[..i + 1][..i] == items[..i];
      var item := items[i];
      if item.isDocument {
        var title := ChapterTitle(item);
        if IsNonContent(title) {
          continue;
        }
        selected := selected + [item];
      }
    }
    assert items[..|items|] == items;
  }

  // ---------------------------------------------------------------------
  // Paragraphs of one item
  // ---------------------------------------------------------------------

  /** Only whitespace: `not p.strip()`, as `BlankIsStripEmpty` shows. */
  predicate Blank(p: string)
  {
    p == [] || (IsSpace(p[0]) && Blank(p[1..]))
  }

  lemma {:induction false} BlankAll(p: string)
    ensures Blank(p) <==> All(p, IsSpace)
  {
    if p != [] {
      BlankAll(p[1..]);
      assert forall i :: 1 <= i < |p| ==> p[i] == p[1..][i - 1];
    }
  }

  lemma BlankIsStripEmpty(p: string)
    ensures Blank(p) <==> Strip(p) == ""
  {
    BlankAll(p);
    StripEmptyIffBlank(p);
  }

  /** Each non-blank heading followed by an empty line. */
  function HeadingParagraphs(hs: seq<string>): seq<string>
    decreases |hs|
  {
    if hs == [] then []
    else HeadingParagraphs(hs[..|hs| - 1]) + (if !Blank(hs[|hs| - 1]) then [hs[|hs| - 1], ""] else [])
  }

  /** The non-blank blocks. */
  function BlockParagraphs(bs: seq<string>): seq<string>
    decreases |bs|
  {
    if bs == [] then []
    else BlockParagraphs(bs[..|bs| - 1]) + (if !Blank(bs[|bs| - 1]) then [bs[|bs| - 1]] else [])
  }

  function Paragraphs(item: EpubItem): seq<string>
  {
    HeadingParagraphs(item.headings) + BlockParagraphs(item.blocks)
  }

  /** The two loops building `paragraphs`. */
  method BuildParagraphs(item: EpubItem) returns (paragraphs: seq<string>)
    ensures paragraphs == Paragraphs(item)
  {
    paragraphs := [];
    var hs := item.headings;
    for i := 0 to |hs|
      invariant paragraphs == HeadingParagraphs(hs[..i])
    {
      assert hs[..i + 1][..i] == hs[..i];
      var text := hs[i];
      if !Blank(text) {
        paragraphs := paragraphs + [text];
        paragraphs := paragraphs + [""];
      }
    }
    assert hs[..|hs|] == hs;
    ghost var head := paragraphs;
    var bs := item.blocks;
    for i := 0 to |bs|
      invariant paragraphs == head + BlockParagraphs(bs[..i])
    {
      assert bs[..i + 1][..i] == bs[..i];
      var text := bs[i];
      if !Blank(text) {
        paragraphs := paragraphs + [text];
      }
    }
    assert bs[..|bs|] == bs;
  }

  // ---------------------------------------------------------------------
  // Collapsing blank runs
  // ---------------------------------------------------------------------

  /** What both `prev_empty` loops keep: every non-blank paragraph, and a
      blank one unless the paragraph before it is blank too. */
  function CollapseBlanks(ps: seq<string>): seq<string>
    decreases |ps|
  {
    if ps == [] then []
    else
      var n := |ps|;
      CollapseBlanks(ps[..n - 1]) + (if Blank(ps[n - 1]) && n > 1 && Blank(ps[n - 2]) then [] else [ps[n - 1]])
  }

  /** The loop of the ElevenLabs app, which sets `prev_empty` only when it
      keeps a blank paragraph. */
  method CollapseBlanksEleven(ps: seq<string>) returns (filtered: seq<string>)
    ensures filtered == CollapseBlanks(ps)
  {
    filtered := [];
    var prevEmpty := false;
    for i := 0 to |ps|
      invariant filtered == CollapseBlanks(ps[..i])
      invariant prevEmpty <==> i > 0 && Blank(ps[i - 1])
    {
      assert ps[..i + 1][..i] == ps[..i];
      var p := ps[i];
      if Blank(p) {
        if !prevEmpty {
          filtered := filtered + [p];
          prevEmpty := true;
        }
      } else {
        filtered := filtered + [p];
        prevEmpty := false;
      }
    }
    assert ps[..|ps|] == ps;
  }

  /** The loop of the Speechify app, which sets `prev_empty` on every blank
      paragraph. */
  method CollapseBlanksSpeechify(ps: seq<string>) returns (filtered: seq<string>)
    ensures filtered == CollapseBlanks(ps)
  {
    filtered := [];
    var prevEmpty := false;
    for i := 0 to |ps|
      invariant filtered == CollapseBlanks(ps[..i])
      invariant prevEmpty <==> i > 0 && Blank(ps[i - 1])
    {
      assert ps[..i + 1][..i] == ps[..i];
      var p := ps[i];
      if Blank(p) {
        if !prevEmpty {
          filtered := filtered + [p];
        }
        prevEmpty := true;
      } else {
        filtered := filtered + [p];
        prevEmpty := false;
      }
    }
    assert ps[..|ps|] == ps;
  }

  /** The non-blank paragraphs, in order. */
  function NonBlanks(ps: seq<string>): seq<string>
    decreases |ps|
  {
    if ps == [] then []
    else NonBlanks(ps[..|ps| - 1]) + (if Blank(ps[|ps| - 1]) then [] else [ps[|ps| - 1]])
  }

  ghost predicate NoAdjacentBlanks(ps: seq<string>)
  {
    forall i :: 0 < i < |ps| ==> !(Blank(ps[i - 1]) && Blank(ps[i]))
  }

  /** After collapsing, no two neighbouring paragraphs are both blank. */
  lemma {:induction false} CollapseBlanksNoAdjacent(ps: seq<string>)
    ensures NoAdjacentBlanks(CollapseBlanks(ps))
    ensures ps != [] ==> CollapseBlanks(ps) != [] && (Blank(CollapseBlanks(ps)[|CollapseBlanks(ps)| - 1]) <==> Blank(ps[|ps| - 1]))
    decreases |ps|
  {
    if ps != [] {
      var n := |ps|;
      var init := ps[..n - 1];
      CollapseBlanksNoAdjacent(init);
      var r := CollapseBlanks(init);
      if n > 1 {
        assert init[|init| - 1] == ps[n - 2];
      }
      if !(Blank(ps[n - 1]) && n > 1 && Blank(ps[n - 2])) {
        var r' := r + [ps[n - 1]];
        forall i | 0 < i < |r'| ensures !(Blank(r'[i - 1]) && Blank(r'[i])) {
          if i < |r'| - 1 {
            assert r'[i - 1] == r[i - 1] && r'[i] == r[i];
          }
        }
      }
    }
  }

  /** Collapsing keeps every non-blank paragraph, in order. */
  lemma {:induction false} CollapseBlanksKeepsText(ps: seq<string>)
    ensures NonBlanks(CollapseBlanks(ps)) == NonBlanks(ps)
    decreases |ps|
  {
    if ps != [] {
      var n := |ps|;
      var init := ps[..n - 1];
      CollapseBlanksKeepsText(init);
      var r := CollapseBlanks(init);
      assert NonBlanks(ps) == NonBlanks(init) + (if Blank(ps[n - 1]) then [] else [ps[n - 1]]);
      if !(Blank(ps[n - 1]) && n > 1 && Blank(ps[n - 2])) {
        assert CollapseBlanks(ps) == r + [ps[n - 1]];
        NonBlanksAppend(r, ps[n - 1]);
      } else {
        assert CollapseBlanks(ps) == r;
      }
    }
  }

  lemma NonBlanksAppend(ps: seq<string>, p: string)
    ensures NonBlanks(ps + [p]) == NonBlanks(ps) + (if Blank(p) then [] else [p])
  {
    assert (ps + [p])[..|ps|] == ps;
  }

  /** Collapsing a collapsed list changes nothing. */
  lemma {:induction false} CollapseBlanksIdempotent(ps: seq<string>)
    requires NoAdjacentBlanks(ps)
    ensures CollapseBlanks(ps) == ps
    decreases |ps|
  {
    if ps != [] {
      var init := ps[..|ps| - 1];
      assert NoAdjacentBlanks(init) by {
        assert forall i :: 0 <= i < |init| ==> init[i] == ps[i];
      }
      CollapseBlanksIdempotent(init);
    }
  }

  // ---------------------------------------------------------------------
  // The table-of-contents heuristic
  // ---------------------------------------------------------------------

  /** Length of the longest digit suffix. */
  function DigitSuffix(s: string): (d: nat)
    ensures d <= |s|
    ensures forall i :: |s| - d <= i < |s| ==> IsDigit(s[i])
    ensures d < |s| ==> !IsDigit(s[|s| - d - 1])
  {
    if s != [] && IsDigit(s[|s| - 1]) then 1 + DigitSuffix(s[..|s| - 1]) else 0
  }

  /** `re.search(r'\s\d+\s*$', line)`, computed on the line with trailing
      whitespace removed: its digit suffix must be non-empty and preceded by
      whitespace. */
  predicate PageNumberLine(line: string)
  {
    var t := TrimRight(line);
    var d := DigitSuffix(t);
    d >= 1 && |t| > d && IsSpace(t[|t| - d - 1])
  }

  /** A match of the pattern starting at `i`: whitespace, then digits up to
      `j`, then only whitespace to the end. */
  ghost predicate MatchAt(line: string, i: int, j: int)
  {
    0 <= i && i + 1 < j <= |line| && IsSpace(line[i])
    && (forall k :: i + 1 <= k < j ==> IsDigit(line[k]))
    && (forall k :: j <= k < |line| ==> IsSpace(line[k]))
  }

  /** The computed test agrees with the pattern. */
  lemma PageNumberLineIff(line: string)
    ensures PageNumberLine(line) <==> exists i, j :: MatchAt(line, i, j)
  {
    var t := TrimRight(line);
    TrimRightBlank(line);
    var d := DigitSuffix(t);
    if PageNumberLine(line) {
      assert MatchAt(line, |t| - d - 1, |t|);
    }
    if exists i, j :: MatchAt(line, i, j) {
      var i, j :| MatchAt(line, i, j);
      assert !IsSpace(line[j - 1]);
      assert |t| == j;
      assert t == line[..j];
      assert forall k :: i + 1 <= k < j ==> IsDigit(t[k]);
      assert !IsDigit(t[i]);
      assert d == j - i - 1;
    }
  }

  /** `sum(1 for line in lines if re.search(page_number_pattern, line))` */
  function CountPageNumberLines(lines: seq<string>): (c: nat)
    ensures c <= |lines|
    decreases |lines|
  {
    if lines == [] then 0
    else CountPageNumberLines(lines[..|lines| - 1]) + (if PageNumberLine(lines[|lines| - 1]) then 1 else 0)
  }

  /** `page_number_lines > 5 and page_number_lines / len(lines) > 0.3`, in
      exact arithmetic. */
  predicate LooksLikeToc(text: string)
  {
    var lines := Split(text, "\n");
    var c := CountPageNumberLines(lines);
    c > 5 && 10 * c > 3 * |lines|
  }

  /** A chapter is shorter than this is dropped by the ElevenLabs app. */
  const MinChapterLength: nat := 100

  // ---------------------------------------------------------------------
  // The chapters of the two apps
  // ---------------------------------------------------------------------

  /** The ElevenLabs app's text of one kept item, if the item survives. */
  function ElevenChapter(item: EpubItem): Option<string>
  {
    var text := Join("\n\n", CollapseBlanks(Paragraphs(item)));
    if |text| < MinChapterLength || LooksLikeToc(text) || Blank(text) then None else Some(text)
  }

  /** The Speechify app's text of one kept item, if the item survives. */
  function SpeechifyChapter(item: EpubItem): Option<string>
  {
    var text := Join("\n", CollapseBlanks(Paragraphs(item)));
    if Blank(text) then None else Some(text)
  }

  function Surviving(items: seq<EpubItem>, chapter: EpubItem -> Option<string>): seq<string>
    decreases |items|
  {
    if items == [] then []
    else
      var c := chapter(items[|items| - 1]);
      Surviving(items[..|items| - 1], chapter) + (if c.Some? then [c.value] else [])
  }

  /** One more item adds its chapter, if it has one. */
  lemma SurvivingStep(items: seq<EpubItem>, i: nat, chapter: EpubItem -> Option<string>)
    requires i < |items|
    ensures var c := chapter(items[i]);
      Surviving(items[..i + 1], chapter) == Surviving(items[..i], chapter) + (if c.Some? then [c.value] else [])
  {
    var prefix := items[..i + 1];
    assert prefix[..|prefix| - 1] == items[..i] && prefix[|prefix| - 1] == items[i];
  }

  /** The body of the ElevenLabs loop for one item. */
  method ElevenChapterOf(item: EpubItem) returns (chapter: Option<string>)
    ensures chapter == ElevenChapter(item)
  {
    var paragraphs := BuildParagraphs(item);
    var filtered := CollapseBlanksEleven(paragraphs);
    var chapterText := Join("\n\n", filtered);
    if |chapterText| < MinChapterLength {
      return None;
    }
    var lines := Split(chapterText, "\n");
    var pageNumberLines := CountPageNumberLines(lines);
    if pageNumberLines > 5 && 10 * pageNumberLines > 3 * |lines| {
      return None;
    }
    BlankIsStripEmpty(chapterText);
    if Strip(chapterText) != "" {
      return Some(chapterText);
    }
    return None;
  }

  /** The body of the Speechify loop for one item. */
  method SpeechifyChapterOf(item: EpubItem) returns (chapter: Option<string>)
    ensures chapter == SpeechifyChapter(item)
  {
    var paragraphs := BuildParagraphs(item);
    var filtered := CollapseBlanksSpeechify(paragraphs);
    var chapterText := Join("\n", filtered);
    BlankIsStripEmpty(chapterText);
    if Strip(chapterText) != "" {
      return Some(chapterText);
    }
    return None;
  }

  /** `extract_text_from_epub` of the ElevenLabs web app. */
  method ExtractChaptersEleven(items: seq<EpubItem>) returns (chapters: seq<string>)
    ensures chapters == Surviving(ContentItems(items), ElevenChapter)
  {
    var selected := SelectContentItems(items);
    chapters := [];
    for i := 0 to |selected|
      invariant chapters == Surviving(selected[..i], ElevenChapter)
    {
      SurvivingStep(selected, i, ElevenChapter);
      var chapter := ElevenChapterOf(selected[i]);
      if chapter.Some? {
        chapters := chapters + [chapter.value];
      }
    }
    assert selected[..|selected|] == selected;
  }

  /** `extract_text_from_epub` of the Speechify web app. */
  method ExtractChaptersSpeechify(items: seq<EpubItem>) returns (chapters: seq<string>)
    ensures chapters == Surviving(ContentItems(items), SpeechifyChapter)
  {
    var selected := SelectContentItems(items);
    chapters := [];
    for i := 0 to |selected|
      invariant chapters == Surviving(selected[..i], SpeechifyChapter)
    {
      SurvivingStep(selected, i, SpeechifyChapter);
      var chapter := SpeechifyChapterOf(selected[i]);
      if chapter.Some? {
        chapters := chapters + [chapter.value];
      }
    }
    assert selected[..|selected|] == selected;
  }

  /** What a kept ElevenLabs chapter satisfies. */
  lemma ElevenChapterSome(item: EpubItem)
    requires ElevenChapter(item).Some?
    ensures var c := ElevenChapter(item).value;
      |c| >= MinChapterLength && !LooksLikeToc(c) && !Blank(c)
  {
  }

  /** Every chapter of the ElevenLabs app is at least 100 characters long,
      not blank, does not look like a table of contents, and is the text of
      some document item whose title has no indicator. */
  lemma ElevenChaptersFiltered(items: seq<EpubItem>)
    ensures forall c :: c in Surviving(ContentItems(items), ElevenChapter) ==>
      && |c| >= MinChapterLength && !LooksLikeToc(c) && !Blank(c)
      && exists item :: item in items && item.isDocument && !IsNonContent(ChapterTitle(item)) && ElevenChapter(item) == Some(c)
  {
    SurvivingSound(ContentItems(items), ElevenChapter);
    ContentItemsSound(items);
    forall c | c in Surviving(ContentItems(items), ElevenChapter)
      ensures && |c| >= MinChapterLength && !LooksLikeToc(c) && !Blank(c)
              && exists item :: item in items && item.isDocument && !IsNonContent(ChapterTitle(item)) && ElevenChapter(item) == Some(c)
    {
      var item :| item in ContentItems(items) && ElevenChapter(item) == Some(c);
      ElevenChapterSome(item);
    }
  }

  /** The items kept by the first loop are document items without an
      indicator in their title. */
  lemma {:induction false} ContentItemsSound(items: seq<EpubItem>)
    ensures forall item :: item in ContentItems(items) ==>
      item in items && item.isDocument && !IsNonContent(ChapterTitle(item))
    decreases |items|
  {
    if items != [] {
      ContentItemsSound(items[..|items| - 1]);
    }
  }

  /** Every surviving chapter is the chapter of one of the items. */
  lemma {:induction false} SurvivingSound(items: seq<EpubItem>, chapter: EpubItem -> Option<string>)
    ensures forall c :: c in Surviving(items, chapter) ==> exists item :: item in items && chapter(item) == Some(c)
    decreases |items|
  {
    if items != [] {
      var init := items[..|items| - 1];
      SurvivingSound(init, chapter);
      forall c | c in Surviving(items, chapter)
        ensures exists item :: item in items && chapter(item) == Some(c)
      {
        if c in Surviving(init, chapter) {
          var item :| item in init && chapter(item) == Some(c);
          assert item in items;
        } else {
          assert chapter(items[|items| - 1]) == Some(c);
        }
      }
    }
  }

  lemma {:induction false} SurvivingAppend(a: seq<EpubItem>, b: seq<EpubItem>, chapter: EpubItem -> Option<string>)
    ensures Surviving(a + b, chapter) == Surviving(a, chapter) + Surviving(b, chapter)
    decreases |b|
  {
    if b == [] {
      assert a + b == a;
    } else {
      assert (a + b)[..|a + b| - 1] == a + b[..|b| - 1];
      SurvivingAppend(a, b[..|b| - 1], chapter);
    }
  }

  // ---------------------------------------------------------------------
  // When a Speechify chapter is kept
  // ---------------------------------------------------------------------

  /** A character that is not whitespace. */
  ghost predicate HasText(s: string)
  {
    exists i :: 0 <= i < |s| && !IsSpace(s[i])
  }

  lemma BlankIff(s: string)
    ensures Blank(s) <==> !HasText(s)
  {
    BlankAll(s);
  }

  /** A join over a whitespace separator has text exactly when one of the
      parts has. */
  lemma {:induction false} JoinHasText(sep: string, ps: seq<string>)
    requires All(sep, IsSpace)
    ensures HasText(Join(sep, ps)) <==> exists k :: 0 <= k < |ps| && HasText(ps[k])
    decreases |ps|
  {
    if |ps| > 1 {
      JoinHasText(sep, ps[1..]);
      var rest := Join(sep, ps[1..]);
      assert Join(sep, ps) == ps[0] + sep + rest;
      HasTextConcat(ps[0], sep, rest);
      SomeHasTextCons(ps);
    } else if |ps| == 1 {
      assert Join(sep, ps) == ps[0];
    }
  }

  /** Text around a whitespace separator has text exactly when one side
      has. */
  lemma HasTextConcat(a: string, sep: string, b: string)
    requires All(sep, IsSpace)
    ensures HasText(a + sep + b) <==> HasText(a) || HasText(b)
  {
    var s := a + sep + b;
    if HasText(s) {
      var i :| 0 <= i < |s| && !IsSpace(s[i]);
      if i < |a| {
        assert s[i] == a[i];
      } else if i >= |a| + |sep| {
        assert s[i] == b[i - |a| - |sep|];
      } else {
        assert false;
      }
    }
    if HasText(a) {
      var i :| 0 <= i < |a| && !IsSpace(a[i]);
      assert s[i] == a[i];
    }
    if HasText(b) {
      var j :| 0 <= j < |b| && !IsSpace(b[j]);
      assert s[|a| + |sep| + j] == b[j];
    }
  }

  lemma SomeHasTextCons(ps: seq<string>)
    requires ps != []
    ensures (exists k :: 0 <= k < |ps| && HasText(ps[k])) <==>
      HasText(ps[0]) || exists k :: 0 <= k < |ps[1..]| && HasText(ps[1..][k])
  {
    if exists k :: 0 <= k < |ps| && HasText(ps[k]) {
      var k :| 0 <= k < |ps| && HasText(ps[k]);
      if k > 0 {
        assert ps[1..][k - 1] == ps[k];
      }
    }
    if exists k :: 0 <= k < |ps[1..]| && HasText(ps[1..][k]) {
      var k :| 0 <= k < |ps[1..]| && HasText(ps[1..][k]);
      assert ps[k + 1] == ps[1..][k];
    }
  }

  lemma {:induction false} NonBlanksEmptyIff(ps: seq<string>)
    ensures NonBlanks(ps) == [] <==> forall k :: 0 <= k < |ps| ==> Blank(ps[k])
    decreases |ps|
  {
    if ps != [] {
      NonBlanksEmptyIff(ps[..|ps| - 1]);
    }
  }

  /** A Speechify chapter is kept exactly when some heading or block of the
      item has text. */
  lemma SpeechifyChapterKept(item: EpubItem)
    ensures SpeechifyChapter(item).Some? <==>
      (exists k :: 0 <= k < |item.headings| && !Blank(item.headings[k]))
      || (exists k :: 0 <= k < |item.blocks| && !Blank(item.blocks[k]))
  {
    var ps := Paragraphs(item);
    var filtered := CollapseBlanks(ps);
    var text := Join("\n", filtered);
    assert SpeechifyChapter(item).Some? <==> !Blank(text);
    TextIffNonBlank("\n", filtered);
    assert !Blank(text) <==> NonBlanks(filtered) != [];
    CollapseBlanksKeepsText(ps);
    NonBlanksEmptyIff(ps);
    assert !Blank(text) <==> exists k :: 0 <= k < |ps| && !Blank(ps[k]);
    HeadingParagraphsText(item.headings);
    BlockParagraphsText(item.blocks);
    ConcatHasNonBlank(HeadingParagraphs(item.headings), BlockParagraphs(item.blocks));
  }

  /** A join over a newline has text exactly when some part is not blank. */
  lemma TextIffNonBlank(sep: string, ps: seq<string>)
    requires All(sep, IsSpace)
    ensures !Blank(Join(sep, ps)) <==> NonBlanks(ps) != []
  {
    JoinHasText(sep, ps);
    BlankIff(Join(sep, ps));
    forall k | 0 <= k < |ps| ensures HasText(ps[k]) <==> !Blank(ps[k]) {
      BlankIff(ps[k]);
    }
    NonBlanksEmptyIff(ps);
  }

  lemma ConcatHasNonBlank(a: seq<string>, b: seq<string>)
    ensures (exists k :: 0 <= k < |a + b| && !Blank((a + b)[k])) <==>
      (exists p :: p in a && !Blank(p)) || (exists p :: p in b && !Blank(p))
  {
    if exists p :: p in b && !Blank(p) {
      var p :| p in b && !Blank(p);
      var k :| 0 <= k < |b| && b[k] == p;
      assert (a + b)[|a| + k] == p;
    }
    if exists p :: p in a && !Blank(p) {
      var p :| p in a && !Blank(p);
      var k :| 0 <= k < |a| && a[k] == p;
      assert (a + b)[k] == p;
    }
    if exists k :: 0 <= k < |a + b| && !Blank((a + b)[k]) {
      var k :| 0 <= k < |a + b| && !Blank((a + b)[k]);
      if k < |a| {
        assert a[k] in a;
      } else {
        assert b[k - |a|] in b;
      }
    }
  }

  /** The heading paragraphs hold text exactly when a heading does. */
  lemma {:induction false} HeadingParagraphsText(hs: seq<string>)
    ensures (exists p :: p in HeadingParagraphs(hs) && !Blank(p)) <==> exists k :: 0 <= k < |hs| && !Blank(hs[k])
    decreases |hs|
  {
    if hs != [] {
      var init := hs[..|hs| - 1];
      HeadingParagraphsText(init);
      assert Blank("");
      if exists k :: 0 <= k < |hs| && !Blank(hs[k]) {
        var k :| 0 <= k < |hs| && !Blank(hs[k]);
        if k < |init| {
          assert init[k] == hs[k];
        }
      }
      if exists k :: 0 <= k < |init| && !Blank(init[k]) {
        var k :| 0 <= k < |init| && !Blank(init[k]);
        assert hs[k] == init[k];
      }
    }
  }

  /** The block paragraphs hold text exactly when a block does. */
  lemma {:induction false} BlockParagraphsText(bs: seq<string>)
    ensures (exists p :: p in BlockParagraphs(bs) && !Blank(p)) <==> exists k :: 0 <= k < |bs| && !Blank(bs[k])
    decreases |bs|
  {
    if bs != [] {
      var init := bs[..|bs| - 1];
      BlockParagraphsText(init);
      if exists k :: 0 <= k < |bs| && !Blank(bs[k]) {
        var k :| 0 <= k < |bs| && !Blank(bs[k]);
        if k < |init| {
          assert init[k] == bs[k];
        }
      }
      if exists k :: 0 <= k < |init| && !Blank(init[k]) {
        var k :| 0 <= k < |init| && !Blank(init[k]);
        assert bs[k] == init[k];
      }
    }
  }
}
