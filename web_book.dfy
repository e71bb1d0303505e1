/**
 * The book records of the Speechify web app (bookaudio_web_speechify.py):
 * the book name the upload form gives, cleaned for use in file names, and
 * the page routes that look a page up by its position, overwrite its text
 * or hand it to the narrator. The JSON file a book lives in is read before
 * and written after each route; here it is the `Option<BookData>` the
 * route starts from (`None` when the file does not exist).
 */
module WebBook {
  import opened Wrappers
  import opened Text

  // ---------------------------------------------------------------------
  // Cleaning the book name
  // ---------------------------------------------------------------------

  /** `[\w\s-]`: what the first rewrite keeps. */
  predicate NameChar(c: char) { IsWordChar(c) || IsSpace(c) || c == '-' }

  /** `[-\s]`: what the second rewrite turns into underscores. */
  predicate IsBreak(c: char) { c == '-' || IsSpace(c) }

  /** The characters of `s` satisfying `p`, in order. */
  function Only(s: string, p: char -> bool): string
    decreases |s|
  {
    if s == [] then [] else (if p(s[0]) then [s[0]] else []) + Only(s[1..], p)
  }

  /** The name the form gives: the `book_name` field stripped, defaulting
      to `untitled` when the field is missing (the default `get` supplies,
      which strips to itself) or blank. */
  function GivenName(field: Option<string>): (name: string)
    ensures name != [] && !IsSpace(name[0]) && !IsSpace(name[|name| - 1])
    ensures field.Some? && Strip(field.value) != [] ==> name == Strip(field.value)
    ensures (field.None? || Strip(field.value) == []) ==> name == "untitled"
  {
    if field.Some? && Strip(field.value) != [] then
      StripEnds(field.value);
      Strip(field.value)
    else
      "untitled"
  }

  /** A non-empty strip starts and ends with a non-whitespace character. */
  lemma StripEnds(s: string)
    requires Strip(s) != []
    ensures !IsSpace(Strip(s)[0]) && !IsSpace(Strip(s)[|Strip(s)| - 1])
  {
    var l := TrimLeft(s);
    var r := TrimRight(l);
    assert r == l[..|r|];
    assert r[0] == l[0];
  }

  /** `upload`: the given name with everything outside `[\w\s-]` deleted,
      stripped again, and each run of hyphens and whitespace turned into
      one underscore. */
  function BookName(field: Option<string>): string
  {
    ReplaceRuns(Strip(Only(GivenName(field), NameChar)), IsBreak, "_")
  }

  lemma {:induction false} OnlyAppend(a: string, b: string, p: char -> bool)
    ensures Only(a + b, p) == Only(a, p) + Only(b, p)
    decreases |a|
  {
    if a == [] {
      assert a + b == b;
    } else {
      var h := if p(a[0]) then [a[0]] else [];
      var ab := a + b;
      assert ab[0] == a[0] && ab[1..] == a[1..] + b;
      OnlyAppend(a[1..], b, p);
      assert Only(ab, p) == h + (Only(a[1..], p) + Only(b, p));
      assert Only(a, p) == h + Only(a[1..], p);
    }
  }

  lemma {:induction false} OnlyNone(a: string, p: char -> bool)
    requires forall i :: 0 <= i < |a| ==> !p(a[i])
    ensures Only(a, p) == []
    decreases |a|
  {
    if a != [] {
      assert forall i :: 0 <= i < |a[1..]| ==> a[1..][i] == a[i + 1];
      OnlyNone(a[1..], p);
    }
  }

  lemma {:induction false} OnlyAll(a: string, p: char -> bool)
    requires forall i :: 0 <= i < |a| ==> p(a[i])
    ensures Only(a, p) == a
    decreases |a|
  {
    if a != [] {
      assert forall i :: 0 <= i < |a[1..]| ==> a[1..][i] == a[i + 1];
      OnlyAll(a[1..], p);
      assert a == [a[0]] + a[1..];
    }
  }

  lemma {:induction false} OnlySatisfies(a: string, p: char -> bool)
    ensures forall i :: 0 <= i < |Only(a, p)| ==> p(Only(a, p)[i])
    decreases |a|
  {
    if a != [] {
      OnlySatisfies(a[1..], p);
      var h := if p(a[0]) then [a[0]] else [];
      assert Only(a, p) == h + Only(a[1..], p);
    }
  }

  /** Keeping name characters and then letters and digits keeps the
      letters and digits. */
  lemma {:induction false} OnlyNameAlnum(a: string)
    ensures Only(Only(a, NameChar), IsAlnum) == Only(a, IsAlnum)
    decreases |a|
  {
    if a != [] {
      OnlyNameAlnum(a[1..]);
      var h := if NameChar(a[0]) then [a[0]] else [];
      assert Only(a, NameChar) == h + Only(a[1..], NameChar);
      OnlyAppend(h, Only(a[1..], NameChar), IsAlnum);
    }
  }

  /** Stripping removes no letter or digit. */
  lemma StripAlnum(s: string)
    ensures Only(Strip(s), IsAlnum) == Only(s, IsAlnum)
  {
    TrimLeftAlnum(s);
    TrimRightAlnum(TrimLeft(s));
  }

  lemma TrimLeftAlnum(s: string)
    ensures Only(TrimLeft(s), IsAlnum) == Only(s, IsAlnum)
  {
    var l := TrimLeft(s);
    TrimLeftBlank(s);
    var k := |s| - |l|;
    assert s == s[..k] + l;
    OnlyAppend(s[..k], l, IsAlnum);
    OnlyNone(s[..k], IsAlnum);
  }

  lemma TrimRightAlnum(s: string)
    ensures Only(TrimRight(s), IsAlnum) == Only(s, IsAlnum)
  {
    var r := TrimRight(s);
    TrimRightBlank(s);
    assert s == r + s[|r|..];
    OnlyAppend(r, s[|r|..], IsAlnum);
    OnlyNone(s[|r|..], IsAlnum);
  }

  /** Turning break runs into underscores removes no letter or digit. */
  lemma {:induction false} UnderscoreRunsAlnum(s: string)
    ensures Only(ReplaceRuns(s, IsBreak, "_"), IsAlnum) == Only(s, IsAlnum)
    decreases |s|
  {
    if s != [] {
      if IsBreak(s[0]) {
        var k := Span(s, IsBreak);
        UnderscoreRunsAlnum(s[k..]);
        UnderscoreBreakStep(s, k);
      } else {
        UnderscoreRunsAlnum(s[1..]);
        OnlyAppend([s[0]], ReplaceRuns(s[1..], IsBreak, "_"), IsAlnum);
      }
    }
  }

  lemma UnderscoreBreakStep(s: string, k: nat)
    requires s != [] && IsBreak(s[0]) && k == Span(s, IsBreak)
    requires Only(ReplaceRuns(s[k..], IsBreak, "_"), IsAlnum) == Only(s[k..], IsAlnum)
    ensures Only(ReplaceRuns(s, IsBreak, "_"), IsAlnum) == Only(s, IsAlnum)
  {
    var rest := ReplaceRuns(s[k..], IsBreak, "_");
    assert ReplaceRuns(s, IsBreak, "_") == "_" + rest;
    OnlyAppend("_", rest, IsAlnum);
    assert Only("_", IsAlnum) == [];
    OnlyDropBreaks(s, k);
  }

  /** A leading run of break characters holds no letter or digit. */
  lemma OnlyDropBreaks(s: string, k: nat)
    requires k == Span(s, IsBreak)
    ensures Only(s, IsAlnum) == Only(s[k..], IsAlnum)
  {
    SpanAll(s, IsBreak);
    var a, b := s[..k], s[k..];
    assert s == a + b;
    OnlyAppend(a, b, IsAlnum);
    forall i | 0 <= i < |a| ensures !IsAlnum(a[i]) {
      assert a[i] == s[i];
    }
    OnlyNone(a, IsAlnum);
  }

  /** Turning break runs of a string of name characters into underscores
      leaves only word characters. */
  lemma {:induction false} UnderscoreRunsWord(s: string)
    requires forall i :: 0 <= i < |s| ==> NameChar(s[i])
    ensures forall i :: 0 <= i < |ReplaceRuns(s, IsBreak, "_")| ==> IsWordChar(ReplaceRuns(s, IsBreak, "_")[i])
    decreases |s|
  {
    if s != [] {
      var r := ReplaceRuns(s, IsBreak, "_");
      if IsBreak(s[0]) {
        var t := s[Span(s, IsBreak)..];
        assert forall i :: 0 <= i < |t| ==> t[i] == s[Span(s, IsBreak) + i];
        UnderscoreRunsWord(t);
        assert r == "_" + ReplaceRuns(t, IsBreak, "_");
        forall i | 0 <= i < |r| ensures IsWordChar(r[i]) {
          if i > 0 { assert r[i] == ReplaceRuns(t, IsBreak, "_")[i - 1]; }
        }
      } else {
        assert forall i :: 0 <= i < |s[1..]| ==> s[1..][i] == s[i + 1];
        UnderscoreRunsWord(s[1..]);
        assert r == [s[0]] + ReplaceRuns(s[1..], IsBreak, "_");
        forall i | 0 <= i < |r| ensures IsWordChar(r[i]) {
          if i > 0 { assert r[i] == ReplaceRuns(s[1..], IsBreak, "_")[i - 1]; }
        }
      }
    }
  }

  /** A string without break characters has no run to replace. */
  lemma {:induction false} UnderscoreRunsNone(s: string)
    requires forall i :: 0 <= i < |s| ==> !IsBreak(s[i])
    ensures ReplaceRuns(s, IsBreak, "_") == s
    decreases |s|
  {
    if s != [] {
      assert forall i :: 0 <= i < |s[1..]| ==> s[1..][i] == s[i + 1];
      UnderscoreRunsNone(s[1..]);
      assert s == [s[0]] + s[1..];
    }
  }

  /** The characters of a strip are characters of the string. */
  lemma StripChars(s: string, p: char -> bool)
    requires forall i :: 0 <= i < |s| ==> p(s[i])
    ensures forall i :: 0 <= i < |Strip(s)| ==> p(Strip(s)[i])
  {
    var l := TrimLeft(s);
    var k := |s| - |l|;
    forall i | 0 <= i < |l| ensures p(l[i]) {
      assert l[i] == s[k + i];
    }
    var r := TrimRight(l);
    forall i | 0 <= i < |r| ensures p(r[i]) {
      assert r[i] == l[i];
    }
  }

  /** The cleaned name is made of word characters only, so it holds no
      whitespace and no hyphen; and its letters and digits are exactly
      those of the given name, in order. */
  lemma BookNameShape(field: Option<string>)
    ensures forall i :: 0 <= i < |BookName(field)| ==> IsWordChar(BookName(field)[i])
    ensures forall i :: 0 <= i < |BookName(field)| ==> !IsSpace(BookName(field)[i]) && BookName(field)[i] != '-'
    ensures Only(BookName(field), IsAlnum) == Only(GivenName(field), IsAlnum)
  {
    var given := GivenName(field);
    var kept := Only(given, NameChar);
    var stripped := Strip(kept);
    var n := ReplaceRuns(stripped, IsBreak, "_");
    assert n == BookName(field);
    OnlySatisfies(given, NameChar);
    StripChars(kept, NameChar);
    UnderscoreRunsWord(stripped);
    WordNoBreak(n);
    UnderscoreRunsAlnum(stripped);
    StripAlnum(kept);
    OnlyNameAlnum(given);
  }

  lemma WordNoBreak(n: string)
    requires forall i :: 0 <= i < |n| ==> IsWordChar(n[i])
    ensures forall i :: 0 <= i < |n| ==> !IsSpace(n[i]) && n[i] != '-'
  {
    forall i | 0 <= i < |n| ensures !IsSpace(n[i]) && n[i] != '-' {
      assert IsWordChar(n[i]);
    }
  }

  /** The `untitled` default is applied before punctuation is deleted: a
      name of punctuation alone cleans to the empty name. */
  lemma PunctuationNameEmpty(name: string)
    requires forall i :: 0 <= i < |name| ==> !IsSpace(name[i]) && !NameChar(name[i])
    requires name != []
    ensures BookName(Some(name)) == ""
  {
    StripUnchanged(name);
    assert GivenName(Some(name)) == name;
    OnlyNone(name, NameChar);
  }

  /** A missing or blank field gives the book the name `untitled`. */
  lemma BlankNameUntitled(field: Option<string>)
    requires field.None? || Strip(field.value) == []
    ensures BookName(field) == "untitled"
  {
    var u := "untitled";
    assert GivenName(field) == u;
    UntitledClean(u);
  }

  lemma UntitledClean(u: string)
    requires u == "untitled"
    ensures ReplaceRuns(Strip(Only(u, NameChar)), IsBreak, "_") == u
  {
    assert forall i :: 0 <= i < |u| ==> NameChar(u[i]) && !IsBreak(u[i]);
    OnlyAll(u, NameChar);
    StripUnchanged(u);
    UnderscoreRunsNone(u);
  }

  /** Cleaning is idempotent: a non-empty cleaned name, entered again,
      comes back as it is. */
  lemma BookNameIdempotent(field: Option<string>)
    requires BookName(field) != []
    ensures BookName(Some(BookName(field))) == BookName(field)
  {
    var n := BookName(field);
    BookNameShape(field);
    StripUnchanged(n);
    assert GivenName(Some(n)) == n;
    OnlyAll(n, NameChar);
    UnderscoreRunsNone(n);
  }

  // ---------------------------------------------------------------------
  // The page routes
  // ---------------------------------------------------------------------

  /** One entry of a book's `pages` list. */
  datatype StoredPage = StoredPage(id: string, filename: string, text: string)

  /** What `upload` stores for a book. */
  datatype BookData = BookData(name: string, pages: seq<StoredPage>, currentPage: int)

  /** The error answers of the page routes. */
  datatype ApiError = BookNotFound | PageNotFound | NoText

  /** What `get_page` answers for a page that exists. */
  datatype PageView = PageView(pageNum: nat, totalPages: nat, text: string, pageId: string)

  /** What `save_page` leaves behind: the updated book and the text file
      written for the page. */
  datatype Saved = Saved(book: BookData, file: string, contents: string)

  /** The bounds check the three page routes share. */
  function PageAt(book: Option<BookData>, pageNum: int): (r: Result<StoredPage, ApiError>)
    ensures book.None? <==> r == Err(BookNotFound)
    ensures r.Ok? <==> book.Some? && 0 <= pageNum < |book.value.pages|
    ensures r.Ok? ==> r.value == book.value.pages[pageNum]
    ensures r.Err? && book.Some? ==> r.error == PageNotFound
  {
    if book.None? then Err(BookNotFound)
    else if pageNum < 0 || pageNum >= |book.value.pages| then Err(PageNotFound)
    else Ok(book.value.pages[pageNum])
  }

  /** `get_page`. */
  function GetPage(book: Option<BookData>, pageNum: int): (r: Result<PageView, ApiError>)
    ensures r.Ok? <==> PageAt(book, pageNum).Ok?
    ensures r.Ok? ==> r.value.totalPages == |book.value.pages| && r.value.pageNum == pageNum
    ensures r.Ok? ==> r.value.text == book.value.pages[pageNum].text && r.value.pageId == book.value.pages[pageNum].id
    ensures r.Err? ==> r.error == PageAt(book, pageNum).error
  {
    match PageAt(book, pageNum)
    case Err(e) => Err(e)
    case Ok(p) => Ok(PageView(pageNum, |book.value.pages|, p.text, p.id))
  }

  /** The page list with the text of the page at `k` replaced. */
  function WithText(pages: seq<StoredPage>, k: nat, text: string): (r: seq<StoredPage>)
    requires k < |pages|
    ensures |r| == |pages|
    ensures r[k] == pages[k].(text := text)
    ensures forall j :: 0 <= j < |pages| && j != k ==> r[j] == pages[j]
  {
    pages[k := pages[k].(text := text)]
  }

  /** `save_page`: overwrites the text of the page at `pageNum` in the
      loaded book data and writes the text to the page's own file. */
  method SavePage(book: Option<BookData>, pageNum: int, newText: string) returns (r: Result<Saved, ApiError>)
    ensures r.Ok? <==> PageAt(book, pageNum).Ok?
    ensures r.Err? ==> r.error == PageAt(book, pageNum).error
    ensures r.Ok? ==> r.value.book == book.value.(pages := WithText(book.value.pages, pageNum, newText))
    ensures r.Ok? ==> r.value.file == book.value.pages[pageNum].id + ".txt" && r.value.contents == newText
  {
    if book.None? {
      return Err(BookNotFound);
    }
    var data := book.value;
    if pageNum < 0 || pageNum >= |data.pages| {
      return Err(PageNotFound);
    }
    var pages := data.pages;
    pages := pages[pageNum := pages[pageNum].(text := newText)];
    data := data.(pages := pages);
    var pageId := data.pages[pageNum].id;
    r := Ok(Saved(data, pageId + ".txt", newText));
  }

  /** After saving, the page reads back the new text, every other page
      reads back what it held, and the number of pages is the same. */
  lemma SaveThenGet(book: BookData, k: nat, newText: string, j: int)
    requires k < |book.pages|
    ensures GetPage(Some(book.(pages := WithText(book.pages, k, newText))), k).Ok?
    ensures GetPage(Some(book.(pages := WithText(book.pages, k, newText))), k).value.text == newText
    ensures j != k ==> GetPage(Some(book.(pages := WithText(book.pages, k, newText))), j) == GetPage(Some(book), j)
  {
  }

  /** Saving twice keeps only the second text; saving the text the page
      already holds changes nothing. */
  lemma SaveTwice(pages: seq<StoredPage>, k: nat, t1: string, t2: string)
    requires k < |pages|
    ensures WithText(WithText(pages, k, t1), k, t2) == WithText(pages, k, t2)
    ensures WithText(pages, k, pages[k].text) == pages
  {
  }

  /** `preview_audio`: the text of an existing page, refused when it is
      blank. */
  function PreviewText(book: Option<BookData>, pageNum: int): (r: Result<string, ApiError>)
    ensures r.Ok? <==> PageAt(book, pageNum).Ok? && Strip(book.value.pages[pageNum].text) != []
    ensures r.Ok? ==> r.value == book.value.pages[pageNum].text
    ensures r.Err? && PageAt(book, pageNum).Ok? ==> r.error == NoText
  {
    match PageAt(book, pageNum)
    case Err(e) => Err(e)
    case Ok(p) => if Strip(p.text) == [] then Err(NoText) else Ok(p.text)
  }
}
