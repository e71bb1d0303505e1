/**
 * `BookState` of the ElevenLabs web app: the book being edited, its pages in
 * order, the ids of the pages marked processed, and a cursor. Each page is a
 * record `{id, text, processed}`. File access is left to the caller:
 * `LoadBook` receives the `.txt` files of the book directory in sorted order,
 * and `SaveAll` returns the list of files it would write.
 */
module BookStateModule {
  import opened Wrappers
  import opened Text

  datatype Page = Page(id: string, text: string, processed: bool)

  /** The position of the first page with this id; the `for page in
      self.pages: if page["id"] == page_id` search of the source. */
  function FirstIndex(ps: seq<Page>, id: string): (r: Option<nat>)
    ensures r.Some? ==> r.value < |ps| && ps[r.value].id == id
    ensures r.Some? ==> forall j :: 0 <= j < r.value ==> ps[j].id != id
    ensures r.None? <==> forall j :: 0 <= j < |ps| ==> ps[j].id != id
  {
    if ps == [] then None
    else if ps[0].id == id then Some(0)
    else match FirstIndex(ps[1..], id)
      case None => None
      case Some(k) => Some(k + 1)
  }

  /** A search that stopped at `i` found the first match. */
  lemma FirstIndexAt(ps: seq<Page>, id: string, i: nat)
    requires i < |ps| && ps[i].id == id
    requires forall j :: 0 <= j < i ==> ps[j].id != id
    ensures FirstIndex(ps, id) == Some(i)
  {
  }

  /** `update_page`: the text of the first page with the id is replaced. */
  function UpdateFirst(ps: seq<Page>, id: string, text: string): (r: seq<Page>)
    ensures |r| == |ps|
    ensures forall j :: 0 <= j < |ps| ==> r[j].id == ps[j].id && r[j].processed == ps[j].processed
    ensures forall j :: 0 <= j < |ps| && Some(j) != FirstIndex(ps, id) ==> r[j] == ps[j]
    ensures FirstIndex(ps, id).Some? ==> r[FirstIndex(ps, id).value].text == text
    ensures FirstIndex(ps, id).None? ==> r == ps
  {
    match FirstIndex(ps, id)
    case None => ps
    case Some(i) => ps[i := ps[i].(text := text)]
  }

  /** `mark_processed`'s change to the page list: the first page with the id
      is flagged processed. */
  function MarkFirst(ps: seq<Page>, id: string): (r: seq<Page>)
    ensures |r| == |ps|
    ensures forall j :: 0 <= j < |ps| ==> r[j].id == ps[j].id && r[j].text == ps[j].text
    ensures forall j :: 0 <= j < |ps| && Some(j) != FirstIndex(ps, id) ==> r[j] == ps[j]
    ensures FirstIndex(ps, id).Some? ==> r[FirstIndex(ps, id).value].processed
    ensures FirstIndex(ps, id).None? ==> r == ps
  {
    match FirstIndex(ps, id)
    case None => ps
    case Some(i) => ps[i := ps[i].(processed := true)]
  }

  /** The pages `load_book` reads: one processed page per file, in order. */
  function LoadedPages(files: seq<(string, string)>): (ps: seq<Page>)
    ensures |ps| == |files|
    ensures forall j :: 0 <= j < |files| ==> ps[j] == Page(files[j].0, files[j].1, true)
  {
    seq(|files|, j requires 0 <= j < |files| => Page(files[j].0, files[j].1, true))
  }

  function Ids(ps: seq<Page>): (ids: seq<string>)
    ensures |ids| == |ps| && forall j :: 0 <= j < |ps| ==> ids[j] == ps[j].id
  {
    seq(|ps|, j requires 0 <= j < |ps| => ps[j].id)
  }

  function Texts(ps: seq<Page>): (ts: seq<string>)
    ensures |ts| == |ps| && forall j :: 0 <= j < |ps| ==> ts[j] == ps[j].text
  {
    seq(|ps|, j requires 0 <= j < |ps| => ps[j].text)
  }

  ghost predicate Distinct(s: seq<string>)
  {
    forall i, j :: 0 <= i < j < |s| ==> s[i] != s[j]
  }

  /** The set of ids of a page list has at most one element per page. */
  function IdSet(ps: seq<Page>): (s: set<string>)
    ensures |s| <= |ps|
    ensures forall x :: x in s <==> FirstIndex(ps, x).Some?
  {
    if ps == [] then {}
    else
      var rest := IdSet(ps[1..]);
      assert forall x :: x != ps[0].id ==> (FirstIndex(ps, x).Some? <==> FirstIndex(ps[1..], x).Some?);
      rest + {ps[0].id}
  }

  /** A list without repetitions has as many elements as its set. */
  lemma {:induction false} DistinctCard(s: seq<string>)
    requires Distinct(s)
    ensures |set x | x in s| == |s|
  {
    if s != [] {
      var init := s[..|s| - 1];
      assert Distinct(init);
      DistinctCard(init);
      assert (set x | x in s) == (set x | x in init) + {s[|s| - 1]};
      assert s[|s| - 1] !in init;
    }
  }

  /** `next_page`'s new cursor. */
  function NextIndex(i: int, n: nat): (r: int)
    ensures 0 <= i < n ==> 0 <= r < n
    ensures r == i || r == i + 1
    ensures r == i + 1 <==> i < n - 1
  {
    if i < n - 1 then i + 1 else i
  }

  /** `prev_page`'s new cursor. */
  function PrevIndex(i: int): (r: int)
    ensures 0 <= i ==> 0 <= r
    ensures r == i || r == i - 1
    ensures r == i - 1 <==> i > 0
  {
    if i > 0 then i - 1 else i
  }

  /** A step forward that moved is undone by a step back, and the other way round. */
  lemma NextPrevInverse(i: int, n: nat)
    requires 0 <= i
    ensures NextIndex(i, n) != i ==> PrevIndex(NextIndex(i, n)) == i
    ensures 0 <= i < n && PrevIndex(i) != i ==> NextIndex(PrevIndex(i), n) == i
  {
  }

  /** The files `save_all` writes, in order: one `<id>.txt` per page, then
      `combined.txt`. */
  function PageFiles(ps: seq<Page>): (fs: seq<(string, string)>)
    ensures |fs| == |ps| + 1
    ensures forall j :: 0 <= j < |ps| ==> fs[j] == (ps[j].id + ".txt", ps[j].text)
    ensures fs[|ps|] == ("combined.txt", Join("\n\n", Texts(ps)))
  {
    seq(|ps|, j requires 0 <= j < |ps| => (ps[j].id + ".txt", ps[j].text)) + [("combined.txt", Join("\n\n", Texts(ps)))]
  }

  /** The combined text grows by the separator and the new text when a page
      is appended to a non-empty list. */
  lemma CombinedAppend(ps: seq<Page>, p: Page)
    requires ps != []
    ensures Join("\n\n", Texts(ps + [p])) == Join("\n\n", Texts(ps)) + "\n\n" + p.text
  {
    assert Texts(ps + [p]) == Texts(ps) + [p.text];
    JoinAppend("\n\n", Texts(ps), p.text);
  }

  /** `int(len(processed) / len(pages) * 100)`, in exact arithmetic. */
  function Progress(processed: nat, total: nat): (r: nat)
    ensures total == 0 ==> r == 0
    ensures total > 0 && processed <= total ==> r <= 100
    ensures total > 0 ==> r * total <= 100 * processed < (r + 1) * total
  {
    if total == 0 then 0 else
      var r := (100 * processed) / total;
      ProgressBounds(processed, total, r);
      r
  }

  /** Floor division of processed·100 by total, with its bounds. */
  lemma ProgressBounds(processed: nat, total: nat, q: int)
    requires total > 0
    requires q == (100 * processed) / total
    ensures q * total <= 100 * processed < (q + 1) * total
    ensures processed <= total ==> q <= 100
  {
    var n := 100 * processed;
    assert n == q * total + n % total;
    assert (q + 1) * total == q * total + total;
    if processed <= total {
      assert q * total <= 100 * total;
    }
  }

  /** The processed ids are distinct ids of processed pages, every processed
      page is listed, and the cursor is on a page (or 0 with no pages). */
  ghost predicate Consistent(pages: seq<Page>, processedPages: seq<string>, currentPageIndex: int)
  {
    && Distinct(processedPages)
    && (forall i :: 0 <= i < |processedPages| ==>
          FirstIndex(pages, processedPages[i]).Some?
          && pages[FirstIndex(pages, processedPages[i]).value].processed)
    && (forall j :: 0 <= j < |pages| && pages[j].processed ==> pages[j].id in processedPages)
    && 0 <= currentPageIndex
    && (pages == [] ==> currentPageIndex == 0)
    && (pages != [] ==> currentPageIndex < |pages|)
  }

  /** Marking the first page with an id processed, and listing the id once,
      keeps the record consistent. */
  lemma MarkConsistent(ps: seq<Page>, processed: seq<string>, cursor: int, id: string, i: nat,
                       ps': seq<Page>, processed': seq<string>)
    requires Consistent(ps, processed, cursor)
    requires i < |ps| && FirstIndex(ps, id) == Some(i)
    requires ps' == ps[i := ps[i].(processed := true)]
    requires processed' == if id in processed then processed else processed + [id]
    ensures ps' == MarkFirst(ps, id)
    ensures Consistent(ps', processed', cursor)
  {
    SameIdsSameSearch(ps, ps');
    ListOnceDistinct(processed, id, processed');
    forall k | 0 <= k < |processed'|
      ensures FirstIndex(ps', processed'[k]).Some? && ps'[FirstIndex(ps', processed'[k]).value].processed
    {
      var x := processed'[k];
      if k < |processed| {
        assert x == processed[k];
        var f := FirstIndex(ps, x).value;
        assert FirstIndex(ps', x) == Some(f);
        if f != i {
          assert ps'[f] == ps[f];
        }
      }
    }
    forall j | 0 <= j < |ps'| && ps'[j].processed ensures ps'[j].id in processed' {
      if j != i {
        assert ps'[j] == ps[j];
      }
    }
  }

  /** Appending an id not yet listed keeps the list free of repeats. */
  lemma ListOnceDistinct(processed: seq<string>, id: string, processed': seq<string>)
    requires Distinct(processed)
    requires processed' == if id in processed then processed else processed + [id]
    ensures Distinct(processed') && id in processed'
    ensures forall k :: 0 <= k < |processed'| ==> processed'[k] in processed || processed'[k] == id
    ensures forall k :: 0 <= k < |processed| ==> processed'[k] == processed[k]
  {
    if id !in processed {
      forall a, b | 0 <= a < b < |processed'| ensures processed'[a] != processed'[b] {
        if b == |processed| {
          assert processed'[a] == processed[a];
        }
      }
      assert processed'[|processed|] == id;
    }
  }

  class BookState {
    var currentBook: Option<string>
    var pages: seq<Page>
    var processedPages: seq<string>
    var currentPageIndex: int

    /** The processed ids are distinct ids of processed pages, every processed
        page is listed, and the cursor is on a page (or 0 with no pages). */
    ghost predicate Valid()
      reads this
    {
      Consistent(pages, processedPages, currentPageIndex)
    }

    constructor ()
      ensures currentBook == None && pages == [] && processedPages == [] && currentPageIndex == 0
      ensures Valid()
    {
      currentBook := None;
      pages := [];
      processedPages := [];
      currentPageIndex := 0;
    }

    /** `load_book`. `files` are the `(stem, text)` pairs of the book
        directory's `*.txt` files in sorted order (empty when the directory
        does not exist); stems of files in one directory are distinct. */
    method LoadBook(name: string, files: seq<(string, string)>)
      requires forall i, j :: 0 <= i < j < |files| ==> files[i].0 != files[j].0
      modifies this
      ensures currentBook == Some(name)
      ensures pages == LoadedPages(files)
      ensures processedPages == Ids(pages)
      ensures currentPageIndex == 0
      ensures Valid()
    {
      currentBook := Some(name);
      pages := [];
      processedPages := [];
      currentPageIndex := 0;
      var i := 0;
      while i < |files|
        invariant i <= |files|
        invariant pages == LoadedPages(files[..i])
        invariant currentBook == Some(name) && processedPages == [] && currentPageIndex == 0
      {
        pages := pages + [Page(files[i].0, files[i].1, true)];
        i := i + 1;
      }
      assert files[..i] == files;
      processedPages := Ids(pages);
      forall k | 0 <= k < |pages|
        ensures FirstIndex(pages, processedPages[k]) == Some(k)
      {
        FirstIndexAt(pages, processedPages[k], k);
      }
    }

    /** `add_page`: a new unprocessed page at the end; nothing else changes. */
    method AddPage(id: string, text: string)
      requires Valid()
      modifies this
      ensures pages == old(pages) + [Page(id, text, false)]
      ensures currentBook == old(currentBook) && processedPages == old(processedPages)
      ensures currentPageIndex == old(currentPageIndex)
      ensures old(pages) != [] ==> CombinedText() == old(CombinedText()) + "\n\n" + text
      ensures Valid()
    {
      ghost var before := pages;
      pages := pages + [Page(id, text, false)];
      forall x | FirstIndex(before, x).Some?
        ensures FirstIndex(pages, x) == FirstIndex(before, x)
      {
        FirstIndexAt(pages, x, FirstIndex(before, x).value);
      }
      if before != [] {
        CombinedAppend(before, Page(id, text, false));
      }
    }

    /** `update_page` */
    method UpdatePage(id: string, text: string)
      requires Valid()
      modifies this
      ensures pages == UpdateFirst(old(pages), id, text)
      ensures currentBook == old(currentBook) && processedPages == old(processedPages)
      ensures currentPageIndex == old(currentPageIndex)
      ensures Valid()
    {
      var i := 0;
      while i < |pages|
        invariant i <= |pages|
        invariant pages == old(pages)
        invariant forall j :: 0 <= j < i ==> pages[j].id != id
      {
        if pages[i].id == id {
          FirstIndexAt(pages, id, i);
          ghost var before := pages;
          pages := pages[i := pages[i].(text := text)];
          SameIdsSameSearch(before, pages);
          return;
        }
        i := i + 1;
      }
    }

    /** `mark_processed` */
    method MarkProcessed(id: string)
      requires Valid()
      modifies this
      ensures pages == MarkFirst(old(pages), id)
      ensures processedPages == if FirstIndex(old(pages), id).Some? && id !in old(processedPages)
        then old(processedPages) + [id] else old(processedPages)
      ensures currentBook == old(currentBook) && currentPageIndex == old(currentPageIndex)
      ensures Valid()
    {
      var i := 0;
      while i < |pages|
        invariant i <= |pages|
        invariant pages == old(pages) && processedPages == old(processedPages)
        invariant forall j :: 0 <= j < i ==> pages[j].id != id
      {
        if pages[i].id == id {
          FirstIndexAt(pages, id, i);
          var marked := pages[i := pages[i].(processed := true)];
          var listed := if id in processedPages then processedPages else processedPages + [id];
          MarkConsistent(pages, processedPages, currentPageIndex, id, i, marked, listed);
          pages, processedPages := marked, listed;
          return;
        }
        i := i + 1;
      }
    }

    /** `get_page` */
    method GetPage(id: string) returns (r: Option<Page>)
      ensures r == match FirstIndex(pages, id) case None => None case Some(i) => Some(pages[i])
    {
      var i := 0;
      while i < |pages|
        invariant i <= |pages|
        invariant forall j :: 0 <= j < i ==> pages[j].id != id
      {
        if pages[i].id == id {
          FirstIndexAt(pages, id, i);
          return Some(pages[i]);
        }
        i := i + 1;
      }
      return None;
    }

    /** `get_current_page` */
    function GetCurrentPage(): (r: Option<Page>)
      requires Valid()
      reads this
      ensures r.None? <==> pages == []
      ensures r.Some? ==> r.value == pages[currentPageIndex]
    {
      if pages == [] || currentPageIndex >= |pages| then None else Some(pages[currentPageIndex])
    }

    /** `next_page`: moves forward unless on the last page. */
    method NextPage() returns (r: Option<Page>)
      requires Valid()
      modifies this
      ensures Valid()
      ensures currentPageIndex == NextIndex(old(currentPageIndex), |pages|)
      ensures r.Some? <==> currentPageIndex != old(currentPageIndex)
      ensures r.Some? ==> r.value == pages[currentPageIndex]
      ensures pages == old(pages) && processedPages == old(processedPages) && currentBook == old(currentBook)
    {
      if currentPageIndex < |pages| - 1 {
        currentPageIndex := currentPageIndex + 1;
        return Some(pages[currentPageIndex]);
      }
      return None;
    }

    /** `prev_page`: moves back unless on the first page, where it returns the
        first page without moving. */
    method PrevPage() returns (r: Option<Page>)
      requires Valid()
      modifies this
      ensures Valid()
      ensures currentPageIndex == PrevIndex(old(currentPageIndex))
      ensures r.None? <==> pages == []
      ensures r.Some? ==> r.value == pages[currentPageIndex]
      ensures pages == old(pages) && processedPages == old(processedPages) && currentBook == old(currentBook)
    {
      if currentPageIndex > 0 {
        currentPageIndex := currentPageIndex - 1;
        return Some(pages[currentPageIndex]);
      } else if pages != [] && currentPageIndex == 0 {
        return Some(pages[0]);
      }
      return None;
    }

    /** The text of `combined.txt`: the page texts in order, separated by a
        blank line. */
    function CombinedText(): string
      reads this
    {
      Join("\n\n", Texts(pages))
    }

    /** `save_all`: nothing without a (non-empty) book name. */
    function SaveAll(): (r: Option<seq<(string, string)>>)
      reads this
      ensures r.None? <==> currentBook.None? || currentBook.value == ""
      ensures r.Some? ==> r.value == PageFiles(pages) && r.value[|pages|].1 == CombinedText()
    {
      if currentBook.None? || currentBook.value == "" then None else Some(PageFiles(pages))
    }

    /** `get_progress`, which never exceeds 100. */
    function GetProgress(): (r: nat)
      requires Valid()
      reads this
      ensures r <= 100
      ensures pages == [] ==> r == 0
      ensures pages != [] ==> r == Progress(|processedPages|, |pages|)
    {
      ProcessedFit();
      Progress(|processedPages|, |pages|)
    }

    /** There are no more processed ids than pages. */
    lemma ProcessedFit()
      requires Valid()
      ensures |processedPages| <= |pages|
    {
      var listed := set x | x in processedPages;
      DistinctCard(processedPages);
      assert listed <= IdSet(pages);
      SubsetCard(listed, IdSet(pages));
    }
  }

  /** A change that keeps every id keeps every search result. */
  lemma SameIdsSameSearch(a: seq<Page>, b: seq<Page>)
    requires |a| == |b| && forall j :: 0 <= j < |a| ==> a[j].id == b[j].id
    ensures forall x :: FirstIndex(a, x) == FirstIndex(b, x)
  {
    forall x ensures FirstIndex(a, x) == FirstIndex(b, x) {
      if FirstIndex(a, x).Some? {
        FirstIndexAt(b, x, FirstIndex(a, x).value);
      } else if FirstIndex(b, x).Some? {
        FirstIndexAt(a, x, FirstIndex(b, x).value);
      }
    }
  }

  lemma SubsetCard(a: set<string>, b: set<string>)
    requires a <= b
    ensures |a| <= |b|
  {
    assert b == a + (b - a);
  }
}
