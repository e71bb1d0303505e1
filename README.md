# Book-to-audio reader: a verified model of its text and page logic

The repository turns photographs of book pages (or an EPUB file) into text and
then into speech. Two command-line scripts do this: `book_reader_eleven_manual.py`
and `book_reader_speechify_manual.py`. Two Flask applications, `bookaudio_web.py`
and `bookaudio_web_speechify.py`, add an in-browser editor.

Around calls to OpenCV, Tesseract, a spell checker, EXIF, the text-to-speech
services and Flask sits deterministic integer and string logic. This project
models that logic in Dafny and proves what it does.

The modules are:

- `Text` (text.dfy): ASCII character classes and Python's `strip`, `split()`,
  `split(sep)`, `join` and `re.sub(X+, rep)`, with their algebra.
  `Wrappers` (wrappers.dfy) defines `Option` and `Result`.
- `PageSplit`: `maybe_split_two_pages`, the two-page-spread detector and splitter.
  The image is a rectangular grid of integer pixels.
- `Normalizer`: `clean_text`. It collapses whitespace, replaces the `ﬁ`/`ﬂ`
  ligatures, then runs the per-token spell pass. The spell checker is an oracle
  (`known`, `correction`).
- `Ocr`: the two `ocr_ndarray` variants, with Tesseract as an oracle.
  - The eleven script tries languages in order and stops at the first result
    longer than 20 characters.
  - The speechify script makes one call with the languages joined by `+`.
- `ImageOrder`: the `get_exif_datetime` sort key (DateTimeOriginal, then
  DateTime, then mtime) and Python's stable `sorted`.
- `PageIds`: the zero-padded page and chapter identifiers, their parsing,
  injectivity and order.
- `Pipeline`: the page loop of `full_process`/`ocr_only`/`upload_images`.
  - 1-based numbering; a skipped photo still uses up its number.
  - The two review-edit variants.
  - The `tts_only` paragraph chunks.
- `BookStateModule`: the `BookState` class of the eleven web application, as a
  Dafny class with its fields.
- `ChunkText`: the sentence splitter and the greedy chunk packer of `/chunk_text`.
- `Epub`: the filters that follow EPUB parsing in both web applications.
- `TextTools`: the `/text_tools` editor transforms (`capitalize`, `fix_spaces`,
  `fix_hyphenation`, `remove_line_breaks`).
- `WebBook`: the book-name sanitiser of `/upload` and the page routes of the
  speechify web application (`get_page`, `save_page`, `preview_audio`).

Pure code is modelled as functions and lemmas. Loops that build a list or a
string step by step are methods with `while` loops. Each such method is proved
equal to a recursive reference function, and the properties are lemmas about that
function.

`maybe_split_two_pages` and `clean_text` are textually identical in both scripts
(book_reader_speechify_manual.py:60-69 and :71-103). Each has one model, cited
at the eleven copy.

Three behaviours of the code are worth stating:

- `ocr_ndarray` in the eleven script has no `try`/`except` around its
  language loop (book_reader_eleven_manual.py:103-109), so an engine error
  ends the whole call. `Ocr.Select` returns `Err(EngineRaised)` there, and
  `Pipeline` stops the run.
- The spell pass replaces a word only when its lower-case form is *known* to
  the checker (book_reader_eleven_manual.py:90; speechify copy at :92). The
  comment above that line says the opposite; the model follows the condition.
- `capitalize` makes each punctuation run an item of its own in a
  space-separated list, so a space also goes before it: "a. b" becomes
  "A . B" (`TextTools.CapitalizeTwoSentences`).

## Model

| member | source | states |
|---|---|---|
| PageSplit.BandsInside | book_reader_eleven_manual.py:61-64 | for width ≥ 80 the half-band w/20 is at least 4, and the three bands around w/4, w/2 and 3w/4 lie inside [0, w) in that order without overlapping |
| PageSplit.MeanComparison | book_reader_eleven_manual.py:65 | for bands of equal length, "mean of the middle > 1.15 × mean of a side" holds exactly when 100·mid > 115·side on the white-pixel sums |
| PageSplit.SpreadIffSums | book_reader_eleven_manual.py:63-65 | the spread test holds iff the middle band's white count beats both side bands by the 1.15 factor, stated on integer sums |
| PageSplit.SplitTwoPagesSpec | book_reader_eleven_manual.py:58-67 | the result has 1 or 2 parts; images narrower than 80 come back unchanged as [img]; it splits iff the spread test holds; the halves have widths w/2 and w − w/2, keep every row, and put back together row by row give img |
| PageSplit.Columns | book_reader_eleven_manual.py:66 | a column slice keeps every row and has the requested width; row i of the part is row i of the image cut to [lo, hi) |
| Normalizer.BaseCleanIsJoin | book_reader_eleven_manual.py:70-71 | the first two steps of clean_text equal the whitespace-separated words, ligatures replaced, joined by single spaces |
| Normalizer.BaseCleanShape | book_reader_eleven_manual.py:70-71 | after the whitespace and ligature steps the text has no leading, trailing or doubled space, no other whitespace character and no ﬁ/ﬂ, and its words are the base words |
| Normalizer.BaseCleanIdempotent | book_reader_eleven_manual.py:70-71 | applying the whitespace and ligature steps twice gives the same text as applying them once |
| Normalizer.ReplaceCharJoin | book_reader_eleven_manual.py:71 | replacing a non-space character in space-joined words equals joining the words after replacing in each |
| Normalizer.CorrectWordSpec | book_reader_eleven_manual.py:84-95 | one trailing non-alphanumeric character is split off and put back; a core that is empty or starts upper-case is kept; otherwise the core is replaced only when its lower-case form is known and the correction is non-empty |
| Normalizer.CorrectToken | book_reader_eleven_manual.py:84-95 | the per-token body yields exactly the specified corrected word |
| Normalizer.CorrectTokens | book_reader_eleven_manual.py:79-97 | the token loop's output equals the specified word-by-word correction of its input |
| Normalizer.CleanText | book_reader_eleven_manual.py:69-101 | clean_text equals the specified clean-up; when the spell library is unavailable it equals the whitespace and ligature steps alone |
| Normalizer.CorrectWordIsWord | book_reader_eleven_manual.py:84-95 | a non-empty word without whitespace stays non-empty and without whitespace, given that corrections contain no whitespace |
| Normalizer.SpellPassKeepsTokenCount | book_reader_eleven_manual.py:79-97 | the spell pass keeps the number of tokens, given that no correction contains whitespace |
| Normalizer.NoKnownWordsNoChange | book_reader_eleven_manual.py:90-97 | when the checker knows no word, clean_text equals its whitespace and ligature steps |
| Ocr.Attempt | book_reader_eleven_manual.py:105-106 | one language's attempt raises iff the engine raises, and otherwise is the engine's text passed through clean_text |
| Ocr.AttemptOnce | book_reader_eleven_manual.py:105-106 | the loop body yields exactly that attempt |
| Ocr.OcrWithFallback | book_reader_eleven_manual.py:103-109 | the language loop returns the selection among the attempts for langs in order |
| Ocr.SelectPicksFirstLong | book_reader_eleven_manual.py:104-108 | if the attempts before k were recognised and short, and attempt k is longer than 20 characters, the result is attempt k's text |
| Ocr.SelectKeepsLast | book_reader_eleven_manual.py:109 | if every attempt is recognised and none before the last is long enough, the result is the last language's text |
| Ocr.SelectPropagatesRaise | book_reader_eleven_manual.py:105 | an engine error on the first non-short attempt ends the call with an error |
| Ocr.SelectIgnoresLater | book_reader_eleven_manual.py:107-108 | once a long text is found, later languages do not affect the result |
| Ocr.SelectResultIsAnAttempt | book_reader_eleven_manual.py:103-109 | a successful result is the cleaned text of one of the attempts |
| Ocr.SelectErrors | book_reader_eleven_manual.py:103-109 | the missing-language error happens iff no language is given; an engine error comes from a raising attempt that all earlier attempts let through |
| Ocr.OcrJoined | book_reader_speechify_manual.py:105-112 | a single engine call with the "+"-joined languages; an exception gives "", otherwise the result is clean_text of the engine output |
| Ocr.LanguageStringRoundTrip | book_reader_speechify_manual.py:108 | splitting the "+"-joined language string at "+" gives back the languages |
| Ocr.OcrJoinedShape | book_reader_speechify_manual.py:109-112 | without a spell checker the result is single-spaced text with no leading or trailing whitespace |
| ImageOrder.SortKeyCases | book_reader_eleven_manual.py:33-43 | the key is the parsed DateTimeOriginal when that is non-empty, else the parsed DateTime, else mtime; missing EXIF or a failed parse gives mtime |
| ImageOrder.NoSecondField | book_reader_eleven_manual.py:37-42 | a non-empty DateTimeOriginal that fails to parse gives mtime even when DateTime would parse |
| ImageOrder.StableOrderSpec | book_reader_eleven_manual.py:173 | the sort order is a permutation of the indices, non-decreasing in key, and keeps equal keys in input order (Python's stable sort) |
| ImageOrder.Insert | book_reader_eleven_manual.py:173 | inserting an index keeps the order within range and adds exactly that index to its multiset |
| ImageOrder.SortPrefixSorted | book_reader_eleven_manual.py:173 | insertion-sorting the first n indices gives a list sorted by the stable key order; that it is a permutation of 0..n−1 is `SortPrefixPerm` |
| ImageOrder.SortPrefixPerm | book_reader_eleven_manual.py:173 | insertion-sorting the first n indices loses and adds none: the result is a permutation of 0..n−1 |
| PageIds.PadValue | book_reader_eleven_manual.py:195 | the zero-padded decimal text of n reads back as n |
| PageIds.PadFourLength | book_reader_eleven_manual.py:195 | an index below 10000 pads to exactly four digits |
| PageIds.PageIdRoundTrip | book_reader_eleven_manual.py:195 | the id "p%04d_%d" parses back to its index and part |
| PageIds.PageIdInjective | book_reader_eleven_manual.py:195 | two page ids are equal only for the same index and part |
| PageIds.PageIdOrder | book_reader_eleven_manual.py:195 | for index < 10000 and part < 10, the string order of page ids is the numeric order on (index, part) |
| PageIds.ChapterIdInjective | bookaudio_web.py:337 | the chapter id "c%04d" determines its index |
| PageIds.BookPageIdInjective | bookaudio_web_speechify.py:134 | the id "{book}_p%04d_%d" determines its index and part, for a fixed book |
| PageIds.BookChapterIdInjective | bookaudio_web_speechify.py:162 | the id "{book}_chapter_%04d" determines its index, for a fixed book |
| Pipeline.ExtractParts | book_reader_eleven_manual.py:194-200 | the part loop yields the specified pages: parts numbered from 1, empty texts dropped, the first failure stops the loop |
| Pipeline.ExtractPages | book_reader_eleven_manual.py:185-200 | the photo loop yields the specified run: photos numbered from 1, unreadable photos skipped, every part recognised in order |
| Pipeline.PartPagesStop | book_reader_eleven_manual.py:199 | once a part fails, later parts change nothing |
| Pipeline.PagesOfStop | book_reader_eleven_manual.py:199 | once a photo's recognition fails, later photos change nothing |
| Pipeline.PartPagesShape | book_reader_eleven_manual.py:194-200 | the pages of one photo are strictly increasing, carry its index and a part number within 1..number of parts, and hold the non-empty text recognised from that part |
| Pipeline.PagesOfShape | book_reader_eleven_manual.py:185-200 | the pages are strictly increasing in (index, part), and each is the non-empty text recognised from a part of the readable photo at that number |
| Pipeline.PagesSoundAndIncreasing | book_reader_eleven_manual.py:185-195 | the pages are strictly increasing in (index, part), so their "p%04d_%d" ids are pairwise distinct |
| Pipeline.BookPageIdsDistinct | bookaudio_web_speechify.py:116-134 | the "{book}_p%04d_%d" ids of the pages are pairwise distinct |
| Pipeline.SpeechifyRunCompletes | book_reader_speechify_manual.py:105-112 | with the speechify recogniser, which catches every engine error, a run never stops early, so every readable photo is processed |
| Pipeline.PagesOfNoFailure | book_reader_eleven_manual.py:185-200 | a recogniser that never raises gives a run without failure |
| Pipeline.WebUploadFailsLikeEleven | bookaudio_web.py:295-299 | the web upload's recogniser raises exactly when the ElevenLabs one does, and an empty OCR result is not cleaned again and stays empty |
| Pipeline.PartPagesComplete | book_reader_eleven_manual.py:194-200 | every part with non-empty recognised text appears as a page with its part number |
| Pipeline.PagesComplete | book_reader_eleven_manual.py:185-200 | in a run without failure, every recognised non-empty part of every readable photo appears with its photo and part number |
| Pipeline.SkippedPhotoKeepsNumbering | book_reader_eleven_manual.py:185-190 | making photo k unreadable removes exactly its pages and leaves every other page, with its number, in place |
| Pipeline.LinesBeforeEnd | book_reader_speechify_manual.py:217-222 | the lines read are the input before the first end marker, the marker excluded; no marker means the loop never ends |
| Pipeline.LinesBeforeEndAt | book_reader_speechify_manual.py:217-222 | with the first marker at line i, the lines read are exactly the first i lines |
| Pipeline.ReviewEditEleven | book_reader_eleven_manual.py:206-214 | the marker is the exact line "END"; the new text is the lines before it joined by newlines, and the OCR text is kept when there are none |
| Pipeline.ReviewEditSpeechify | book_reader_speechify_manual.py:216-223 | the marker is a line whose strip is "END"; the new text is the lines before it joined by newlines, possibly empty |
| Pipeline.ReviewLinesRecoverable | book_reader_speechify_manual.py:223 | lines without a newline character are recovered by splitting their newline join |
| Pipeline.ChunksStripped | book_reader_speechify_manual.py:312 | every paragraph chunk is non-empty and already stripped |
| Pipeline.NoPieceDropped | book_reader_speechify_manual.py:312 | every piece with non-blank content appears, stripped, among the chunks |
| Pipeline.ParagraphChunksOrder | book_reader_speechify_manual.py:312 | the chunks of a + "\n\n" + b are the chunks of a followed by those of b, when a does not end in a newline |
| Text.SplitAppend | book_reader_speechify_manual.py:312 | splitting a + sep + b at a two-character sep gives the pieces of a followed by those of b, when a does not end in sep's first character |
| Pipeline.JoinedChunks | book_reader_speechify_manual.py:312 | the chunks of pieces joined by "\n\n" are the chunks of each piece in the order of the pieces, when no piece ends in a newline |
| BookStateModule.FirstIndex | bookaudio_web.py:157-172 | a page search finds the first page with the id, and finds nothing iff no page has it |
| BookStateModule.UpdateFirst | bookaudio_web.py:156-160 | only the text of the first matching page changes; an unknown id changes nothing |
| BookStateModule.MarkFirst | bookaudio_web.py:162-165 | only the processed flag of the first matching page is set; an unknown id changes nothing |
| BookStateModule.LoadedPages | bookaudio_web.py:139-147 | each loaded file becomes a processed page with its file stem as id and its contents as text |
| BookStateModule.NextIndex | bookaudio_web.py:181-185 | the cursor moves forward by one exactly when it is before the last page, and stays in range |
| BookStateModule.PrevIndex | bookaudio_web.py:187-194 | the cursor moves back by one exactly when it is above 0, and never goes negative |
| BookStateModule.NextPrevInverse | bookaudio_web.py:181-194 | a step forward undone by a step back restores the cursor, and the same the other way round |
| BookStateModule.PageFiles | bookaudio_web.py:196-210 | save_all writes one "<id>.txt" per page, in page order, then "combined.txt" holding the texts joined by blank lines |
| BookStateModule.CombinedAppend | bookaudio_web.py:208 | adding a page extends the combined text by a blank line and the new text |
| BookStateModule.Progress | bookaudio_web.py:212-215 | progress is 0 with no pages, otherwise the floor of processed·100/total, and at most 100 when processed ≤ total |
| BookStateModule.DistinctCard | bookaudio_web.py:166-167 | a list of distinct ids has as many elements as its set |
| BookStateModule.BookState.constructor | bookaudio_web.py:127-131 | a new state has no book, no pages, no processed ids and cursor 0 |
| BookStateModule.BookState.LoadBook | bookaudio_web.py:133-147 | loading replaces the pages by the loaded files, all marked processed, resets the cursor and keeps the invariant |
| BookStateModule.BookState.AddPage | bookaudio_web.py:149-154 | the page is appended unprocessed; other pages, processed ids and cursor are unchanged |
| BookStateModule.BookState.UpdatePage | bookaudio_web.py:156-160 | only the first matching page's text changes; the rest of the state is unchanged |
| BookStateModule.BookState.MarkProcessed | bookaudio_web.py:162-168 | the first matching page is flagged and its id appended once if absent; the processed list stays duplicate-free |
| BookStateModule.MarkConsistent | bookaudio_web.py:163-168 | flagging the first page with the id and listing the id once is the specified marking, and keeps the listed ids distinct, each the id of a flagged page, and every flagged page listed |
| BookStateModule.BookState.GetPage | bookaudio_web.py:170-174 | returns the first page with the id, or nothing |
| BookStateModule.BookState.GetCurrentPage | bookaudio_web.py:176-179 | returns nothing iff there are no pages, else the page under the cursor |
| BookStateModule.BookState.NextPage | bookaudio_web.py:181-185 | moves forward only before the last page and returns the new page; otherwise returns nothing and does not move |
| BookStateModule.BookState.PrevPage | bookaudio_web.py:187-194 | moves back only above 0; at 0 returns the first page without moving |
| BookStateModule.BookState.SaveAll | bookaudio_web.py:196-210 | without a book nothing is written; otherwise the page files and the combined text |
| BookStateModule.BookState.GetProgress | bookaudio_web.py:212-215 | progress is at most 100, 0 without pages, otherwise the floor of processed·100/pages |
| BookStateModule.BookState.ProcessedFit | bookaudio_web.py:147 | the processed list, holding distinct ids of existing pages, is no longer than the page list |
| ChunkText.FirstBreak | bookaudio_web.py:493 | finds the first position at or after i where whitespace follows a sentence end, or the text's length when there is none |
| ChunkText.SplitSentencesReconstruct | bookaudio_web.py:493 | interleaving the sentences with the removed gaps gives back the text |
| ChunkText.SentenceGapsBlank | bookaudio_web.py:493 | every removed gap is a non-empty run of whitespace |
| ChunkText.SplitSentencesWellFormed | bookaudio_web.py:493 | every sentence but the last ends in . ! or ? and has no break inside; no sentence after the first starts with whitespace |
| ChunkText.SplitSentencesOfJoin | bookaudio_web.py:493 | splitting the single-space join of well-formed sentences gives them back |
| ChunkText.ChunkTextOf | bookaudio_web.py:486-513 | the loop's chunks equal the specified greedy packing of the split sentences |
| ChunkText.EmptyText | bookaudio_web.py:493-513 | an empty text gives no chunk, unless max_chars is negative, when it gives one empty chunk |
| ChunkText.LeadingEmptyChunk | bookaudio_web.py:500-502 | an oversized first sentence produces a leading empty chunk |
| ChunkText.ChunkGroups | bookaudio_web.py:496-511 | each chunk is a group of sentences joined by one space; the groups hold every sentence once in order; a new chunk starts only when the next sentence does not fit; a chunk of two or more sentences is at most max_chars + 1 long |
| ChunkText.TrailingEmptySentence | bookaudio_web.py:496-511 | a trailing empty sentence (text ending in whitespace after its last sentence end) makes the last chunk end in one space when that chunk has room, and otherwise changes nothing |
| ChunkText.SentencesCases | bookaudio_web.py:493 | the sentences are all non-empty, or only the last one is empty after non-empty ones, or the text was empty |
| Epub.AnyInIff | bookaudio_web.py:66 | the any(...) test holds iff some indicator is a substring of the title |
| Epub.IsNonContentIff | bookaudio_web.py:50-67 | an item is skipped iff its lower-cased title contains one of the indicator strings |
| Epub.SubstringMatch | bookaudio_web.py:66 | the match is by substring, so a title such as "The Discovery" containing "cover" is skipped |
| Epub.SelectContentItems | bookaudio_web.py:54-70 | the first loop keeps exactly the content items, in order |
| Epub.ContentItemsSound | bookaudio_web.py:54-70 | every kept item is a document whose title matches no indicator |
| Epub.BlankIsStripEmpty | bookaudio_web.py:98 | a paragraph is blank iff its strip is empty |
| Epub.BuildParagraphs | bookaudio_web.py:75-91 | the paragraph loop yields every non-blank heading followed by "" and then every non-blank block, in order |
| Epub.CollapseBlanksEleven | bookaudio_web.py:95-104 | the blank filter equals the specified collapse of blank runs |
| Epub.CollapseBlanksSpeechify | bookaudio_web_speechify.py:95-104 | the speechify copy of the filter equals the same collapse |
| Epub.CollapseBlanksNoAdjacent | bookaudio_web.py:95-104 | the filtered list never has two consecutive blank entries |
| Epub.CollapseBlanksKeepsText | bookaudio_web.py:95-104 | the filter keeps every non-blank entry, in order |
| Epub.CollapseBlanksIdempotent | bookaudio_web.py:95-104 | a list without consecutive blanks passes unchanged |
| Epub.PageNumberLineIff | bookaudio_web.py:113-115 | a line counts as a page-number line iff it has whitespace, then digits, then only whitespace to its end |
| Epub.CountPageNumberLines | bookaudio_web.py:115 | the count is at most the number of lines |
| Epub.ElevenChapterOf | bookaudio_web.py:106-121 | one chapter is joined, filtered by length, the table-of-contents test and blankness, as specified |
| Epub.ElevenChapterSome | bookaudio_web.py:106-121 | a kept chapter is at least 100 characters long, does not look like a table of contents and is not blank |
| Epub.ElevenChaptersFiltered | bookaudio_web.py:105-121 | every extracted chapter passes all three filters |
| Epub.ExtractChaptersEleven | bookaudio_web.py:39-123 | the extraction returns the surviving chapters of the content items, in order |
| Epub.SurvivingSound | bookaudio_web.py:73-121 | every chapter comes from one of the given items |
| Epub.SpeechifyChapterOf | bookaudio_web_speechify.py:106-108 | a chapter is the "\n"-join of the filtered paragraphs, kept iff non-blank |
| Epub.SpeechifyChapterKept | bookaudio_web_speechify.py:75-108 | in the speechify variant a chapter is kept iff some heading or block has non-blank text |
| Epub.ExtractChaptersSpeechify | bookaudio_web_speechify.py:39-110 | the speechify extraction returns the surviving chapters of the content items, in order |
| TextTools.FixSpacesShape | bookaudio_web_speechify.py:361-363 | the result has no whitespace run of two or more, no whitespace before .,!?;: and exactly one space between such a mark and a following ASCII letter |
| TextTools.FixSpacesKeepsText | bookaudio_web_speechify.py:361-363 | only whitespace is added or removed: the non-whitespace characters are the input's, in order |
| TextTools.HyphenJoin | bookaudio_web_speechify.py:368 | a word, "-", whitespace holding a newline and a second word become the two words run together, and the rewrite goes on after the second word |
| TextTools.JoinHyphensKeeps | bookaudio_web_speechify.py:368 | the hyphen rule removes only hyphens and whitespace |
| TextTools.FixHyphenationShape | bookaudio_web_speechify.py:368-369 | the result has no whitespace run, and apart from hyphens and whitespace it keeps the input's characters in order |
| TextTools.RemoveLineBreaksIsCollapse | bookaudio_web_speechify.py:374-376 | the three substitutions together equal collapsing every whitespace run to one space |
| TextTools.RemoveLineBreaksShape | bookaudio_web_speechify.py:374-376 | the result has no newline at all and no whitespace run, and keeps the non-whitespace characters |
| TextTools.SplitPunctRunsParts | bookaudio_web_speechify.py:347 | the capturing split alternates text and punctuation runs and concatenates back to the text |
| TextTools.Capitalize | bookaudio_web_speechify.py:346-356 | the loop yields the specified capitalisation of the split text |
| TextTools.CapitalizeRounds | bookaudio_web_speechify.py:348-355 | the loop over the even positions appends, per round, the capitalised sentence and the punctuation run after it, exactly as the specified rounds do |
| TextTools.AppendPiece | bookaudio_web_speechify.py:349-354 | one loop round appends the stripped, capitalised sentence and its punctuation followed by one space |
| TextTools.CapitalizeKeepsText | bookaudio_web_speechify.py:346-356 | capitalisation changes no letter other than by case and whitespace, and the result is already stripped |
| TextTools.CapitalizeOneSentence | bookaudio_web_speechify.py:346-356 | a stripped text without sentence punctuation only gets its first character upper-cased |
| TextTools.RoundsFromSpaced | bookaudio_web_speechify.py:348-355 | the rounds from part i append to the result the items of those rounds, each followed by one space |
| TextTools.CapitalizeItems | bookaudio_web_speechify.py:346-356 | the result is the items of all rounds joined by single spaces: for each text part whose strip is non-empty, the strip with its first character upper-cased, and each punctuation run unchanged, in source order |
| TextTools.ItemsTrimmed | bookaudio_web_speechify.py:349-354 | every item is non-empty and starts and ends in non-whitespace, so the final strip removes only the last space |
| TextTools.SplitTwoSentences | bookaudio_web_speechify.py:347 | two punctuation-free texts around one punctuation run split into exactly those three parts |
| TextTools.CapitalizeTwoSentences | bookaudio_web_speechify.py:346-356 | two non-blank sentences around a punctuation run p become the first capitalised, " ", p, " ", the second capitalised |
| TextTools.ApplyTool | bookaudio_web_speechify.py:339-378 | each known tool name applies its transform, and any other name returns the text unchanged |
| WebBook.GivenName | bookaudio_web_speechify.py:179-181 | the name is the stripped form field, or "untitled" when it is missing or blank; it is never empty |
| WebBook.BookNameShape | bookaudio_web_speechify.py:179-185 | the sanitised name holds only word characters, no whitespace or hyphen, and keeps the given name's letters and digits in order |
| WebBook.UnderscoreRunsWord | bookaudio_web_speechify.py:185 | replacing each run of [-\s] by "_" leaves only word characters |
| WebBook.PunctuationNameEmpty | bookaudio_web_speechify.py:179-184 | a name made only of punctuation sanitises to "", because the "untitled" default is applied before cleaning |
| WebBook.BlankNameUntitled | bookaudio_web_speechify.py:179-185 | a missing or blank name becomes "untitled" |
| WebBook.BookNameIdempotent | bookaudio_web_speechify.py:179-185 | sanitising a sanitised non-empty name changes nothing |
| WebBook.PageAt | bookaudio_web_speechify.py:240 | an unknown book is an error, and a page index is accepted iff 0 ≤ page_num < number of pages |
| WebBook.GetPage | bookaudio_web_speechify.py:233-248 | an accepted index returns that page's id and text with the page count; otherwise the same error |
| WebBook.WithText | bookaudio_web_speechify.py:266 | only the given page's text changes; other pages are unchanged |
| WebBook.SavePage | bookaudio_web_speechify.py:252-272 | a saved page changes only its text, and the text file "<id>.txt" receives the new text; a rejected index changes nothing |
| WebBook.SaveThenGet | bookaudio_web_speechify.py:262-266 | after a save, get_page of that page returns the new text and every other page reads as before |
| WebBook.SaveTwice | bookaudio_web_speechify.py:266 | a second save overrides the first, and saving the current text changes nothing |
| WebBook.PreviewText | bookaudio_web_speechify.py:286-290 | a preview needs an accepted index and a page text that is non-blank after stripping |

## Left out

- `auto_rotate_deskew` (Gaussian blur, Otsu threshold, `minAreaRect`,
  `warpAffine`) is floating-point OpenCV code. It is an opaque image-to-image
  parameter (`deskew`) of the page loop.
- Tesseract, PIL and the spell checker are oracles. `Ocr.Engine` returns text
  or raises, and `Normalizer.SpellChecker` holds `known`/`correction`; their
  internals are not modelled.
- Reading EXIF (`piexif`), `datetime.strptime` and the file mtime are not
  modelled. A parse is an oracle and timestamps are integers.
- Text-to-speech and audio (`eleven_tts_to_mp3`, `speechify_tts_to_mp3`, base64
  decoding, `combine_mp3s`) are network calls and audio codecs.
- Flask routes, templates, JSON persistence and every file read, write, glob
  or mkdir are left out. Loaded files and saved files are values
  (`LoadBook`'s `files`, `SaveAll`'s result, `Saved.file`).
- `secure_filename` is not modelled. Uploaded file names are not part of any
  id.
- EPUB parsing (ebooklib, BeautifulSoup) is out of scope. An item is given by
  its first heading, its headings and its paragraph blocks, already extracted
  as strings.
- The interactive `main` menus, the `input()` prompts other than the review
  edit, and all prints are left out.
- Floating-point comparisons are modelled with exact integer arithmetic: the
  1.15 factor, the 0.3 table-of-contents ratio and `int(... * 100)` in
  `get_progress`. Python floats can differ at an exact boundary; for example
  `int(0.29*100)` is 28.
- Regex `\s`, `\w` and `str.isspace`/`isalnum`/`isupper` are modelled over
  ASCII. Unicode classes and the extra separators `\x1c`-`\x1f` are not.
- `str.lower` and `str.upper` (`ToLower`, `ToUpper`) map only the ASCII
  letters and return one character for one. Python's Unicode case mapping is
  not modelled, nor its multi-character results (`'ß'.upper()` is `"SS"`).
  This affects `Normalizer.CorrectWord` (`word.lower() in spell`),
  `Epub.ChapterTitle` and `Epub.IsNonContent` (the lower-cased title) and
  `TextTools.CapitalizeFirst`: `capitalize` on "émile." gives "Émile ." in
  Python and "émile ." in the model.
- The test scripts (`test_*.py`) call live remote APIs or are command-line
  drivers, and are not part of the product.
- ChunkText.ChunkGroups: requires every sentence to be non-empty. The other
  cases are the empty text (`EmptyText`) and a trailing empty sentence
  (`TrailingEmptySentence`); `SentencesCases` shows there are no others.
- BookStateModule.BookState.LoadBook: requires the loaded file stems to be
  distinct, as they are in one directory.
- Pipeline.ReviewEditEleven and Pipeline.ReviewEditSpeechify return nothing
  when the input never contains the end marker. In the scripts, `input()`
  raises at end of input instead.
- `sorted(imgs, key=get_exif_datetime)` is modelled as the index order
  `StableOrder`; applying that order to the list of photos is not a member of
  its own.
- Pipeline.WebUploadOcr: the page filter of `upload_images` tests the text
  before its second `clean_text`, while `PartPages` tests it after. The two
  agree unless `clean_text` empties a non-empty text that it produced itself;
  that is not proved.
- The speechify `tts_only` text files and the `generate_audio`/`preview_audio`
  TTS calls are not modelled beyond the chunking and the page checks.
