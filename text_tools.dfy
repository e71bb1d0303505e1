/**
 * The editor's text tools of the Speechify web app (`text_tools` in
 * bookaudio_web_speechify.py): three chains of regular-expression rewrites
 * and a sentence capitaliser. Each `re.sub` is written out as the
 * left-to-right scan Python's regex engine performs, with `\s` the ASCII
 * whitespace of `Text.IsSpace` and `\w` the ASCII word characters.
 */
module TextTools {
  import opened Text

  // ---------------------------------------------------------------------
  // Filtering characters
  // ---------------------------------------------------------------------

  /** Which characters a filter drops: whitespace, or whitespace and
      hyphens. */
  datatype Filter = Whitespace | Breaks

  predicate Drops(f: Filter, c: char)
  {
    match f
    case Whitespace => IsSpace(c)
    case Breaks => IsSpace(c) || c == '-'
  }

  /** The characters of `s` that `f` does not drop, in order. */
  function Keep(s: string, f: Filter): string
    decreases |s|
  {
    if s == [] then [] else (if !Drops(f, s[0]) then [s[0]] else []) + Keep(s[1..], f)
  }

  lemma {:induction false} KeepAppend(a: string, b: string, f: Filter)
    ensures Keep(a + b, f) == Keep(a, f) + Keep(b, f)
    decreases |a|
  {
    if a == [] {
      assert a + b == b;
    } else {
      var h := if !Drops(f, a[0]) then [a[0]] else [];
      assert (a + b)[0] == a[0];
      assert (a + b)[1..] == a[1..] + b;
      KeepAppend(a[1..], b, f);
      assert Keep(a + b, f) == h + Keep(a[1..] + b, f);
      assert h + (Keep(a[1..], f) + Keep(b, f)) == (h + Keep(a[1..], f)) + Keep(b, f);
    }
  }

  /** A string whose every character `f` drops keeps nothing. */
  lemma {:induction false} KeepNone(a: string, f: Filter)
    requires forall i :: 0 <= i < |a| ==> Drops(f, a[i])
    ensures Keep(a, f) == []
    decreases |a|
  {
    if a != [] {
      assert forall i :: 0 <= i < |a[1..]| ==> a[1..][i] == a[i + 1];
      KeepNone(a[1..], f);
    }
  }

  lemma KeepChar(c: char, f: Filter)
    ensures Keep([c], f) == if !Drops(f, c) then [c] else []
  {
    assert [c][1..] == [];
  }

  /** Exchanging a gap of unkept characters for another, and a tail for one
      that keeps the same, keeps the same. */
  lemma KeepGap(x: string, g1: string, y1: string, g2: string, y2: string, f: Filter)
    requires forall i :: 0 <= i < |g1| ==> Drops(f, g1[i])
    requires forall i :: 0 <= i < |g2| ==> Drops(f, g2[i])
    requires Keep(y1, f) == Keep(y2, f)
    ensures Keep(x + g1 + y1, f) == Keep(x + g2 + y2, f)
  {
    KeepAppend(x + g1, y1, f);
    KeepAppend(x, g1, f);
    KeepNone(g1, f);
    KeepAppend(x + g2, y2, f);
    KeepAppend(x, g2, f);
    KeepNone(g2, f);
  }

  /** Two strings that share a prefix and go on with tails keeping the
      same characters keep the same characters. */
  lemma KeepPrefix(a: string, b: string, x: string, y1: string, y2: string, f: Filter)
    requires a == x + y1 && b == x + y2
    requires Keep(y1, f) == Keep(y2, f)
    ensures Keep(a, f) == Keep(b, f)
  {
    KeepAppend(x, y1, f);
    KeepAppend(x, y2, f);
  }

  /** Two strings that start with `c` and go on with tails keeping the same
      characters keep the same characters. */
  lemma KeepCons(a: string, b: string, c: char, y1: string, y2: string, f: Filter)
    requires a == [c] + y1 && b == [c] + y2
    requires Keep(y1, f) == Keep(y2, f)
    ensures Keep(a, f) == Keep(b, f)
  {
    KeepPrefix(a, b, [c], y1, y2, f);
  }

  /** A shared prefix, then gaps of unkept characters, then the same
      character `c`, then tails keeping the same. */
  lemma KeepMiddle(a: string, b: string, x: string, g1: string, c: char, t1: string, g2: string, t2: string, f: Filter)
    requires a == x + g1 + ([c] + t1) && b == x + g2 + ([c] + t2)
    requires forall i :: 0 <= i < |g1| ==> Drops(f, g1[i])
    requires forall i :: 0 <= i < |g2| ==> Drops(f, g2[i])
    requires Keep(t1, f) == Keep(t2, f)
    ensures Keep(a, f) == Keep(b, f)
  {
    KeepAppend([c], t1, f);
    KeepAppend([c], t2, f);
    KeepGap(x, g1, [c] + t1, g2, [c] + t2, f);
  }

  /** A shared prefix, a gap of unkept characters on one side only, then the
      same word `w`, then tails keeping the same. */
  lemma KeepMiddleWord(a: string, b: string, x: string, w: string, t1: string, g2: string, t2: string, f: Filter)
    requires a == x + (w + t1) && b == x + g2 + (w + t2)
    requires forall i :: 0 <= i < |g2| ==> Drops(f, g2[i])
    requires Keep(t1, f) == Keep(t2, f)
    ensures Keep(a, f) == Keep(b, f)
  {
    KeepWordGap(x, w, t1, g2, t2, f);
  }

  lemma KeepWordGap(x: string, w: string, t1: string, g2: string, t2: string, f: Filter)
    requires forall i :: 0 <= i < |g2| ==> Drops(f, g2[i])
    requires Keep(t1, f) == Keep(t2, f)
    ensures Keep(x + (w + t1), f) == Keep(x + g2 + (w + t2), f)
  {
    KeepPrefix(w + t1, w + t2, w, t1, t2, f);
    KeepTailGap(x, g2, f);
    KeepAppend(x, w + t1, f);
    KeepAppend(x + g2, w + t2, f);
  }

  /** Characters the filter drops add nothing at the end. */
  lemma KeepTailGap(x: string, g: string, f: Filter)
    requires forall i :: 0 <= i < |g| ==> Drops(f, g[i])
    ensures Keep(x + g, f) == Keep(x, f)
  {
    KeepAppend(x, g, f);
    KeepNone(g, f);
  }

  /** The characters that are not whitespace. */
  function NonSpace(s: string): string
  {
    Keep(s, Whitespace)
  }

  /** Rewriting whitespace runs into whitespace keeps every other character. */
  lemma {:induction false} ReplaceSpaceRunsNonSpace(s: string, rep: string)
    requires forall i :: 0 <= i < |rep| ==> IsSpace(rep[i])
    ensures NonSpace(ReplaceRuns(s, IsSpace, rep)) == NonSpace(s)
    decreases |s|
  {
    if s != [] {
      if IsSpace(s[0]) {
        var k := Span(s, IsSpace);
        SpanAll(s, IsSpace);
        var rest := ReplaceRuns(s[k..], IsSpace, rep);
        ReplaceSpaceRunsNonSpace(s[k..], rep);
        assert ReplaceRuns(s, IsSpace, rep) == rep + rest;
        KeepAppend(rep, rest, Whitespace);
        KeepNone(rep, Whitespace);
        assert s == s[..k] + s[k..];
        KeepAppend(s[..k], s[k..], Whitespace);
        KeepNone(s[..k], Whitespace);
      } else {
        var rest := ReplaceRuns(s[1..], IsSpace, rep);
        ReplaceSpaceRunsNonSpace(s[1..], rep);
        assert ReplaceRuns(s, IsSpace, rep) == [s[0]] + rest;
        KeepAppend([s[0]], rest, Whitespace);
        assert s == [s[0]] + s[1..];
        KeepAppend([s[0]], s[1..], Whitespace);
      }
    }
  }

  lemma CollapseWhitespaceNonSpace(s: string)
    ensures NonSpace(CollapseWhitespace(s)) == NonSpace(s)
  {
    ReplaceSpaceRunsNonSpace(s, " ");
  }

  // ---------------------------------------------------------------------
  // fix_spaces
  // ---------------------------------------------------------------------

  /** `[.,!?;:]` */
  predicate IsPunct(c: char)
  {
    c == '.' || c == ',' || c == '!' || c == '?' || c == ';' || c == ':'
  }

  /** `re.sub(r'\s+([.,!?;:])', r'\1', s)`: a whitespace run directly in
      front of a punctuation mark is deleted. */
  function DropSpaceBeforePunct(s: string): string
    decreases |s|
  {
    if s == [] then []
    else if IsSpace(s[0]) then
      var k := Span(s, IsSpace);
      SpanAll(s, IsSpace);
      if k < |s| && IsPunct(s[k]) then [s[k]] + DropSpaceBeforePunct(s[k + 1..])
      else s[..k] + DropSpaceBeforePunct(s[k..])
    else [s[0]] + DropSpaceBeforePunct(s[1..])
  }

  /** `re.sub(r'([.,!?;:])\s*([a-zA-Z])', r'\1 \2', s)`: the whitespace
      between a punctuation mark and a letter after it becomes one space. */
  function SpaceAfterPunct(s: string): string
    decreases |s|
  {
    if s == [] then []
    else if IsPunct(s[0]) then
      var k := 1 + Span(s[1..], IsSpace);
      if k < |s| && IsAsciiLetter(s[k]) then [s[0], ' ', s[k]] + SpaceAfterPunct(s[k + 1..])
      else [s[0]] + SpaceAfterPunct(s[1..])
    else [s[0]] + SpaceAfterPunct(s[1..])
  }

  /** The `fix_spaces` tool. */
  function FixSpaces(s: string): string
  {
    SpaceAfterPunct(DropSpaceBeforePunct(CollapseWhitespace(s)))
  }

  /** Only plain spaces, never two whitespace characters in a row and no
      whitespace in front of a punctuation mark. */
  ghost predicate SpaceOk(s: string)
  {
    forall i :: 0 <= i < |s| && IsSpace(s[i]) ==>
      s[i] == ' ' && (i + 1 < |s| ==> !IsSpace(s[i + 1]) && !IsPunct(s[i + 1]))
  }

  /** No letter directly after a punctuation mark. */
  ghost predicate PunctOk(s: string)
  {
    forall i :: 0 <= i < |s| - 1 && IsPunct(s[i]) ==> !IsAsciiLetter(s[i + 1])
  }

  lemma SpaceOkCons(c: char, t: string)
    requires SpaceOk(t)
    requires IsSpace(c) ==> c == ' ' && (t != [] ==> !IsSpace(t[0]) && !IsPunct(t[0]))
    ensures SpaceOk([c] + t)
  {
    var s := [c] + t;
    forall i | 0 <= i < |s| && IsSpace(s[i])
      ensures s[i] == ' ' && (i + 1 < |s| ==> !IsSpace(s[i + 1]) && !IsPunct(s[i + 1]))
    {
      if i > 0 {
        assert s[i] == t[i - 1];
        if i + 1 < |s| {
          assert s[i + 1] == t[i];
        }
      }
    }
  }

  lemma PunctOkCons(c: char, t: string)
    requires PunctOk(t)
    requires IsPunct(c) && t != [] ==> !IsAsciiLetter(t[0])
    ensures PunctOk([c] + t)
  {
    var s := [c] + t;
    forall i | 0 <= i < |s| - 1 && IsPunct(s[i]) ensures !IsAsciiLetter(s[i + 1]) {
      if i > 0 {
        assert s[i] == t[i - 1] && s[i + 1] == t[i];
      }
    }
  }

  lemma SpaceOkSuffix(s: string, k: nat)
    requires SpaceOk(s) && k <= |s|
    ensures SpaceOk(s[k..])
  {
    var t := s[k..];
    forall i | 0 <= i < |t| && IsSpace(t[i])
      ensures t[i] == ' ' && (i + 1 < |t| ==> !IsSpace(t[i + 1]) && !IsPunct(t[i + 1]))
    {
      assert t[i] == s[k + i];
      if i + 1 < |t| {
        assert t[i + 1] == s[k + i + 1];
      }
    }
  }

  lemma NoRunSuffix(s: string, k: nat)
    requires NoWhitespaceRun(s) && k <= |s|
    ensures NoWhitespaceRun(s[k..])
  {
    var t := s[k..];
    forall i | 0 <= i < |t| && IsSpace(t[i])
      ensures t[i] == ' ' && (i + 1 < |t| ==> !IsSpace(t[i + 1]))
    {
      assert t[i] == s[k + i];
      if i + 1 < |t| {
        assert t[i + 1] == s[k + i + 1];
      }
    }
  }

  /** The first character `DropSpaceBeforePunct` emits. */
  lemma DropSpaceHead(s: string)
    requires NoWhitespaceRun(s) && s != []
    ensures var r := DropSpaceBeforePunct(s);
      r != [] && r[0] == (if IsSpace(s[0]) && 1 < |s| && IsPunct(s[1]) then s[1] else s[0])
  {
    if IsSpace(s[0]) {
      var k := Span(s, IsSpace);
      SpanAll(s, IsSpace);
      if 1 < |s| {
        assert !IsSpace(s[1]);
      }
      assert k == 1;
    }
  }

  /** Deleting the whitespace in front of punctuation leaves a string with no
      whitespace run and no whitespace in front of a punctuation mark. */
  lemma {:induction false} DropSpaceBeforePunctOk(s: string)
    requires NoWhitespaceRun(s)
    ensures SpaceOk(DropSpaceBeforePunct(s))
    decreases |s|
  {
    if s != [] {
      var r := DropSpaceBeforePunct(s);
      if IsSpace(s[0]) {
        var k := Span(s, IsSpace);
        SpanAll(s, IsSpace);
        if 1 < |s| {
          assert !IsSpace(s[1]);
        }
        assert k == 1;
        NoRunSuffix(s, 1);
        if k < |s| && IsPunct(s[k]) {
          NoRunSuffix(s, 2);
          DropSpaceBeforePunctOk(s[2..]);
          assert r == [s[1]] + DropSpaceBeforePunct(s[2..]);
          SpaceOkCons(s[1], DropSpaceBeforePunct(s[2..]));
        } else {
          DropSpaceBeforePunctOk(s[1..]);
          assert s[..1] == [s[0]];
          assert r == [s[0]] + DropSpaceBeforePunct(s[1..]);
          if 1 < |s| {
            DropSpaceHead(s[1..]);
          }
          SpaceOkCons(s[0], DropSpaceBeforePunct(s[1..]));
        }
      } else {
        NoRunSuffix(s, 1);
        DropSpaceBeforePunctOk(s[1..]);
        SpaceOkCons(s[0], DropSpaceBeforePunct(s[1..]));
      }
    }
  }

  /** `SpaceAfterPunct` begins with the character it starts from. */
  lemma SpaceAfterHead(s: string)
    requires s != []
    ensures SpaceAfterPunct(s) != [] && SpaceAfterPunct(s)[0] == s[0]
  {
  }

  /** A punctuation mark, one space and a letter in front of a text that
      keeps both rules. */
  lemma SpacedLetterOk(p: char, c: char, t: string)
    requires IsPunct(p) && IsAsciiLetter(c)
    requires SpaceOk(t) && PunctOk(t)
    ensures SpaceOk([p] + ([' '] + ([c] + t))) && PunctOk([p] + ([' '] + ([c] + t)))
  {
    SpaceOkCons(c, t);
    PunctOkCons(c, t);
    SpaceOkCons(' ', [c] + t);
    PunctOkCons(' ', [c] + t);
    SpaceOkCons(p, [' '] + ([c] + t));
    PunctOkCons(p, [' '] + ([c] + t));
  }

  /** Putting one space between punctuation and a following letter keeps
      the spacing rules and leaves no letter glued to a punctuation mark. */
  lemma {:induction false} SpaceAfterPunctOk(s: string)
    requires SpaceOk(s)
    ensures SpaceOk(SpaceAfterPunct(s)) && PunctOk(SpaceAfterPunct(s))
    decreases |s|
  {
    if s != [] {
      var r := SpaceAfterPunct(s);
      SpaceOkSuffix(s, 1);
      if IsPunct(s[0]) {
        var k := 1 + Span(s[1..], IsSpace);
        if k < |s| && IsAsciiLetter(s[k]) {
          SpaceOkSuffix(s, k + 1);
          var t := SpaceAfterPunct(s[k + 1..]);
          SpaceAfterPunctOk(s[k + 1..]);
          assert r == [s[0]] + ([' '] + ([s[k]] + t));
          SpacedLetterOk(s[0], s[k], t);
        } else {
          var t := SpaceAfterPunct(s[1..]);
          SpaceAfterPunctOk(s[1..]);
          if 1 < |s| {
            SpaceAfterHead(s[1..]);
            assert !IsAsciiLetter(s[1]);
          }
          SpaceOkCons(s[0], t);
          PunctOkCons(s[0], t);
        }
      } else {
        var t := SpaceAfterPunct(s[1..]);
        SpaceAfterPunctOk(s[1..]);
        if 1 < |s| {
          SpaceAfterHead(s[1..]);
        }
        SpaceOkCons(s[0], t);
        PunctOkCons(s[0], t);
      }
    }
  }

  ghost predicate NoSpaceBeforePunct(r: string)
  {
    forall i :: 0 <= i < |r| - 1 && IsSpace(r[i]) ==> !IsPunct(r[i + 1])
  }

  /** Wherever only whitespace stands between a punctuation mark and an ASCII
      letter, it is exactly one space. */
  ghost predicate OneSpaceAfterPunct(r: string)
  {
    forall i, j :: 0 <= i < j < |r| && IsPunct(r[i]) && IsAsciiLetter(r[j]) && OnlySpaceBetween(r, i, j) ==>
      j == i + 2 && r[i + 1] == ' '
  }

  ghost predicate OnlySpaceBetween(r: string, i: int, j: int)
  {
    forall k :: i < k < j && 0 <= k < |r| ==> IsSpace(r[k])
  }

  /** What `fix_spaces` promises: no run of whitespace, no whitespace in front
      of `.,!?;:`, and exactly one space between such a mark and an ASCII
      letter that follows it across whitespace. */
  lemma FixSpacesShape(s: string)
    ensures NoWhitespaceRun(FixSpaces(s))
    ensures NoSpaceBeforePunct(FixSpaces(s))
    ensures OneSpaceAfterPunct(FixSpaces(s))
  {
    CollapseWhitespaceNoRun(s);
    DropSpaceBeforePunctOk(CollapseWhitespace(s));
    SpaceAfterPunctOk(DropSpaceBeforePunct(CollapseWhitespace(s)));
    var r := FixSpaces(s);
    forall i, j | 0 <= i < j < |r| && IsPunct(r[i]) && IsAsciiLetter(r[j]) && OnlySpaceBetween(r, i, j)
      ensures j == i + 2 && r[i + 1] == ' '
    {
      assert j != i + 1;
      assert IsSpace(r[i + 1]);
      assert i + 2 < |r| ==> !IsSpace(r[i + 2]);
    }
  }

  lemma {:induction false} DropSpaceBeforePunctNonSpace(s: string)
    ensures NonSpace(DropSpaceBeforePunct(s)) == NonSpace(s)
    decreases |s|
  {
    if s != [] {
      if IsSpace(s[0]) {
        var k := Span(s, IsSpace);
        SpanAll(s, IsSpace);
        assert s == s[..k] + s[k..];
        KeepAppend(s[..k], s[k..], Whitespace);
        KeepNone(s[..k], Whitespace);
        if k < |s| && IsPunct(s[k]) {
          DropSpaceBeforePunctNonSpace(s[k + 1..]);
          KeepAppend([s[k]], DropSpaceBeforePunct(s[k + 1..]), Whitespace);
          assert s[k..] == [s[k]] + s[k + 1..];
          KeepAppend([s[k]], s[k + 1..], Whitespace);
        } else {
          DropSpaceBeforePunctNonSpace(s[k..]);
          KeepAppend(s[..k], DropSpaceBeforePunct(s[k..]), Whitespace);
        }
      } else {
        DropSpaceBeforePunctNonSpace(s[1..]);
        KeepAppend([s[0]], DropSpaceBeforePunct(s[1..]), Whitespace);
        assert s == [s[0]] + s[1..];
        KeepAppend([s[0]], s[1..], Whitespace);
      }
    }
  }

  /** A punctuation mark followed by a letter across whitespace. */
  predicate PunctThenLetter(s: string)
  {
    s != [] && IsPunct(s[0]) && 1 + Span(s[1..], IsSpace) < |s| && IsAsciiLetter(s[1 + Span(s[1..], IsSpace)])
  }

  lemma {:induction false} SpaceAfterPunctNonSpace(s: string)
    ensures NonSpace(SpaceAfterPunct(s)) == NonSpace(s)
    decreases |s|
  {
    if PunctThenLetter(s) {
      var g, c, rest := PunctThenLetterParts(s);
      SpaceAfterPunctNonSpace(rest);
      KeepMiddle(SpaceAfterPunct(s), s, [s[0]], " ", c, SpaceAfterPunct(rest), g, rest, Whitespace);
    } else if s != [] {
      SpaceAfterPunctNonSpace(s[1..]);
      SpaceAfterSkipStep(s);
    }
  }

  /** A match of `([.,!?;:])\s*([a-zA-Z])` at the start of `s`, taken apart. */
  lemma PunctThenLetterParts(s: string) returns (g: string, c: char, rest: string)
    requires PunctThenLetter(s)
    ensures s == [s[0]] + g + ([c] + rest)
    ensures SpaceAfterPunct(s) == [s[0]] + " " + ([c] + SpaceAfterPunct(rest))
    ensures forall i :: 0 <= i < |g| ==> Drops(Whitespace, g[i])
    ensures |rest| < |s|
  {
    var k := 1 + Span(s[1..], IsSpace);
    g := s[1..][..k - 1];
    c := s[k];
    rest := s[k + 1..];
    SpanPrefix(s[1..], IsSpace);
    assert s == [s[0]] + g + ([c] + rest);
  }

  lemma SpaceAfterSkipStep(s: string)
    requires s != [] && !PunctThenLetter(s)
    requires NonSpace(SpaceAfterPunct(s[1..])) == NonSpace(s[1..])
    ensures NonSpace(SpaceAfterPunct(s)) == NonSpace(s)
  {
    assert SpaceAfterPunct(s) == [s[0]] + SpaceAfterPunct(s[1..]);
    assert s == [s[0]] + s[1..];
    KeepCons(SpaceAfterPunct(s), s, s[0], SpaceAfterPunct(s[1..]), s[1..], Whitespace);
  }

  /** `fix_spaces` only moves whitespace: every other character stays, in
      order. */
  lemma FixSpacesKeepsText(s: string)
    ensures NonSpace(FixSpaces(s)) == NonSpace(s)
  {
    CollapseWhitespaceNonSpace(s);
    DropSpaceBeforePunctNonSpace(CollapseWhitespace(s));
    SpaceAfterPunctNonSpace(DropSpaceBeforePunct(CollapseWhitespace(s)));
  }

  // ---------------------------------------------------------------------
  // fix_hyphenation
  // ---------------------------------------------------------------------

  /** The character classes the regular expressions scan runs of. */
  datatype CharClass = Word | Space | Mark | Plain

  /** `\w`, `\s`, `[.!?]`, and anything but `[.!?]`. */
  predicate InClass(k: CharClass, c: char)
  {
    match k
    case Word => IsWordChar(c)
    case Space => IsSpace(c)
    case Mark => IsSentencePunct(c)
    case Plain => !IsSentencePunct(c)
  }

  /** Length of the leading run of characters of class `k`. */
  function RunLen(s: string, k: CharClass): (n: nat)
    ensures n <= |s|
    ensures n < |s| ==> !InClass(k, s[n])
    decreases |s|
  {
    if s == [] || !InClass(k, s[0]) then 0 else 1 + RunLen(s[1..], k)
  }

  lemma {:induction false} RunLenRun(s: string, k: CharClass)
    ensures forall i :: 0 <= i < RunLen(s, k) ==> InClass(k, s[i])
    decreases |s|
  {
    if s != [] && InClass(k, s[0]) {
      RunLenRun(s[1..], k);
      assert forall i :: 0 < i < |s| ==> s[i] == s[1..][i - 1];
    }
  }

  lemma {:induction false} RunLenAll(s: string, k: CharClass)
    requires forall i :: 0 <= i < |s| ==> InClass(k, s[i])
    ensures RunLen(s, k) == |s|
    decreases |s|
  {
    if s != [] {
      assert forall i :: 0 <= i < |s[1..]| ==> s[1..][i] == s[i + 1];
      RunLenAll(s[1..], k);
    }
  }

  /** Whether `s` holds a line break. */
  predicate HasNewline(s: string)
    decreases |s|
  {
    s != [] && (s[0] == '\n' || HasNewline(s[1..]))
  }

  lemma {:induction false} HasNewlineIff(s: string)
    ensures HasNewline(s) <==> '\n' in s
    decreases |s|
  {
    if s != [] {
      HasNewlineIff(s[1..]);
      assert s == [s[0]] + s[1..];
    }
  }

  /** `\s*\n\s*\w` matches at the start of `t`: the leading whitespace holds
      a line break and a word character follows it. */
  predicate LineBreakThenWord(t: string)
  {
    var m := RunLen(t, Space);
    m < |t| && IsWordChar(t[m]) && HasNewline(t[..m])
  }

  /** A word, a hyphen, and `\s*\n\s*\w` after it. */
  predicate HyphenBreak(s: string)
  {
    var k := RunLen(s, Word);
    0 < k < |s| && s[k] == '-' && LineBreakThenWord(s[k + 1..])
  }

  /** `re.sub(r'(\w+)-\s*\n\s*(\w+)', r'\1\2', s)`: a word, a hyphen, a
      line break within whitespace and a second word become the two words
      run together. A failed match at the start of a word fails at every
      later position in it, so the scan moves on word by word. */
  function JoinHyphens(s: string): string
    decreases |s|
  {
    if s == [] then []
    else if HyphenBreak(s) then
      var k := RunLen(s, Word);
      var t := s[k + 1..];
      var m := RunLen(t, Space);
      var l := RunLen(t[m..], Word);
      s[..k] + (t[m..m + l] + JoinHyphens(t[m + l..]))
    else if IsWordChar(s[0]) then s[..RunLen(s, Word)] + JoinHyphens(s[RunLen(s, Word)..])
    else [s[0]] + JoinHyphens(s[1..])
  }

  /** The `fix_hyphenation` tool. */
  function FixHyphenation(s: string): string
  {
    CollapseWhitespace(JoinHyphens(s))
  }

  lemma {:induction false} JoinHyphensKeeps(s: string)
    ensures Keep(JoinHyphens(s), Breaks) == Keep(s, Breaks)
    decreases |s|
  {
    if HyphenBreak(s) {
      var w, g, w', rest := HyphenBreakParts(s);
      JoinHyphensKeeps(rest);
      KeepMiddleWord(JoinHyphens(s), s, w, w', JoinHyphens(rest), g, rest, Breaks);
    } else if s != [] && IsWordChar(s[0]) {
      var k := RunLen(s, Word);
      JoinHyphensKeeps(s[k..]);
      JoinWordStep(s, k);
    } else if s != [] {
      JoinHyphensKeeps(s[1..]);
      JoinOtherStep(s);
    }
  }

  /** A match of `(\w+)-\s*\n\s*(\w+)` at the start of `s`, taken apart. */
  lemma HyphenBreakParts(s: string) returns (w: string, g: string, w': string, rest: string)
    requires HyphenBreak(s)
    ensures s == w + g + (w' + rest)
    ensures JoinHyphens(s) == w + (w' + JoinHyphens(rest))
    ensures forall i :: 0 <= i < |g| ==> Drops(Breaks, g[i])
    ensures |rest| < |s|
  {
    var k, m, l := HyphenBreakUnfold(s);
    var t := s[k + 1..];
    w := s[..k];
    g := [s[k]] + t[..m];
    w' := t[m..m + l];
    rest := t[m + l..];
    SplitAround(s, k, m, l);
    GapDrops(s[k], t, m);
  }

  /** The hyphen and the whitespace run after it are all dropped by the
      `Breaks` filter. */
  lemma GapDrops(hyphen: char, t: string, m: nat)
    requires hyphen == '-' && m == RunLen(t, Space)
    ensures forall i :: 0 <= i < |[hyphen] + t[..m]| ==> Drops(Breaks, ([hyphen] + t[..m])[i])
  {
    RunLenRun(t, Space);
    var g := [hyphen] + t[..m];
    forall i | 0 <= i < |g|
      ensures Drops(Breaks, g[i])
    {
      if i > 0 {
        assert g[i] == t[i - 1];
      }
    }
  }

  /** A run of class `k` stops where the class does. */
  lemma {:induction false} RunLenPrefix(a: string, b: string, k: CharClass)
    requires forall i :: 0 <= i < |a| ==> InClass(k, a[i])
    requires b == [] || !InClass(k, b[0])
    ensures RunLen(a + b, k) == |a|
    decreases |a|
  {
    if a != [] {
      assert (a + b)[1..] == a[1..] + b;
      RunLenPrefix(a[1..], b, k);
    }
  }

  /** The runs the hyphenation pattern scans, on a word, a hyphen,
      whitespace holding a line break and a second word. */
  lemma HyphenMatch(w: string, gap: string, w': string, rest: string)
    requires w != [] && forall i :: 0 <= i < |w| ==> IsWordChar(w[i])
    requires '\n' in gap && forall i :: 0 <= i < |gap| ==> IsSpace(gap[i])
    requires w' != [] && forall i :: 0 <= i < |w'| ==> IsWordChar(w'[i])
    requires rest == [] || !IsWordChar(rest[0])
    ensures MatchRuns(w, gap, w', rest)
  {
    var t := gap + (w' + rest);
    var s := w + ("-" + t);
    RunLenPrefix(w, "-" + t, Word);
    assert s[|w| + 1..] == t;
    RunLenPrefix(gap, w' + rest, Space);
    assert t[..|gap|] == gap;
    HasNewlineIff(gap);
    assert t[|gap|..] == w' + rest;
    RunLenPrefix(w', rest, Word);
  }

  /** The runs the hyphenation pattern scans have the lengths of the pieces. */
  ghost predicate MatchRuns(w: string, gap: string, w': string, rest: string)
  {
    var s := w + ("-" + (gap + (w' + rest)));
    && RunLen(s, Word) == |w| && s[|w| + 1..] == gap + (w' + rest)
    && RunLen(gap + (w' + rest), Space) == |gap| && (gap + (w' + rest))[|gap|..] == w' + rest
    && RunLen(w' + rest, Word) == |w'|
    && HyphenBreak(s)
  }

  /** The hyphenation rule on a word, a hyphen, whitespace holding a line
      break and a second word: the two words are run together and the scan
      goes on after the second one. */
  lemma HyphenJoin(w: string, gap: string, w': string, rest: string)
    requires w != [] && forall i :: 0 <= i < |w| ==> IsWordChar(w[i])
    requires '\n' in gap && forall i :: 0 <= i < |gap| ==> IsSpace(gap[i])
    requires w' != [] && forall i :: 0 <= i < |w'| ==> IsWordChar(w'[i])
    requires rest == [] || !IsWordChar(rest[0])
    ensures JoinHyphens(w + ("-" + (gap + (w' + rest)))) == w + (w' + JoinHyphens(rest))
  {
    HyphenMatch(w, gap, w', rest);
    HyphenRewrite(w, gap, w', rest);
  }

  /** A match whose runs have the lengths of its pieces is rewritten to its
      two words. */
  lemma HyphenRewrite(w: string, gap: string, w': string, rest: string)
    requires MatchRuns(w, gap, w', rest)
    ensures JoinHyphens(w + ("-" + (gap + (w' + rest)))) == w + (w' + JoinHyphens(rest))
  {
    ConcatSlices(w, gap, w', rest);
    var k, m, l := HyphenBreakUnfold(w + ("-" + (gap + (w' + rest))));
  }

  /** Where the pieces of a hyphen match sit in the string. */
  lemma ConcatSlices(w: string, gap: string, w': string, rest: string)
    ensures var s := w + ("-" + (gap + (w' + rest)));
      && s[..|w|] == w
      && s[|w| + 1..][|gap|..|gap| + |w'|] == w'
      && s[|w| + 1..][|gap| + |w'|..] == rest
  {
    var u := w' + rest;
    var t := gap + u;
    var s := w + ("-" + t);
    assert s[|w| + 1..] == t;
    assert t[|gap|..] == u;
    assert t[|gap|..|gap| + |w'|] == u[..|w'|];
    assert t[|gap| + |w'|..] == u[|w'|..];
  }

  /** How `JoinHyphens` rewrites a match at the start of `s`. */
  lemma HyphenBreakUnfold(s: string) returns (k: nat, m: nat, l: nat)
    requires HyphenBreak(s)
    ensures k < |s| && s[k] == '-' && k + 1 + m + l <= |s| && m == RunLen(s[k + 1..], Space)
    ensures k == RunLen(s, Word) && l == RunLen(s[k + 1..][m..], Word)
    ensures JoinHyphens(s) == s[..k] + (s[k + 1..][m..m + l] + JoinHyphens(s[k + 1..][m + l..]))
  {
    k := RunLen(s, Word);
    var t := s[k + 1..];
    m := RunLen(t, Space);
    l := RunLen(t[m..], Word);
    HyphenBreakEq(s, k, t, m, l);
  }

  lemma HyphenBreakEq(s: string, k: nat, t: string, m: nat, l: nat)
    requires HyphenBreak(s) && k == RunLen(s, Word) && t == s[k + 1..]
    requires m == RunLen(t, Space) && l == RunLen(t[m..], Word)
    ensures JoinHyphens(s) == s[..k] + (t[m..m + l] + JoinHyphens(t[m + l..]))
  {
  }

  /** The pieces a match is cut into make up the string. */
  lemma SplitAround(s: string, k: nat, m: nat, l: nat)
    requires k < |s| && k + 1 + m + l <= |s|
    ensures s == s[..k] + ([s[k]] + s[k + 1..][..m]) + (s[k + 1..][m..m + l] + s[k + 1..][m + l..])
  {
    var t := s[k + 1..];
    assert t == t[..m] + (t[m..m + l] + t[m + l..]);
    assert s == s[..k] + [s[k]] + t;
  }

  /** The leading run `Span` measures satisfies the predicate throughout. */
  lemma SpanPrefix(u: string, p: char -> bool)
    ensures forall i :: 0 <= i < |u[..Span(u, p)]| ==> p(u[..Span(u, p)][i])
  {
    SpanAll(u, p);
  }

  lemma JoinWordStep(s: string, k: nat)
    requires s != [] && IsWordChar(s[0]) && !HyphenBreak(s) && k == RunLen(s, Word)
    requires Keep(JoinHyphens(s[k..]), Breaks) == Keep(s[k..], Breaks)
    ensures Keep(JoinHyphens(s), Breaks) == Keep(s, Breaks)
  {
    assert JoinHyphens(s) == s[..k] + JoinHyphens(s[k..]);
    assert s == s[..k] + s[k..];
    KeepPrefix(JoinHyphens(s), s, s[..k], JoinHyphens(s[k..]), s[k..], Breaks);
  }

  lemma JoinOtherStep(s: string)
    requires s != [] && !IsWordChar(s[0])
    requires Keep(JoinHyphens(s[1..]), Breaks) == Keep(s[1..], Breaks)
    ensures Keep(JoinHyphens(s), Breaks) == Keep(s, Breaks)
  {
    JoinOtherUnfold(s);
    assert s == [s[0]] + s[1..];
    KeepCons(JoinHyphens(s), s, s[0], JoinHyphens(s[1..]), s[1..], Breaks);
  }

  lemma JoinOtherUnfold(s: string)
    requires s != [] && !IsWordChar(s[0])
    ensures JoinHyphens(s) == [s[0]] + JoinHyphens(s[1..])
  {
    assert !HyphenBreak(s);
  }

  lemma NonSpaceKeep(s: string)
    ensures Keep(NonSpace(s), Breaks) == Keep(s, Breaks)
    decreases |s|
  {
    if s != [] {
      assert s == [s[0]] + s[1..];
      KeepAppend([s[0]], s[1..], Whitespace);
      KeepAppend([s[0]], s[1..], Breaks);
      NonSpaceKeep(s[1..]);
      KeepAppend(Keep([s[0]], Whitespace), NonSpace(s[1..]), Breaks);
      KeepChar(s[0], Whitespace);
      KeepChar(s[0], Breaks);
      assert Keep([], Breaks) == [];
    }
  }

  /** `fix_hyphenation` deletes only hyphens and whitespace, leaves no run of
      whitespace, and keeps every other character in order. */
  lemma FixHyphenationShape(s: string)
    ensures NoWhitespaceRun(FixHyphenation(s))
    ensures Keep(FixHyphenation(s), Breaks) == Keep(s, Breaks)
  {
    CollapseWhitespaceNoRun(JoinHyphens(s));
    JoinHyphensKeeps(s);
    CollapseWhitespaceNonSpace(JoinHyphens(s));
    NonSpaceKeep(FixHyphenation(s));
    NonSpaceKeep(JoinHyphens(s));
  }

  // ---------------------------------------------------------------------
  // remove_line_breaks
  // ---------------------------------------------------------------------

  /** Index of the last line break in `s`, or -1. */
  function LastNewline(s: string): (r: int)
    ensures -1 <= r < |s|
    ensures r >= 0 ==> s[r] == '\n'
    ensures forall i :: r < i < |s| ==> s[i] != '\n'
    decreases |s|
  {
    if s == [] then -1
    else if s[|s| - 1] == '\n' then |s| - 1
    else LastNewline(s[..|s| - 1])
  }

  /** `re.sub(r'\n\s*\n', '\n\n', s)`: from a line break, the whitespace up
      to the last line break of the same whitespace run becomes one blank
      line. */
  function SqueezeBlankLines(s: string): string
    decreases |s|
  {
    if s == [] then []
    else
      var b := LastNewline(s[..Span(s, IsSpace)]);
      if s[0] == '\n' && b > 0 then "\n\n" + SqueezeBlankLines(s[b + 1..])
      else [s[0]] + SqueezeBlankLines(s[1..])
  }

  /** `re.sub(r'(?<!\n)\n(?!\n)', ' ', s)`: a line break with no line break
      on either side becomes a space. */
  function JoinLines(s: string): string
  {
    seq(|s|, i requires 0 <= i < |s| =>
      if s[i] == '\n' && (i == 0 || s[i - 1] != '\n') && (i + 1 == |s| || s[i + 1] != '\n') then ' ' else s[i])
  }

  /** The `remove_line_breaks` tool. */
  function RemoveLineBreaks(s: string): string
  {
    CollapseWhitespace(JoinLines(SqueezeBlankLines(s)))
  }

  lemma CollapseHead(s: string)
    requires s != []
    ensures CollapseWhitespace(s) != []
    ensures IsSpace(s[0]) ==> CollapseWhitespace(s) == " " + CollapseWhitespace(s[Span(s, IsSpace)..])
    ensures !IsSpace(s[0]) ==> CollapseWhitespace(s) == [s[0]] + CollapseWhitespace(s[1..])
  {
  }

  /** Collapsing after the leading whitespace is determined by the collapsed
      whole. */
  lemma CollapseAfterLead(x: string, y: string)
    requires CollapseWhitespace(x) == CollapseWhitespace(y)
    ensures CollapseWhitespace(x[Span(x, IsSpace)..]) == CollapseWhitespace(y[Span(y, IsSpace)..])
  {
    LeadCollapse(x);
    LeadCollapse(y);
    var a := CollapseWhitespace(x[Span(x, IsSpace)..]);
    var b := CollapseWhitespace(y[Span(y, IsSpace)..]);
    assert (" " + a)[0] == ' ' && (" " + a)[1..] == a;
    assert (" " + b)[0] == ' ' && (" " + b)[1..] == b;
  }

  /** How a collapsed string begins: with one space exactly when the string
      begins with whitespace, and otherwise with what follows the leading
      whitespace. */
  lemma LeadCollapse(x: string)
    ensures x != [] && IsSpace(x[0]) ==>
      CollapseWhitespace(x) == " " + CollapseWhitespace(x[Span(x, IsSpace)..])
    ensures !(x != [] && IsSpace(x[0])) ==>
      && x[Span(x, IsSpace)..] == x
      && (CollapseWhitespace(x) == [] || !IsSpace(CollapseWhitespace(x)[0]))
  {
    if x != [] {
      CollapseHead(x);
      if !IsSpace(x[0]) {
        assert Span(x, IsSpace) == 0;
      }
    }
  }

  lemma SpanAfterBlank(w: string, x: string)
    requires w != [] && forall i :: 0 <= i < |w| ==> IsSpace(w[i])
    ensures Span(w + x, IsSpace) == |w| + Span(x, IsSpace)
    ensures (w + x)[Span(w + x, IsSpace)..] == x[Span(x, IsSpace)..]
    decreases |w|
  {
    if |w| > 1 {
      SpanAfterBlank(w[1..], x);
      assert (w + x)[1..] == w[1..] + x;
    } else {
      assert (w + x)[1..] == x;
    }
  }

  /** Leading whitespace of any non-empty form collapses to the same
      space. */
  lemma CollapseBlankPrefix(w: string, x: string, w': string, y: string)
    requires w != [] && forall i :: 0 <= i < |w| ==> IsSpace(w[i])
    requires w' != [] && forall i :: 0 <= i < |w'| ==> IsSpace(w'[i])
    requires CollapseWhitespace(x) == CollapseWhitespace(y)
    ensures CollapseWhitespace(w + x) == CollapseWhitespace(w' + y)
  {
    SpanAfterBlank(w, x);
    SpanAfterBlank(w', y);
    CollapseHead(w + x);
    CollapseHead(w' + y);
    CollapseAfterLead(x, y);
  }

  lemma CollapseCons(c: char, x: string, y: string)
    requires CollapseWhitespace(x) == CollapseWhitespace(y)
    ensures CollapseWhitespace([c] + x) == CollapseWhitespace([c] + y)
  {
    if IsSpace(c) {
      CollapseBlankPrefix([c], x, [c], y);
    } else {
      CollapseHead([c] + x);
      CollapseHead([c] + y);
      assert ([c] + x)[1..] == x;
      assert ([c] + y)[1..] == y;
    }
  }

  lemma BlankPrefixSplit(s: string, m: nat)
    requires 0 < m <= Span(s, IsSpace)
    ensures s == s[..m] + s[m..]
    ensures s[..m] != [] && forall i :: 0 <= i < |s[..m]| ==> IsSpace(s[..m][i])
  {
    SpanAll(s, IsSpace);
  }

  lemma {:induction false} SqueezeCollapse(s: string)
    ensures CollapseWhitespace(SqueezeBlankLines(s)) == CollapseWhitespace(s)
    decreases |s|
  {
    if s != [] {
      var n := Span(s, IsSpace);
      var b := LastNewline(s[..n]);
      if s[0] == '\n' && b > 0 {
        var rest := s[b + 1..];
        SqueezeCollapse(rest);
        SqueezeBlankStep(s, n, b, rest);
      } else {
        SqueezeCollapse(s[1..]);
        SqueezeOtherStep(s, n, b);
      }
    }
  }

  lemma SqueezeBlankStep(s: string, n: nat, b: int, rest: string)
    requires s != [] && n == Span(s, IsSpace) && b == LastNewline(s[..n])
    requires s[0] == '\n' && b > 0 && rest == s[b + 1..]
    requires CollapseWhitespace(SqueezeBlankLines(rest)) == CollapseWhitespace(rest)
    ensures CollapseWhitespace(SqueezeBlankLines(s)) == CollapseWhitespace(s)
  {
    assert SqueezeBlankLines(s) == "\n\n" + SqueezeBlankLines(rest);
    BlankPrefixSplit(s, b + 1);
    CollapseBlankPrefix("\n\n", SqueezeBlankLines(rest), s[..b + 1], rest);
  }

  lemma SqueezeOtherStep(s: string, n: nat, b: int)
    requires s != [] && n == Span(s, IsSpace) && b == LastNewline(s[..n])
    requires !(s[0] == '\n' && b > 0)
    requires CollapseWhitespace(SqueezeBlankLines(s[1..])) == CollapseWhitespace(s[1..])
    ensures CollapseWhitespace(SqueezeBlankLines(s)) == CollapseWhitespace(s)
  {
    assert SqueezeBlankLines(s) == [s[0]] + SqueezeBlankLines(s[1..]);
    assert s == [s[0]] + s[1..];
    CollapseCons(s[0], SqueezeBlankLines(s[1..]), s[1..]);
  }

  /** Two strings alike except for which whitespace characters they hold. */
  ghost predicate SameShape(s: string, t: string)
  {
    |s| == |t| && forall i :: 0 <= i < |s| ==> (IsSpace(s[i]) <==> IsSpace(t[i])) && (!IsSpace(s[i]) ==> s[i] == t[i])
  }

  lemma SpanSameShape(s: string, t: string)
    requires SameShape(s, t)
    ensures Span(s, IsSpace) == Span(t, IsSpace)
  {
    var a := Span(s, IsSpace);
    var b := Span(t, IsSpace);
    assert a < |s| ==> !IsSpace(t[a]);
    assert b < |t| ==> !IsSpace(s[b]);
  }

  lemma {:induction false} CollapseSameShape(s: string, t: string)
    requires SameShape(s, t)
    ensures CollapseWhitespace(s) == CollapseWhitespace(t)
    decreases |s|
  {
    if s != [] {
      CollapseHead(s);
      CollapseHead(t);
      if IsSpace(s[0]) {
        var k := Span(s, IsSpace);
        SpanAll(s, IsSpace);
        SpanSameShape(s, t);
        assert SameShape(s[k..], t[k..]) by {
          forall i | 0 <= i < |s[k..]| ensures s[k..][i] == s[k + i] && t[k..][i] == t[k + i] { }
        }
        CollapseSameShape(s[k..], t[k..]);
      } else {
        assert SameShape(s[1..], t[1..]) by {
          forall i | 0 <= i < |s[1..]| ensures s[1..][i] == s[i + 1] && t[1..][i] == t[i + 1] { }
        }
        CollapseSameShape(s[1..], t[1..]);
      }
    }
  }

  /** The last `\s+ -> ' '` pass undoes what the two before it did, so
      `remove_line_breaks` is exactly whitespace collapsing. */
  lemma RemoveLineBreaksIsCollapse(s: string)
    ensures RemoveLineBreaks(s) == CollapseWhitespace(s)
  {
    var q := SqueezeBlankLines(s);
    assert SameShape(JoinLines(q), q);
    CollapseSameShape(JoinLines(q), q);
    SqueezeCollapse(s);
  }

  /** The result of `remove_line_breaks` holds no line break at all, not even
      between paragraphs, and no run of whitespace; it keeps every other
      character in order. */
  lemma RemoveLineBreaksShape(s: string)
    ensures forall i :: 0 <= i < |RemoveLineBreaks(s)| ==> RemoveLineBreaks(s)[i] != '\n'
    ensures NoWhitespaceRun(RemoveLineBreaks(s))
    ensures NonSpace(RemoveLineBreaks(s)) == NonSpace(s)
  {
    RemoveLineBreaksIsCollapse(s);
    CollapseWhitespaceNoRun(s);
    CollapseWhitespaceNonSpace(s);
  }

  // ---------------------------------------------------------------------
  // capitalize
  // ---------------------------------------------------------------------

  /** `[.!?]` */
  predicate IsSentencePunct(c: char) { c == '.' || c == '!' || c == '?' }

  /** `re.split(r'([.!?]+)', s)`: the text between runs of sentence
      punctuation, with each run kept as its own part between them. */
  function SplitPunctRuns(s: string): (parts: seq<string>)
    ensures |parts| % 2 == 1
    decreases |s|
  {
    var k := RunLen(s, Plain);
    if k == |s| then [s]
    else
      var t := s[k..];
      MarkRunStarts(s, k);
      var r := RunLen(t, Mark);
      [s[..k], t[..r]] + SplitPunctRuns(t[r..])
  }

  /** Where the plain run stops short of the end, a punctuation run of at
      least one character begins. */
  lemma MarkRunStarts(s: string, k: nat)
    requires k < |s| && !InClass(Plain, s[k])
    ensures 0 < RunLen(s[k..], Mark) <= |s| - k
  {
    var t := s[k..];
    assert t[0] == s[k] && InClass(Mark, t[0]);
    assert RunLen(t, Mark) == 1 + RunLen(t[1..], Mark);
  }

  ghost predicate Alternating(parts: seq<string>)
  {
    && (forall j, i :: 0 <= j < |parts| && j % 2 == 0 && 0 <= i < |parts[j]| ==> !IsSentencePunct(parts[j][i]))
    && (forall j :: 0 <= j < |parts| && j % 2 == 1 ==> parts[j] != [])
    && (forall j, i :: 0 <= j < |parts| && j % 2 == 1 && 0 <= i < |parts[j]| ==> IsSentencePunct(parts[j][i]))
  }

  /** The parts alternate: text free of sentence punctuation at even
      positions, a non-empty punctuation run at odd ones; together they are
      the text. */
  lemma SplitPunctRunsParts(s: string)
    ensures Join("", SplitPunctRuns(s)) == s
    ensures Alternating(SplitPunctRuns(s))
  {
    SplitPunctRunsJoin(s);
    SplitPunctRunsAlternate(s);
  }

  lemma {:induction false} SplitPunctRunsJoin(s: string)
    ensures Join("", SplitPunctRuns(s)) == s
    decreases |s|
  {
    if RunLen(s, Plain) < |s| {
      var a, b, u := SplitPunctRunsCons(s);
      SplitPunctRunsJoin(u);
      JoinTwo(a, b, SplitPunctRuns(u));
    }
  }

  lemma {:induction false} SplitPunctRunsAlternate(s: string)
    ensures Alternating(SplitPunctRuns(s))
    decreases |s|
  {
    if RunLen(s, Plain) == |s| {
      RunLenRun(s, Plain);
    } else {
      var a, b, u := SplitPunctRunsCons(s);
      SplitPunctRunsAlternate(u);
      AlternatingCons(a, b, SplitPunctRuns(u));
    }
  }

  /** Joining with no separator after two leading parts. */
  lemma JoinTwo(a: string, b: string, rest: seq<string>)
    requires rest != []
    ensures Join("", [a, b] + rest) == a + (b + Join("", rest))
  {
    JoinCons("", b, rest);
    assert [a, b] + rest == [a] + ([b] + rest);
    JoinCons("", a, [b] + rest);
  }

  /** One round of the split: a plain part, a punctuation run, and the rest
      of the text. */
  lemma SplitPunctRunsCons(s: string) returns (a: string, b: string, u: string)
    requires RunLen(s, Plain) < |s|
    ensures SplitPunctRuns(s) == [a, b] + SplitPunctRuns(u)
    ensures s == a + (b + u) && |u| < |s|
    ensures forall i :: 0 <= i < |a| ==> !IsSentencePunct(a[i])
    ensures b != [] && forall i :: 0 <= i < |b| ==> IsSentencePunct(b[i])
  {
    var k := RunLen(s, Plain);
    var t := s[k..];
    MarkRunStarts(s, k);
    var r := RunLen(t, Mark);
    a, b, u := s[..k], t[..r], t[r..];
    PlainPrefix(s, k, a);
    MarkPrefix(t, r, b);
    SplitThree(s, k, t, r);
  }

  lemma SplitThree(s: string, k: nat, t: string, r: nat)
    requires k <= |s| && t == s[k..] && r <= |t|
    ensures s == s[..k] + (t[..r] + t[r..])
  {
    assert t == t[..r] + t[r..];
    assert s == s[..k] + t;
  }

  lemma PlainPrefix(s: string, k: nat, a: string)
    requires k == RunLen(s, Plain) && a == s[..k]
    ensures forall i :: 0 <= i < |a| ==> !IsSentencePunct(a[i])
  {
    RunLenRun(s, Plain);
  }

  lemma MarkPrefix(t: string, r: nat, b: string)
    requires r == RunLen(t, Mark) && b == t[..r]
    ensures forall i :: 0 <= i < |b| ==> IsSentencePunct(b[i])
  {
    RunLenRun(t, Mark);
  }

  lemma AlternatingCons(a: string, b: string, parts: seq<string>)
    requires forall i :: 0 <= i < |a| ==> !IsSentencePunct(a[i])
    requires b != [] && forall i :: 0 <= i < |b| ==> IsSentencePunct(b[i])
    requires Alternating(parts)
    ensures Alternating([a, b] + parts)
  {
    var ps := [a, b] + parts;
    assert forall j :: 2 <= j < |ps| ==> ps[j] == parts[j - 2];
  }

  /** `sentence[0].upper() + sentence[1:]` */
  function CapitalizeFirst(w: string): string
    requires w != []
  {
    [ToUpper(w[0])] + w[1..]
  }

  /** What one round of the loop appends for the part at `i`. */
  function Piece(parts: seq<string>, i: nat): string
    requires i < |parts|
  {
    var sentence := Strip(parts[i]);
    (if sentence != [] then CapitalizeFirst(sentence) + " " else "")
    + (if i + 1 < |parts| then parts[i + 1] + " " else "")
  }

  /** What the loop ends with when it reaches part `i` holding `acc`:
      each round handles the part at `i` and steps two parts on. */
  function RoundsFrom(parts: seq<string>, i: nat, acc: string): string
    decreases |parts| - i
  {
    if i >= |parts| then acc else RoundsFrom(parts, i + 2, acc + Piece(parts, i))
  }

  /** The `capitalize` tool: the rounds from the first part, stripped. */
  function CapitalizeSentences(text: string): string
  {
    Strip(RoundsFrom(SplitPunctRuns(text), 0, ""))
  }

  /** The `capitalize` loop, stepping through the parts two at a time. */
  method Capitalize(text: string) returns (r: string)
    ensures r == CapitalizeSentences(text)
  {
    var sentences := SplitPunctRuns(text);
    var result := CapitalizeRounds(sentences);
    r := Strip(result);
  }

  /** The `for i in range(0, len(sentences), 2)` loop of `capitalize`. */
  method CapitalizeRounds(sentences: seq<string>) returns (result: string)
    ensures result == RoundsFrom(sentences, 0, "")
  {
    result := "";
    var i: nat := 0;
    while i < |sentences|
      invariant RoundsFrom(sentences, i, result) == RoundsFrom(sentences, 0, "")
      decreases |sentences| - i
    {
      var next := AppendPiece(sentences, i, result);
      RoundStep(sentences, i, result, next);
      result := next;
      i := i + 2;
    }
  }

  /** One round of the loop: the rounds from `i` are the rounds from
      `i + 2` after appending the piece at `i`. */
  lemma RoundStep(parts: seq<string>, i: nat, acc: string, next: string)
    requires i < |parts| && next == acc + Piece(parts, i)
    ensures RoundsFrom(parts, i + 2, next) == RoundsFrom(parts, i, acc)
  {
  }

  /** One round of the `capitalize` loop: the stripped part at `i`
      capitalised, and the punctuation run after it, each followed by a
      space. */
  method AppendPiece(parts: seq<string>, i: nat, result: string) returns (r: string)
    requires i < |parts|
    ensures r == result + Piece(parts, i)
  {
    var sentence := Strip(parts[i]);
    var head := "";
    if sentence != [] {
      head := [ToUpper(sentence[0])] + sentence[1..] + " ";
    }
    var tail := "";
    if i + 1 < |parts| {
      tail := parts[i + 1] + " ";
    }
    r := result + (head + tail);
  }

  /** Lower-cased non-whitespace characters: what `capitalize` leaves alone. */
  function Letters(s: string): string
  {
    Lower(NonSpace(s))
  }

  lemma LettersAppend(a: string, b: string)
    ensures Letters(a + b) == Letters(a) + Letters(b)
  {
    KeepAppend(a, b, Whitespace);
    LowerAppend(NonSpace(a), NonSpace(b));
  }

  lemma LettersBlank(a: string)
    requires forall i :: 0 <= i < |a| ==> IsSpace(a[i])
    ensures Letters(a) == []
  {
    KeepNone(a, Whitespace);
  }

  lemma LettersStrip(s: string)
    ensures Letters(Strip(s)) == Letters(s)
  {
    NonSpaceTrimLeft(s);
    NonSpaceTrimRight(TrimLeft(s));
  }

  lemma {:induction false} NonSpaceTrimLeft(s: string)
    ensures NonSpace(TrimLeft(s)) == NonSpace(s)
    decreases |s|
  {
    if s != [] && IsSpace(s[0]) {
      NonSpaceTrimLeft(s[1..]);
    }
  }

  lemma {:induction false} NonSpaceTrimRight(s: string)
    ensures NonSpace(TrimRight(s)) == NonSpace(s)
    decreases |s|
  {
    if s != [] && IsSpace(s[|s| - 1]) {
      var init := s[..|s| - 1];
      NonSpaceTrimRight(init);
      assert s == init + [s[|s| - 1]];
      KeepAppend(init, [s[|s| - 1]], Whitespace);
      KeepChar(s[|s| - 1], Whitespace);
    }
  }

  lemma LowerUpper(c: char)
    ensures ToLower(ToUpper(c)) == ToLower(c)
  {
  }

  lemma LettersCapitalizeFirst(w: string)
    requires w != []
    ensures Letters(CapitalizeFirst(w)) == Letters(w)
  {
    LettersAppend([ToUpper(w[0])], w[1..]);
    assert w == [w[0]] + w[1..];
    LettersAppend([w[0]], w[1..]);
    KeepChar(ToUpper(w[0]), Whitespace);
    KeepChar(w[0], Whitespace);
    LowerUpper(w[0]);
  }

  lemma LettersPiece(parts: seq<string>, i: nat)
    requires i < |parts|
    ensures Letters(Piece(parts, i)) == RoundText(parts, i)
  {
    var sentence := Strip(parts[i]);
    var head := if sentence != [] then CapitalizeFirst(sentence) + " " else "";
    var tail := if i + 1 < |parts| then parts[i + 1] + " " else "";
    LettersAppend(head, tail);
    LettersHead(parts[i]);
    if i + 1 < |parts| {
      LettersSpaceAfter(parts[i + 1]);
    }
  }

  /** Up to case and whitespace, the capitalised sentence of a round is
      its part. */
  lemma LettersHead(part: string)
    ensures Letters(if Strip(part) != [] then CapitalizeFirst(Strip(part)) + " " else "") == Letters(part)
  {
    var sentence := Strip(part);
    LettersStrip(part);
    if sentence != [] {
      LettersSpaceAfter(CapitalizeFirst(sentence));
      LettersCapitalizeFirst(sentence);
    } else {
      LettersBlank(sentence);
    }
  }

  /** A space after a string adds nothing to its letters. */
  lemma LettersSpaceAfter(a: string)
    ensures Letters(a + " ") == Letters(a)
  {
    LettersAppend(a, " ");
    LettersBlank(" ");
    assert Letters(a) + [] == Letters(a);
  }

  /** Up to case and whitespace, what the round at part `i` adds: that
      part and the one after it. */
  function RoundText(parts: seq<string>, i: nat): string
    requires i < |parts|
  {
    Letters(parts[i]) + (if i + 1 < |parts| then Letters(parts[i + 1]) else "")
  }

  /** Up to case and whitespace, the rounds from part `i` add the parts from
      `i` on. */
  lemma {:induction false} LettersRoundsFrom(parts: seq<string>, i: nat, acc: string)
    requires i <= |parts|
    ensures Letters(RoundsFrom(parts, i, acc)) == Letters(acc) + Letters(Join("", parts[i..]))
    decreases |parts| - i
  {
    if i == |parts| {
      LettersNoRounds(parts, i, acc);
    } else if i + 1 == |parts| {
      LettersLastRound(parts, i, acc);
    } else {
      var j := i + 2;
      var next := acc + Piece(parts, i);
      LettersRoundsFrom(parts, j, next);
      LettersRoundStep(parts, i, acc, j, next);
    }
  }

  lemma LettersNoRounds(parts: seq<string>, i: nat, acc: string)
    requires i == |parts|
    ensures Letters(RoundsFrom(parts, i, acc)) == Letters(acc) + Letters(Join("", parts[i..]))
  {
    assert parts[i..] == [];
    assert Letters(acc) + [] == Letters(acc);
  }

  lemma LettersLastRound(parts: seq<string>, i: nat, acc: string)
    requires i + 1 == |parts|
    ensures Letters(RoundsFrom(parts, i, acc)) == Letters(acc) + Letters(Join("", parts[i..]))
  {
    LastRound(parts, i, acc);
    JoinLast(parts, i);
    LettersAppend(acc, Piece(parts, i));
    LettersPiece(parts, i);
    LastRoundText(parts, i);
  }

  lemma LastRound(parts: seq<string>, i: nat, acc: string)
    requires i + 1 == |parts|
    ensures RoundsFrom(parts, i, acc) == acc + Piece(parts, i)
  {
  }

  lemma JoinLast(parts: seq<string>, i: nat)
    requires i + 1 == |parts|
    ensures Join("", parts[i..]) == parts[i]
  {
    assert parts[i..] == [parts[i]];
  }

  lemma LastRoundText(parts: seq<string>, i: nat)
    requires i + 1 == |parts|
    ensures RoundText(parts, i) == Letters(parts[i])
  {
    assert Letters(parts[i]) + [] == Letters(parts[i]);
  }

  /** The step of `LettersRoundsFrom`: a round of two parts. */
  lemma LettersRoundStep(parts: seq<string>, i: nat, acc: string, j: nat, next: string)
    requires j == i + 2 <= |parts|
    requires next == acc + Piece(parts, i)
    requires Letters(RoundsFrom(parts, j, next)) == Letters(next) + Letters(Join("", parts[j..]))
    ensures Letters(RoundsFrom(parts, i, acc)) == Letters(acc) + Letters(Join("", parts[i..]))
  {
    LettersNext(parts, i, acc, next);
    LettersJoinFrom(parts, i, j);
    assert RoundsFrom(parts, i, acc) == RoundsFrom(parts, j, next);
    Regroup(Letters(RoundsFrom(parts, j, next)), Letters(next), Letters(Join("", parts[i..])),
      Letters(acc), Letters(parts[i]), Letters(parts[i + 1]), Letters(Join("", parts[j..])));
  }

  /** Up to case and whitespace, a round appends its two parts. */
  lemma LettersNext(parts: seq<string>, i: nat, acc: string, next: string)
    requires i + 2 <= |parts|
    requires next == acc + Piece(parts, i)
    ensures Letters(next) == Letters(acc) + (Letters(parts[i]) + Letters(parts[i + 1]))
  {
    LettersAppend(acc, Piece(parts, i));
    LettersPiece(parts, i);
  }

  /** Up to case and whitespace, joining from `i` is the parts at `i` and
      `i + 1`, then the join from `j`. */
  lemma LettersJoinFrom(parts: seq<string>, i: nat, j: nat)
    requires j == i + 2 <= |parts|
    ensures Letters(Join("", parts[i..]))
      == Letters(parts[i]) + (Letters(parts[i + 1]) + Letters(Join("", parts[j..])))
  {
    JoinTwoFrom(parts, i, j);
    LettersAppend3(parts[i], parts[i + 1], Join("", parts[j..]));
  }

  /** The regrouping that closes a round of `LettersRoundsFrom`. */
  lemma Regroup(rounds: string, next: string, joined: string, a: string, x: string, y: string, z: string)
    requires rounds == next + z
    requires next == a + (x + y)
    requires joined == x + (y + z)
    ensures rounds == a + joined
  {
    Assoc(a, x, y, z);
  }

  /** Joining from `i` puts the parts at `i` and `i + 1` before the rest. */
  lemma JoinTwoFrom(parts: seq<string>, i: nat, j: nat)
    requires j == i + 2 <= |parts|
    ensures Join("", parts[i..]) == parts[i] + (parts[i + 1] + Join("", parts[j..]))
  {
    var rest := parts[j..];
    assert parts[i..] == [parts[i]] + ([parts[i + 1]] + rest);
    if rest == [] {
      assert [parts[i]] + ([parts[i + 1]] + rest) == [parts[i], parts[i + 1]];
      assert parts[i + 1] + Join("", rest) == parts[i + 1];
    } else {
      JoinCons("", parts[i + 1], rest);
      assert parts[i + 1] + "" + Join("", rest) == parts[i + 1] + Join("", rest);
    }
    JoinCons("", parts[i], [parts[i + 1]] + rest);
    assert parts[i] + "" + Join("", [parts[i + 1]] + rest) == parts[i] + Join("", [parts[i + 1]] + rest);
  }

  lemma LettersAppend3(a: string, b: string, c: string)
    ensures Letters(a + (b + c)) == Letters(a) + (Letters(b) + Letters(c))
  {
    LettersAppend(a, b + c);
    LettersAppend(b, c);
  }

  /** Regrouping a concatenation of four strings. */
  lemma Assoc(w: string, x: string, y: string, z: string)
    ensures (w + (x + y)) + z == w + (x + (y + z))
  {
  }

  /** `capitalize` changes only letter case and whitespace: up to case, the
      non-whitespace characters of the result are those of the input, in
      order; and the result has no leading or trailing whitespace. */
  lemma CapitalizeKeepsText(text: string)
    ensures Letters(CapitalizeSentences(text)) == Letters(text)
    ensures Strip(CapitalizeSentences(text)) == CapitalizeSentences(text)
  {
    var parts := SplitPunctRuns(text);
    SplitPunctRunsJoin(text);
    LettersRoundsFrom(parts, 0, "");
    assert parts[0..] == parts;
    assert Letters("") == [];
    LettersStrip(RoundsFrom(parts, 0, ""));
    StripIdempotent(RoundsFrom(parts, 0, ""));
  }

  /** A stripped text with no sentence punctuation comes back with only its
      first character upper-cased. */
  lemma CapitalizeOneSentence(text: string)
    requires text != [] && !IsSpace(text[0]) && !IsSpace(text[|text| - 1])
    requires forall i :: 0 <= i < |text| ==> !IsSentencePunct(text[i])
    ensures CapitalizeSentences(text) == CapitalizeFirst(text)
  {
    RunLenAll(text, Plain);
    var parts := SplitPunctRuns(text);
    assert parts == [text];
    OneRound(text, parts);
  }

  /** The one round over a single stripped part. */
  lemma OneRound(text: string, parts: seq<string>)
    requires text != [] && !IsSpace(text[0]) && !IsSpace(text[|text| - 1])
    requires parts == [text]
    ensures Strip(RoundsFrom(parts, 0, "")) == CapitalizeFirst(text)
  {
    StripUnchanged(text);
    var c := CapitalizeFirst(text);
    assert RoundsFrom(parts, 0, "") == RoundsFrom(parts, 2, "" + Piece(parts, 0));
    assert Piece(parts, 0) == c + " ";
    assert RoundsFrom(parts, 0, "") == c + " ";
    assert c[|c| - 1] == text[|text| - 1] || |text| == 1;
    StripSpaceAfter(c);
  }

  /** A string starting and ending in non-whitespace, with one space after
      it, strips back to itself. */
  lemma StripSpaceAfter(c: string)
    requires c != [] && !IsSpace(c[0]) && !IsSpace(c[|c| - 1])
    ensures Strip(c + " ") == c
  {
    var s := c + " ";
    assert s[0] == c[0] && s[|s| - 1] == ' ';
    assert TrimLeft(s) == s;
    assert s[..|s| - 1] == c;
    assert TrimRight(s) == TrimRight(c);
    assert TrimRight(c) == c;
  }

  /** The items the round at part `i` emits: the stripped text part with
      its first character upper-cased, unless it is blank, then the
      punctuation run after it, when there is one. */
  function RoundItems(parts: seq<string>, i: nat): seq<string>
    requires i < |parts|
  {
    var sentence := Strip(parts[i]);
    (if sentence != [] then [CapitalizeFirst(sentence)] else [])
    + (if i + 1 < |parts| then [parts[i + 1]] else [])
  }

  /** The items of every round from part `i` on, in order. */
  function Items(parts: seq<string>, i: nat): seq<string>
    decreases |parts| - i
  {
    if i >= |parts| then [] else RoundItems(parts, i) + Items(parts, i + 2)
  }

  /** Each item followed by one space. */
  function Spaced(items: seq<string>): string
  {
    if items == [] then "" else items[0] + " " + Spaced(items[1..])
  }

  lemma {:induction false} SpacedAppend(a: seq<string>, b: seq<string>)
    ensures Spaced(a + b) == Spaced(a) + Spaced(b)
  {
    if a != [] {
      assert (a + b)[1..] == a[1..] + b;
      SpacedAppend(a[1..], b);
    } else {
      assert a + b == b;
    }
  }

  lemma {:induction false} SpacedJoin(items: seq<string>)
    requires items != []
    ensures Spaced(items) == Join(" ", items) + " "
  {
    if |items| > 1 {
      SpacedJoin(items[1..]);
    } else {
      assert items[1..] == [];
    }
  }

  lemma SpacedOne(x: string)
    ensures Spaced([x]) == x + " "
  {
    assert [x][1..] == [];
  }

  /** What one round appends is its items, each followed by a space. */
  lemma PieceSpaced(parts: seq<string>, i: nat)
    requires i < |parts|
    ensures Piece(parts, i) == Spaced(RoundItems(parts, i))
  {
    var sentence := Strip(parts[i]);
    var head: seq<string> := if sentence != [] then [CapitalizeFirst(sentence)] else [];
    var tail: seq<string> := if i + 1 < |parts| then [parts[i + 1]] else [];
    assert RoundItems(parts, i) == head + tail;
    SpacedAppend(head, tail);
    if sentence != [] { SpacedOne(CapitalizeFirst(sentence)); }
    if i + 1 < |parts| { SpacedOne(parts[i + 1]); }
  }

  /** The loop's output from part `i` on is `acc` followed by the items of
      the remaining rounds, each followed by a space. */
  lemma {:induction false} RoundsFromSpaced(parts: seq<string>, i: nat, acc: string)
    ensures RoundsFrom(parts, i, acc) == acc + Spaced(Items(parts, i))
    decreases |parts| - i
  {
    if i < |parts| {
      var piece := Piece(parts, i);
      var next := acc + piece;
      RoundsFromSpaced(parts, i + 2, next);
      RoundsSpacedStep(parts, i, acc, piece, next);
    } else {
      NoRoundsSpaced(parts, i, acc);
    }
  }

  lemma NoRoundsSpaced(parts: seq<string>, i: nat, acc: string)
    requires i >= |parts|
    ensures RoundsFrom(parts, i, acc) == acc + Spaced(Items(parts, i))
  {
    assert Items(parts, i) == [];
    assert acc + "" == acc;
  }

  lemma RoundsSpacedStep(parts: seq<string>, i: nat, acc: string, piece: string, next: string)
    requires i < |parts| && piece == Piece(parts, i) && next == acc + piece
    requires RoundsFrom(parts, i + 2, next) == next + Spaced(Items(parts, i + 2))
    ensures RoundsFrom(parts, i, acc) == acc + Spaced(Items(parts, i))
  {
    var round, rest := RoundItems(parts, i), Items(parts, i + 2);
    RoundUnfold(parts, i, acc, next);
    ItemsUnfold(parts, i, round, rest);
    PieceSpaced(parts, i);
    SpacedAppend(round, rest);
    Reassoc(RoundsFrom(parts, i, acc), acc, piece, Spaced(rest), Spaced(round + rest));
  }

  lemma RoundUnfold(parts: seq<string>, i: nat, acc: string, next: string)
    requires i < |parts| && next == acc + Piece(parts, i)
    ensures RoundsFrom(parts, i, acc) == RoundsFrom(parts, i + 2, next)
  {
  }

  lemma ItemsUnfold(parts: seq<string>, i: nat, round: seq<string>, rest: seq<string>)
    requires i < |parts| && round == RoundItems(parts, i) && rest == Items(parts, i + 2)
    ensures Items(parts, i) == round + rest
  {
  }

  lemma Reassoc(r: string, acc: string, piece: string, tail: string, all: string)
    requires r == acc + piece + tail && all == piece + tail
    ensures r == acc + all
  {
  }

  /** Items that are non-empty and start and end in non-whitespace. */
  ghost predicate Trimmed(items: seq<string>)
  {
    forall k :: 0 <= k < |items| ==>
      items[k] != [] && !IsSpace(items[k][0]) && !IsSpace(items[k][|items[k]| - 1])
  }

  lemma StripEnds(s: string)
    requires Strip(s) != []
    ensures !IsSpace(Strip(s)[0]) && !IsSpace(Strip(s)[|Strip(s)| - 1])
  {
    var l := TrimLeft(s);
    var r := Strip(s);
    assert r == l[..|r|];
  }

  lemma RoundItemsTrimmed(parts: seq<string>, i: nat)
    requires Alternating(parts) && i < |parts| && i % 2 == 0
    ensures Trimmed(RoundItems(parts, i))
  {
    var sentence := Strip(parts[i]);
    if sentence != [] {
      StripEnds(parts[i]);
      var c := CapitalizeFirst(sentence);
      assert c[0] == ToUpper(sentence[0]);
      assert c[|c| - 1] == sentence[|sentence| - 1] || |sentence| == 1;
    }
    if i + 1 < |parts| {
      var p := parts[i + 1];
      assert p != [] && IsSentencePunct(p[0]) && IsSentencePunct(p[|p| - 1]);
    }
  }

  lemma {:induction false} ItemsTrimmed(parts: seq<string>, i: nat)
    requires Alternating(parts) && i % 2 == 0
    ensures Trimmed(Items(parts, i))
    decreases |parts| - i
  {
    if i < |parts| {
      RoundItemsTrimmed(parts, i);
      ItemsTrimmed(parts, i + 2);
      var a, b := RoundItems(parts, i), Items(parts, i + 2);
      assert Items(parts, i) == a + b;
      TrimmedAppend(a, b);
    }
  }

  lemma TrimmedAppend(a: seq<string>, b: seq<string>)
    requires Trimmed(a) && Trimmed(b)
    ensures Trimmed(a + b)
  {
    forall k | 0 <= k < |a + b|
      ensures (a + b)[k] != [] && !IsSpace((a + b)[k][0]) && !IsSpace((a + b)[k][|(a + b)[k]| - 1])
    {
      if k < |a| { assert (a + b)[k] == a[k]; } else { assert (a + b)[k] == b[k - |a|]; }
    }
  }

  /** A space join of trimmed items starts and ends in non-whitespace. */
  lemma {:induction false} JoinEnds(items: seq<string>)
    requires items != [] && Trimmed(items)
    ensures var j := Join(" ", items);
      j != [] && !IsSpace(j[0]) && !IsSpace(j[|j| - 1])
  {
    if |items| > 1 {
      JoinEnds(items[1..]);
      var t := Join(" ", items[1..]);
      assert Join(" ", items) == items[0] + " " + t;
    }
  }

  /** `capitalize`, round by round: the result is the items of all rounds
      joined by single spaces: each non-blank text part stripped with its
      first character upper-cased, and each punctuation run kept as it is,
      all in source order. A punctuation run is therefore an item of its
      own, with a space before it as well as after it. */
  lemma CapitalizeItems(text: string)
    ensures CapitalizeSentences(text) == Join(" ", Items(SplitPunctRuns(text), 0))
  {
    var parts := SplitPunctRuns(text);
    SplitPunctRunsAlternate(text);
    var items := Items(parts, 0);
    RoundsFromSpaced(parts, 0, "");
    assert RoundsFrom(parts, 0, "") == Spaced(items);
    ItemsTrimmed(parts, 0);
    StripSpaced(items);
  }

  /** Two sentences around one punctuation run: the run is cut out as a
      part of its own. */
  lemma SplitTwoSentences(a: string, p: string, b: string)
    requires forall i :: 0 <= i < |a| ==> !IsSentencePunct(a[i])
    requires p != [] && forall i :: 0 <= i < |p| ==> IsSentencePunct(p[i])
    requires forall i :: 0 <= i < |b| ==> !IsSentencePunct(b[i])
    ensures SplitPunctRuns(a + p + b) == [a, p, b]
  {
    var t := p + b;
    var s := a + t;
    assert a + p + b == s;
    RunLenPrefix(a, t, Plain);
    RunLenPrefix(p, b, Mark);
    Halves(a, t, s);
    Halves(p, b, t);
    PunctRunsUnfold(s, |a|, t, |p|);
    PlainRuns(b);
  }

  lemma Halves(x: string, y: string, s: string)
    requires s == x + y
    ensures s[..|x|] == x && s[|x|..] == y
  {
  }

  lemma PunctRunsUnfold(s: string, k: nat, t: string, r: nat)
    requires k == RunLen(s, Plain) && k < |s| && t == s[k..] && r == RunLen(t, Mark)
    ensures SplitPunctRuns(s) == [s[..k], t[..r]] + SplitPunctRuns(t[r..])
  {
  }

  lemma PlainRuns(b: string)
    requires forall i :: 0 <= i < |b| ==> !IsSentencePunct(b[i])
    ensures SplitPunctRuns(b) == [b]
  {
    RunLenAll(b, Plain);
  }

  /** What `capitalize` makes of two sentences around one punctuation run:
      both sentences stripped and capitalised, and the run set off by a
      space on either side, so "a. b" becomes "A . B". */
  lemma CapitalizeTwoSentences(a: string, p: string, b: string)
    requires forall i :: 0 <= i < |a| ==> !IsSentencePunct(a[i])
    requires p != [] && forall i :: 0 <= i < |p| ==> IsSentencePunct(p[i])
    requires forall i :: 0 <= i < |b| ==> !IsSentencePunct(b[i])
    requires Strip(a) != [] && Strip(b) != []
    ensures CapitalizeSentences(a + p + b)
      == CapitalizeFirst(Strip(a)) + " " + p + " " + CapitalizeFirst(Strip(b))
  {
    var s := a + p + b;
    var parts := [a, p, b];
    SplitTwoSentences(a, p, b);
    CapitalizeItems(s);
    var x, y := CapitalizeFirst(Strip(a)), CapitalizeFirst(Strip(b));
    ItemsThree(parts, x, y);
    JoinThree(x, p, y);
  }

  lemma ItemsThree(parts: seq<string>, x: string, y: string)
    requires |parts| == 3 && Strip(parts[0]) != [] && Strip(parts[2]) != []
    requires x == CapitalizeFirst(Strip(parts[0])) && y == CapitalizeFirst(Strip(parts[2]))
    ensures Items(parts, 0) == [x, parts[1], y]
  {
    assert RoundItems(parts, 0) == [x, parts[1]];
    assert RoundItems(parts, 2) == [y];
    ItemsUnfold(parts, 2, [y], Items(parts, 4));
    ItemsUnfold(parts, 0, [x, parts[1]], Items(parts, 2));
  }

  lemma JoinThree(x: string, p: string, y: string)
    ensures Join(" ", [x, p, y]) == x + " " + p + " " + y
  {
    assert [x, p, y] == [x] + [p, y] && [p, y] == [p] + [y];
    JoinCons(" ", x, [p, y]);
    JoinCons(" ", p, [y]);
    assert Join(" ", [y]) == y;
    assert x + " " + (p + " " + y) == x + " " + p + " " + y;
  }

  /** Trimmed items, each followed by a space, strip to their space join. */
  lemma StripSpaced(items: seq<string>)
    requires Trimmed(items)
    ensures Strip(Spaced(items)) == Join(" ", items)
  {
    if items != [] {
      SpacedJoin(items);
      JoinEnds(items);
      StripSpaceAfter(Join(" ", items));
    }
  }

  // ---------------------------------------------------------------------
  // The dispatcher
  // ---------------------------------------------------------------------

  /** `text_tools`: applies the named tool; any other name returns the text
      as it came. */
  method ApplyTool(tool: string, text: string) returns (r: string)
    ensures tool == "capitalize" ==> r == CapitalizeSentences(text)
    ensures tool == "fix_spaces" ==> r == FixSpaces(text)
    ensures tool == "fix_hyphenation" ==> r == FixHyphenation(text)
    ensures tool == "remove_line_breaks" ==> r == RemoveLineBreaks(text)
    ensures tool !in {"capitalize", "fix_spaces", "fix_hyphenation", "remove_line_breaks"} ==> r == text
  {
    if tool == "capitalize" {
      r := Capitalize(text);
    } else if tool == "fix_spaces" {
      r := FixSpaces(text);
    } else if tool == "fix_hyphenation" {
      r := FixHyphenation(text);
    } else if tool == "remove_line_breaks" {
      r := RemoveLineBreaks(text);
    } else {
      r := text;
    }
  }
}
