/**
 * String primitives shared by every part of the model: the character classes
 * that Python's `str` methods and the regular expressions rely on (over the
 * ASCII alphabet), `str.strip()`, `str.split()` without a separator,
 * `sep.join(parts)`, `str.split(sep)` and `re.sub` of a one-character class
 * repeated (`X+`) by a fixed replacement.
 */
module Text {

  // ---------------------------------------------------------------------
  // Character classes
  // ---------------------------------------------------------------------

  /** `\s`, and what `str.split()` / `str.strip()` treat as whitespace. */
  predicate IsSpace(c: char)
  {
    c == ' ' || c == '\t' || c == '\n' || c == '\r' || c == '\U{0B}' || c == '\U{0C}'
  }

  predicate IsDigit(c: char) { '0' <= c <= '9' }

  predicate IsUpper(c: char) { 'A' <= c <= 'Z' }

  predicate IsLower(c: char) { 'a' <= c <= 'z' }

  /** `[a-zA-Z]` */
  predicate IsAsciiLetter(c: char) { IsUpper(c) || IsLower(c) }

  /** `str.isalnum()` on one character */
  predicate IsAlnum(c: char) { IsAsciiLetter(c) || IsDigit(c) }

  /** `\w` */
  predicate IsWordChar(c: char) { IsAlnum(c) || c == '_' }

  function ToLower(c: char): (r: char)
    ensures IsUpper(c) ==> IsLower(r)
    ensures !IsUpper(c) ==> r == c
  {
    if IsUpper(c) then (c as int + 32) as char else c
  }

  function ToUpper(c: char): (r: char)
    ensures IsLower(c) ==> IsUpper(r)
    ensures !IsLower(c) ==> r == c
    ensures IsSpace(r) <==> IsSpace(c)
  {
    if IsLower(c) then (c as int - 32) as char else c
  }

  /** `str.lower()` */
  function Lower(s: string): (r: string)
    ensures |r| == |s|
    decreases |s|
  {
    if s == [] then [] else [ToLower(s[0])] + Lower(s[1..])
  }

  lemma {:induction false} LowerAppend(a: string, b: string)
    ensures Lower(a + b) == Lower(a) + Lower(b)
    decreases |a|
  {
    if a == [] {
      assert a + b == b;
    } else {
      assert (a + b)[0] == a[0];
      assert (a + b)[1..] == a[1..] + b;
      LowerAppend(a[1..], b);
      calc {
        Lower(a + b);
        [ToLower(a[0])] + Lower(a[1..] + b);
        [ToLower(a[0])] + (Lower(a[1..]) + Lower(b));
        ([ToLower(a[0])] + Lower(a[1..])) + Lower(b);
        Lower(a) + Lower(b);
      }
    }
  }

  ghost predicate NoSpace(s: string)
  {
    forall i :: 0 <= i < |s| ==> !IsSpace(s[i])
  }

  predicate NotSpace(c: char) { !IsSpace(c) }

  /** Every character of `s` satisfies `p`. */
  ghost predicate All(s: string, p: char -> bool)
  {
    forall i :: 0 <= i < |s| ==> p(s[i])
  }

  /** Length of the longest prefix of `s` whose characters all satisfy `p`. */
  function Span(s: string, p: char -> bool): (n: nat)
    ensures n <= |s|
    ensures n < |s| ==> !p(s[n])
  {
    if s == [] || !p(s[0]) then 0 else 1 + Span(s[1..], p)
  }

  /** Every character of the prefix `Span` measures satisfies `p`. */
  lemma {:induction false} SpanAll(s: string, p: char -> bool)
    ensures forall i :: 0 <= i < Span(s, p) ==> p(s[i])
    decreases |s|
  {
    if s != [] && p(s[0]) {
      SpanAll(s[1..], p);
      assert forall i :: 0 < i < |s| ==> s[i] == s[1..][i - 1];
    }
  }

  // ---------------------------------------------------------------------
  // str.strip()
  // ---------------------------------------------------------------------

  function TrimLeft(s: string): (r: string)
    ensures |r| <= |s| && r == s[|s| - |r|..]
    ensures r != [] ==> !IsSpace(r[0])
  {
    if s != [] && IsSpace(s[0]) then TrimLeft(s[1..]) else s
  }

  /** What `TrimLeft` drops is whitespace. */
  lemma {:induction false} TrimLeftBlank(s: string)
    ensures forall i :: 0 <= i < |s| - |TrimLeft(s)| ==> IsSpace(s[i])
    decreases |s|
  {
    if s != [] && IsSpace(s[0]) {
      TrimLeftBlank(s[1..]);
      assert forall i :: 0 < i < |s| ==> s[i] == s[1..][i - 1];
    }
  }

  function TrimRight(s: string): (r: string)
    ensures |r| <= |s| && r == s[..|r|]
    ensures r != [] ==> !IsSpace(r[|r| - 1])
  {
    if s != [] && IsSpace(s[|s| - 1]) then TrimRight(s[..|s| - 1]) else s
  }

  /** What `TrimRight` drops is whitespace. */
  lemma {:induction false} TrimRightBlank(s: string)
    ensures forall i :: |TrimRight(s)| <= i < |s| ==> IsSpace(s[i])
    decreases |s|
  {
    if s != [] && IsSpace(s[|s| - 1]) {
      TrimRightBlank(s[..|s| - 1]);
    }
  }

  /** `str.strip()` */
  function Strip(s: string): string
  {
    TrimRight(TrimLeft(s))
  }

  /** A string with no whitespace at either end is its own strip. */
  lemma StripUnchanged(s: string)
    requires s == [] || (!IsSpace(s[0]) && !IsSpace(s[|s| - 1]))
    ensures Strip(s) == s
  {
  }

  /** Stripping twice is stripping once. */
  lemma StripIdempotent(s: string)
    ensures Strip(Strip(s)) == Strip(s)
  {
    var r := Strip(s);
    if r != [] {
      var l := TrimLeft(s);
      assert r == l[..|r|];
      assert !IsSpace(r[0]);
    }
    StripUnchanged(r);
  }

  /** `Strip(s)` is empty exactly when `s` is all whitespace ("blank"). */
  lemma StripEmptyIffBlank(s: string)
    ensures Strip(s) == [] <==> All(s, IsSpace)
  {
    var l := TrimLeft(s);
    TrimLeftBlank(s);
    TrimRightBlank(l);
    if l != [] {
      assert !IsSpace(l[0]);
      assert TrimRight(l) != [];
      assert !IsSpace(s[|s| - |l|]);
    }
  }

  // ---------------------------------------------------------------------
  // sep.join(parts)
  // ---------------------------------------------------------------------

  function Join(sep: string, parts: seq<string>): string
  {
    if |parts| == 0 then ""
    else if |parts| == 1 then parts[0]
    else parts[0] + sep + Join(sep, parts[1..])
  }

  lemma JoinAppend(sep: string, parts: seq<string>, last: string)
    requires parts != []
    ensures Join(sep, parts + [last]) == Join(sep, parts) + sep + last
  {
    if |parts| > 1 {
      assert (parts + [last])[1..] == parts[1..] + [last];
      JoinAppend(sep, parts[1..], last);
    }
  }

  /** The words `str.split()` produces: non-empty and free of whitespace. */
  ghost predicate GoodWords(ws: seq<string>)
  {
    forall i :: 0 <= i < |ws| ==> ws[i] != [] && NoSpace(ws[i])
  }

  /** A string whose only whitespace characters are single interior spaces. */
  ghost predicate SingleSpaced(s: string)
  {
    forall i :: 0 <= i < |s| && IsSpace(s[i]) ==> s[i] == ' ' && 0 < i < |s| - 1 && !IsSpace(s[i + 1])
  }

  lemma {:induction false} JoinWordsShape(ws: seq<string>)
    requires GoodWords(ws) && ws != []
    ensures var j := Join(" ", ws);
      j != [] && j[0] == ws[0][0] && j[|j| - 1] == ws[|ws| - 1][|ws[|ws| - 1]| - 1]
  {
    if |ws| > 1 {
      JoinWordsShape(ws[1..]);
    }
  }

  /** Joining good words with one space gives a single-spaced string. */
  lemma {:induction false} JoinWordsSingleSpaced(ws: seq<string>)
    requires GoodWords(ws)
    ensures SingleSpaced(Join(" ", ws))
  {
    if |ws| > 1 {
      var w, rest := ws[0], Join(" ", ws[1..]);
      JoinWordsSingleSpaced(ws[1..]);
      JoinWordsShape(ws[1..]);
      var s := Join(" ", ws);
      assert s == w + " " + rest;
      forall i | 0 <= i < |s| && IsSpace(s[i])
        ensures s[i] == ' ' && 0 < i < |s| - 1 && !IsSpace(s[i + 1])
      {
        if i == |w| {
          assert s[i + 1] == rest[0];
        } else if i > |w| {
          assert s[i] == rest[i - |w| - 1];
          assert i + 1 < |s| ==> s[i + 1] == rest[i - |w|];
        }
      }
    }
  }

  // ---------------------------------------------------------------------
  // str.split() without a separator
  // ---------------------------------------------------------------------

  /** `str.split()`: the maximal runs of non-whitespace characters, in order. */
  function Words(s: string): (r: seq<string>)
    ensures GoodWords(r)
    decreases |s|
  {
    if s == [] then []
    else if IsSpace(s[0]) then Words(s[1..])
    else
      var k := Span(s, NotSpace);
      SpanAll(s, NotSpace);
      [s[..k]] + Words(s[k..])
  }

  /** A word followed by whitespace (or nothing) splits off as the first word. */
  lemma WordsCons(w: string, t: string)
    requires w != [] && NoSpace(w) && (t == [] || IsSpace(t[0]))
    ensures Words(w + t) == [w] + Words(t)
  {
    var s := w + t;
    var k := Span(s, NotSpace);
    SpanAll(s, NotSpace);
    assert s[|w|..] == t;
    assert k == |w|;
    assert s[..k] == w;
  }

  /** Splitting a single-space join of good words gives the words back. */
  lemma {:induction false} WordsOfJoin(ws: seq<string>)
    requires GoodWords(ws)
    ensures Words(Join(" ", ws)) == ws
  {
    if |ws| == 1 {
      WordsCons(ws[0], "");
      assert ws[0] + "" == ws[0];
    } else if |ws| > 1 {
      var rest := Join(" ", ws[1..]);
      assert Join(" ", ws) == ws[0] + (" " + rest);
      WordsCons(ws[0], " " + rest);
      assert (" " + rest)[1..] == rest;
      WordsOfJoin(ws[1..]);
    }
  }

  /** `" ".join(s.split())`: whitespace runs collapsed to one space, ends stripped. */
  function CollapseSpaces(s: string): (r: string)
    ensures SingleSpaced(r)
    ensures Words(r) == Words(s)
  {
    JoinWordsSingleSpaced(Words(s));
    WordsOfJoin(Words(s));
    Join(" ", Words(s))
  }

  // ---------------------------------------------------------------------
  // str.split(sep) and substring search
  // ---------------------------------------------------------------------

  ghost predicate OccursAt(s: string, sub: string, j: int)
  {
    0 <= j && j + |sub| <= |s| && s[j..j + |sub|] == sub
  }

  /** The leftmost occurrence of `sub` in `s` at or after `from`, or -1. */
  function IndexFrom(s: string, sub: string, from: nat): (r: int)
    requires from <= |s|
    ensures r == -1 || (from <= r && OccursAt(s, sub, r))
    ensures forall j :: from <= j && (r == -1 || j < r) ==> !OccursAt(s, sub, j)
    decreases |s| - from
  {
    if from + |sub| > |s| then -1
    else if s[from..from + |sub|] == sub then from
    else IndexFrom(s, sub, from + 1)
  }

  /** Python's `sub in s`. */
  predicate Contains(s: string, sub: string)
  {
    IndexFrom(s, sub, 0) >= 0
  }

  lemma ContainsIff(s: string, sub: string)
    ensures Contains(s, sub) <==> exists j :: OccursAt(s, sub, j)
  {
  }

  /** `s.split(sep)` for a non-empty separator: cut at each leftmost occurrence. */
  function Split(s: string, sep: string): (r: seq<string>)
    requires sep != []
    ensures |r| >= 1
    decreases |s|
  {
    var i := IndexFrom(s, sep, 0);
    if i < 0 then [s] else [s[..i]] + Split(s[i + |sep|..], sep)
  }

  lemma JoinCons(sep: string, a: string, r: seq<string>)
    requires r != []
    ensures Join(sep, [a] + r) == a + sep + Join(sep, r)
  {
    assert ([a] + r)[1..] == r;
  }

  /** Joining the pieces with the separator rebuilds the string. */
  lemma {:induction false} JoinSplit(s: string, sep: string)
    requires sep != []
    ensures Join(sep, Split(s, sep)) == s
    decreases |s|
  {
    var i := IndexFrom(s, sep, 0);
    if i >= 0 {
      JoinSplit(s[i + |sep|..], sep);
      JoinSplitStep(s, sep, i);
    } else {
      assert Split(s, sep) == [s];
    }
  }

  lemma JoinSplitStep(s: string, sep: string, i: nat)
    requires sep != [] && i == IndexFrom(s, sep, 0)
    requires Join(sep, Split(s[i + |sep|..], sep)) == s[i + |sep|..]
    ensures Join(sep, Split(s, sep)) == s
  {
    var a, t := s[..i], s[i + |sep|..];
    var r := Split(t, sep);
    assert Split(s, sep) == [a] + r;
    JoinCons(sep, a, r);
    assert Join(sep, Split(s, sep)) == a + sep + t;
    assert OccursAt(s, sep, i);
    assert s[i..i + |sep|] == sep;
    assert a + sep + t == s by { CutAround(s, i, |sep|); }
  }

  lemma CutAround(s: string, i: nat, k: nat)
    requires i + k <= |s|
    ensures s == s[..i] + s[i..i + k] + s[i + k..]
  {
  }

  /** No piece of a split contains the separator. */
  lemma {:induction false} SplitPiecesFree(s: string, sep: string)
    requires sep != []
    ensures forall k :: 0 <= k < |Split(s, sep)| ==> !Contains(Split(s, sep)[k], sep)
    decreases |s|
  {
    var i := IndexFrom(s, sep, 0);
    if i >= 0 {
      SplitPiecesFree(s[i + |sep|..], sep);
      var p := s[..i];
      forall j | OccursAt(p, sep, j) ensures false {
        assert p[j..j + |sep|] == s[j..j + |sep|];
        assert OccursAt(s, sep, j);
      }
      assert !Contains(p, sep);
      var r := Split(s, sep);
      forall k | 0 < k < |r| ensures !Contains(r[k], sep) {
        assert r[k] == Split(s[i + |sep|..], sep)[k - 1];
      }
    }
  }

  /** The leftmost occurrence is the one no earlier occurrence precedes. */
  lemma IndexFromIs(s: string, sub: string, i: nat)
    requires OccursAt(s, sub, i)
    requires forall j :: 0 <= j < i ==> !OccursAt(s, sub, j)
    ensures IndexFrom(s, sub, 0) == i
  {
  }

  /** An occurrence that lies inside a prefix is an occurrence in the
      longer string, and the other way round. */
  lemma OccursAgree(x: string, z: string, s: string, sub: string, j: nat)
    requires s == x + z && j + |sub| <= |x|
    ensures OccursAt(s, sub, j) == OccursAt(x, sub, j)
  {
    assert s[j..j + |sub|] == x[j..j + |sub|];
  }

  /** One cut of `Split`, at the leftmost occurrence `i`. */
  lemma SplitAt(s: string, sep: string, i: int)
    requires sep != [] && i == IndexFrom(s, sep, 0) && i >= 0
    ensures Split(s, sep) == [s[..i]] + Split(s[i + |sep|..], sep)
  {
  }

  /** The leftmost occurrence in `a` stays leftmost when text is appended. */
  lemma FirstOccurrencePrefix(a: string, sep: string, b: string, i: int)
    requires sep != [] && i == IndexFrom(a, sep, 0) && i >= 0
    ensures IndexFrom(a + sep + b, sep, 0) == i
  {
    var s, z := a + sep + b, sep + b;
    assert s == a + z;
    forall j: nat | j < i ensures !OccursAt(s, sep, j) {
      OccursAgree(a, z, s, sep, j);
    }
    OccursAgree(a, z, s, sep, i);
    IndexFromIs(s, sep, i);
  }

  /** With no occurrence in `a`, and none straddling the joint, the first
      occurrence is the separator placed after `a`. */
  lemma FirstOccurrenceJoint(a: string, sep: string, b: string)
    requires |sep| == 2 && (a == [] || a[|a| - 1] != sep[0])
    requires IndexFrom(a, sep, 0) < 0
    ensures IndexFrom(a + sep + b, sep, 0) == |a|
  {
    var s, z := a + sep + b, sep + b;
    assert s == a + z;
    forall j: nat | j < |a| ensures !OccursAt(s, sep, j) {
      if j + 2 <= |a| {
        OccursAgree(a, z, s, sep, j);
      } else {
        assert s[j..j + 2][0] == s[j] == a[|a| - 1];
      }
    }
    assert s[|a|..|a| + 2] == sep;
    IndexFromIs(s, sep, |a|);
  }

  /** Splitting at a two-character separator distributes over a text made
      of two parts joined by the separator, provided the first part does not
      end in the separator's first character (no occurrence straddles the
      joint). */
  lemma {:induction false} SplitAppend(a: string, sep: string, b: string)
    requires |sep| == 2 && (a == [] || a[|a| - 1] != sep[0])
    ensures Split(a + sep + b, sep) == Split(a, sep) + Split(b, sep)
    decreases |a|
  {
    var i := IndexFrom(a, sep, 0);
    if i >= 0 {
      var a' := a[i + 2..];
      assert a' == [] || a'[|a'| - 1] == a[|a| - 1];
      SplitAppend(a', sep, b);
      SplitAppendCut(a, sep, b, i, a');
    } else {
      SplitAppendJoint(a, sep, b);
    }
  }

  lemma SplitAppendCut(a: string, sep: string, b: string, i: int, a': string)
    requires |sep| == 2 && i == IndexFrom(a, sep, 0) && i >= 0 && a' == a[i + 2..]
    requires Split(a' + sep + b, sep) == Split(a', sep) + Split(b, sep)
    ensures Split(a + sep + b, sep) == Split(a, sep) + Split(b, sep)
  {
    var s, t, x := a + sep + b, a' + sep + b, a[..i];
    FirstOccurrencePrefix(a, sep, b, i);
    CutEq(a, sep, b, i, s, t);
    SplitAtParts(s, sep, i, x, t);
    SplitAtParts(a, sep, i, x, a');
    ConsAssoc(x, Split(s, sep), Split(t, sep), Split(a, sep), Split(a', sep), Split(b, sep));
  }

  lemma SplitAtParts(s: string, sep: string, i: int, pre: string, post: string)
    requires sep != [] && i == IndexFrom(s, sep, 0) && i >= 0
    requires pre == s[..i] && post == s[i + |sep|..]
    ensures Split(s, sep) == [pre] + Split(post, sep)
  {
  }

  lemma ConsAssoc<T>(x: T, whole: seq<T>, rest: seq<T>, left: seq<T>, l: seq<T>, r: seq<T>)
    requires whole == [x] + rest && rest == l + r && left == [x] + l
    ensures whole == left + r
  {
  }

  lemma CutEq(a: string, sep: string, b: string, i: nat, s: string, t: string)
    requires |sep| == 2 && i + 2 <= |a| && s == a + sep + b && t == a[i + 2..] + sep + b
    ensures s[..i] == a[..i] && s[i + 2..] == t
  {
  }

  lemma SplitAppendJoint(a: string, sep: string, b: string)
    requires |sep| == 2 && (a == [] || a[|a| - 1] != sep[0])
    requires IndexFrom(a, sep, 0) < 0
    ensures Split(a + sep + b, sep) == Split(a, sep) + Split(b, sep)
  {
    var s := a + sep + b;
    FirstOccurrenceJoint(a, sep, b);
    SplitAt(s, sep, |a|);
    assert s[..|a|] == a && s[|a| + 2..] == b;
    assert Split(a, sep) == [a];
  }

  /** For a one-character separator absent from the parts, split undoes join. */
  lemma {:induction false} SplitJoin(parts: seq<string>, c: char)
    requires parts != []
    requires forall k, i :: 0 <= k < |parts| && 0 <= i < |parts[k]| ==> parts[k][i] != c
    ensures Split(Join([c], parts), [c]) == parts
  {
    var p := parts[0];
    var s := Join([c], parts);
    forall j | 0 <= j < |p| ensures !OccursAt(s, [c], j) {
      assert s[j] == p[j];
    }
    if |parts| == 1 {
      assert IndexFrom(s, [c], 0) == -1;
    } else {
      var t := Join([c], parts[1..]);
      assert s == p + [c] + t;
      assert OccursAt(s, [c], |p|);
      assert IndexFrom(s, [c], 0) == |p|;
      assert s[|p| + 1..] == t;
      assert s[..|p|] == p;
      SplitJoin(parts[1..], c);
    }
  }

  // ---------------------------------------------------------------------
  // re.sub(X+, rep, s) for a character class X
  // ---------------------------------------------------------------------

  /** Every maximal run of characters satisfying `p` replaced by `rep`. */
  function ReplaceRuns(s: string, p: char -> bool, rep: string): string
    decreases |s|
  {
    if s == [] then []
    else if p(s[0]) then rep + ReplaceRuns(s[Span(s, p)..], p, rep)
    else [s[0]] + ReplaceRuns(s[1..], p, rep)
  }

  /** `re.sub(r'\s+', ' ', s)` */
  function CollapseWhitespace(s: string): string
  {
    ReplaceRuns(s, IsSpace, " ")
  }

  /** Only plain spaces, and never two whitespace characters in a row. */
  ghost predicate NoWhitespaceRun(s: string)
  {
    forall i :: 0 <= i < |s| && IsSpace(s[i]) ==> s[i] == ' ' && (i + 1 < |s| ==> !IsSpace(s[i + 1]))
  }

  lemma {:induction false} ReplaceRunsHead(s: string, p: char -> bool, rep: string)
    requires s != [] && !p(s[0])
    ensures ReplaceRuns(s, p, rep) != [] && ReplaceRuns(s, p, rep)[0] == s[0]
  {
  }

  /** After collapsing, no whitespace run remains. */
  lemma {:induction false} CollapseWhitespaceNoRun(s: string)
    ensures NoWhitespaceRun(CollapseWhitespace(s))
    decreases |s|
  {
    if s != [] {
      var r := CollapseWhitespace(s);
      if IsSpace(s[0]) {
        var t := s[Span(s, IsSpace)..];
        CollapseWhitespaceNoRun(t);
        assert r == " " + CollapseWhitespace(t);
        if t != [] {
          ReplaceRunsHead(t, IsSpace, " ");
        }
        forall i | 0 <= i < |r| && IsSpace(r[i])
          ensures r[i] == ' ' && (i + 1 < |r| ==> !IsSpace(r[i + 1]))
        {
          if i > 0 {
            assert r[i] == CollapseWhitespace(t)[i - 1];
          }
        }
      } else {
        CollapseWhitespaceNoRun(s[1..]);
        assert r == [s[0]] + CollapseWhitespace(s[1..]);
        forall i | 0 <= i < |r| && IsSpace(r[i])
          ensures r[i] == ' ' && (i + 1 < |r| ==> !IsSpace(r[i + 1]))
        {
          assert r[i] == CollapseWhitespace(s[1..])[i - 1];
        }
      }
    }
  }

  /** A string already free of whitespace runs is left unchanged. */
  lemma {:induction false} CollapseWhitespaceFixed(s: string)
    requires NoWhitespaceRun(s)
    ensures CollapseWhitespace(s) == s
    decreases |s|
  {
    if s != [] {
      if IsSpace(s[0]) {
        var k := Span(s, IsSpace);
        SpanAll(s, IsSpace);
        assert k == 1 by {
          if 1 < |s| { assert !IsSpace(s[1]); }
        }
        assert NoWhitespaceRun(s[1..]);
        CollapseWhitespaceFixed(s[1..]);
        assert s == " " + s[1..];
      } else {
        assert NoWhitespaceRun(s[1..]);
        CollapseWhitespaceFixed(s[1..]);
        assert s == [s[0]] + s[1..];
      }
    }
  }

  /** Characters outside the class are kept, so a replacement free of the class
      leaves no class character at all. */
  lemma {:induction false} ReplaceRunsRemovesClass(s: string, p: char -> bool, rep: string)
    requires forall i :: 0 <= i < |rep| ==> !p(rep[i])
    ensures forall i :: 0 <= i < |ReplaceRuns(s, p, rep)| ==> !p(ReplaceRuns(s, p, rep)[i])
    decreases |s|
  {
    if s != [] {
      var r := ReplaceRuns(s, p, rep);
      if p(s[0]) {
        var t := s[Span(s, p)..];
        ReplaceRunsRemovesClass(t, p, rep);
        assert r == rep + ReplaceRuns(t, p, rep);
        forall i | 0 <= i < |r| ensures !p(r[i]) {
          if i >= |rep| { assert r[i] == ReplaceRuns(t, p, rep)[i - |rep|]; }
        }
      } else {
        ReplaceRunsRemovesClass(s[1..], p, rep);
        assert r == [s[0]] + ReplaceRuns(s[1..], p, rep);
        forall i | 0 <= i < |r| ensures !p(r[i]) {
          if i > 0 { assert r[i] == ReplaceRuns(s[1..], p, rep)[i - 1]; }
        }
      }
    }
  }
}
