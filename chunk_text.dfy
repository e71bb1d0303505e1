/**
 * `chunk_text` of the ElevenLabs web app: the text is cut into sentences by
 * `re.split(r'(?<=[.!?])\s+', text)`, and the sentences are packed greedily
 * into chunks of at most `max_chars` characters, the joining spaces not
 * counted.
 */
module ChunkText {
  import opened Text

  // ---------------------------------------------------------------------
  // re.split(r'(?<=[.!?])\s+', text)
  // ---------------------------------------------------------------------

  predicate IsSentenceEnd(c: char) { c == '.' || c == '!' || c == '?' }

  /** The pattern can match at `i`: a whitespace character right after a
      sentence end. A match then takes the whole whitespace run. */
  predicate BreakAt(s: string, i: int)
  {
    0 < i < |s| && IsSentenceEnd(s[i - 1]) && IsSpace(s[i])
  }

  /** The first match position at or after `i`, or `|s|` when there is none. */
  function FirstBreak(s: string, i: nat): (k: nat)
    requires i <= |s|
    ensures i <= k <= |s|
    ensures forall j :: i <= j < k ==> !BreakAt(s, j)
    decreases |s| - i
  {
    if i == |s| || BreakAt(s, i) then i else FirstBreak(s, i + 1)
  }

  /** A position `FirstBreak` finds before the end is a match. */
  lemma {:induction false} FirstBreakAt(s: string, i: nat)
    requires i <= |s|
    ensures FirstBreak(s, i) < |s| ==> BreakAt(s, FirstBreak(s, i))
    decreases |s| - i
  {
    if i < |s| && !BreakAt(s, i) {
      FirstBreakAt(s, i + 1);
    }
  }

  /** The sentences: the pieces between the matches. */
  function SplitSentences(s: string): (ps: seq<string>)
    ensures |ps| >= 1
    decreases |s|, 1
  {
    if s == "" then [""] else SplitAt(s, FirstBreak(s, 1))
  }

  /** The sentences of a non-empty text whose first match is at `k`
      (`k == |s|` when there is none). */
  function SplitAt(s: string, k: nat): (ps: seq<string>)
    requires 0 < k <= |s|
    ensures |ps| >= 1
    decreases |s|, 0
  {
    if k == |s| then [s]
    else [s[..k]] + SplitSentences(s[k + Span(s[k..], IsSpace)..])
  }

  /** The whitespace runs the matches removed, one between each pair of
      neighbouring sentences. */
  function SentenceGaps(s: string): (gs: seq<string>)
    ensures |gs| == |SplitSentences(s)| - 1
    decreases |s|, 1
  {
    if s == "" then [] else GapsAt(s, FirstBreak(s, 1))
  }

  /** The gaps of a non-empty text whose first match is at `k`. */
  function GapsAt(s: string, k: nat): (gs: seq<string>)
    requires 0 < k <= |s|
    ensures |gs| == |SplitAt(s, k)| - 1
    decreases |s|, 0
  {
    if k == |s| then []
    else [s[k..k + Span(s[k..], IsSpace)]] + SentenceGaps(s[k + Span(s[k..], IsSpace)..])
  }

  /** The sentences with the gaps put back between them. */
  function Weave(ps: seq<string>, gs: seq<string>): string
    requires |ps| >= 1 && |gs| == |ps| - 1
  {
    if |ps| == 1 then ps[0] else ps[0] + gs[0] + Weave(ps[1..], gs[1..])
  }

  /** The shape of what `re.split` returns here: every sentence but the last
      is non-empty and ends in `.`, `!` or `?`; every sentence but the first
      begins with a non-whitespace character (or is the empty last one); no
      sentence contains a place where the pattern matches. */
  ghost predicate WellFormed(ps: seq<string>)
  {
    && ps != []
    && (forall k :: 0 <= k < |ps| - 1 ==> ps[k] != "" && IsSentenceEnd(ps[k][|ps[k]| - 1]))
    && (forall k :: 0 < k < |ps| ==> ps[k] == "" || !IsSpace(ps[k][0]))
    && (forall k, i :: 0 <= k < |ps| && 0 <= i < |ps[k]| ==> !BreakAt(ps[k], i))
  }

  /** Splitting loses nothing: the sentences and the gaps give the text
      back. */
  lemma {:induction false} SplitSentencesReconstruct(s: string)
    ensures Weave(SplitSentences(s), SentenceGaps(s)) == s
    decreases |s|
  {
    if s != "" && FirstBreak(s, 1) < |s| {
      var k, j := SplitStep(s);
      var rest := s[j..];
      SplitSentencesReconstruct(rest);
      var ps := SplitSentences(s);
      var gs := SentenceGaps(s);
      assert ps[1..] == SplitSentences(rest);
      assert gs[1..] == SentenceGaps(rest);
      Cut3(s, k, j);
      WeaveStep(s, s[..k], s[k..j], rest, ps, gs);
    }
  }

  /** Every gap is a non-empty run of whitespace. */
  lemma {:induction false} SentenceGapsBlank(s: string)
    ensures forall g :: 0 <= g < |SentenceGaps(s)| ==> SentenceGaps(s)[g] != "" && All(SentenceGaps(s)[g], IsSpace)
    decreases |s|
  {
    if s != "" && FirstBreak(s, 1) < |s| {
      var k, j := SplitStep(s);
      var rest := s[j..];
      SentenceGapsBlank(rest);
      var gs := SentenceGaps(s);
      forall g | 0 <= g < |gs| ensures gs[g] != "" && All(gs[g], IsSpace) {
        if g > 0 {
          assert gs[g] == SentenceGaps(rest)[g - 1];
        }
      }
    }
  }

  lemma Cut3(s: string, k: nat, j: nat)
    requires k <= j <= |s|
    ensures s == s[..k] + s[k..j] + s[j..]
  {
    assert s[..j] == s[..k] + s[k..j];
  }

  lemma WeaveStep(s: string, head: string, gap: string, rest: string, ps: seq<string>, gs: seq<string>)
    requires s == head + gap + rest
    requires |ps| >= 2 && |gs| == |ps| - 1 && ps[0] == head && gs[0] == gap && Weave(ps[1..], gs[1..]) == rest
    ensures Weave(ps, gs) == s
  {
  }

  /** One step of the split: the first match is at `k`, its whitespace run
      ends at `j`, and splitting resumes there. */
  lemma SplitStep(s: string) returns (k: nat, j: nat)
    requires s != "" && FirstBreak(s, 1) < |s|
    ensures k == FirstBreak(s, 1) && 0 < k < j <= |s|
    ensures BreakAt(s, k) && All(s[k..j], IsSpace) && (j < |s| ==> !IsSpace(s[j]))
    ensures forall i :: k <= i < j ==> IsSpace(s[i])
    ensures SplitSentences(s) == [s[..k]] + SplitSentences(s[j..])
    ensures SentenceGaps(s) == [s[k..j]] + SentenceGaps(s[j..])
  {
    k := FirstBreak(s, 1);
    FirstBreakAt(s, 1);
    var n := Span(s[k..], IsSpace);
    j := k + n;
    SpaceRunAt(s, k, n);
    SplitUnfold(s, k, n);
    GapsUnfold(s, k, n);
  }

  /** The whitespace run starting at a match. */
  lemma SpaceRunAt(s: string, k: nat, n: nat)
    requires k < |s| && IsSpace(s[k]) && n == Span(s[k..], IsSpace)
    ensures 0 < n && k + n <= |s|
    ensures All(s[k..k + n], IsSpace) && (k + n < |s| ==> !IsSpace(s[k + n]))
    ensures forall i :: k <= i < k + n ==> IsSpace(s[i])
  {
    var t := s[k..];
    SpanAll(t, IsSpace);
    assert t[0] == s[k];
    assert s[k..k + n] == t[..n];
    forall i | k <= i < k + n ensures IsSpace(s[i]) {
      assert s[i] == t[i - k];
    }
    if k + n < |s| {
      assert s[k + n] == t[n];
    }
  }

  lemma SplitUnfold(s: string, k: nat, n: nat)
    requires s != "" && k == FirstBreak(s, 1) < |s| && n == Span(s[k..], IsSpace)
    ensures SplitSentences(s) == [s[..k]] + SplitSentences(s[k + n..])
  {
    assert SplitSentences(s) == SplitAt(s, k);
  }

  lemma GapsUnfold(s: string, k: nat, n: nat)
    requires s != "" && k == FirstBreak(s, 1) < |s| && n == Span(s[k..], IsSpace)
    ensures SentenceGaps(s) == [s[k..k + n]] + SentenceGaps(s[k + n..])
  {
    assert SentenceGaps(s) == GapsAt(s, k);
    assert GapsAt(s, k) == [s[k..k + n]] + SentenceGaps(s[k + n..]);
  }

  /** The sentences `re.split` returns are well formed. */
  lemma {:induction false} SplitSentencesWellFormed(s: string)
    ensures WellFormed(SplitSentences(s))
    decreases |s|
  {
    if s != "" {
      if FirstBreak(s, 1) == |s| {
        assert SplitSentences(s) == [s];
        assert forall i :: 0 <= i < |s| ==> !BreakAt(s, i);
      } else {
        var k, j := SplitStep(s);
        var rest := s[j..];
        SplitSentencesWellFormed(rest);
        var head := s[..k];
        forall i | 0 <= i < |head| ensures !BreakAt(head, i) {
          if 0 < i {
            assert !BreakAt(s, i);
            assert head[i - 1] == s[i - 1] && head[i] == s[i];
          }
        }
        var later := SplitSentences(rest);
        SplitFirstPiece(rest);
        assert later[0] == "" || later[0][0] == rest[0];
        WellFormedCons(head, later);
      }
    }
  }

  /** A sentence that ends in a sentence end and contains no match can be put
      in front of well-formed sentences that do not begin with whitespace. */
  lemma WellFormedCons(head: string, later: seq<string>)
    requires WellFormed(later) && (later[0] == "" || !IsSpace(later[0][0]))
    requires head != "" && IsSentenceEnd(head[|head| - 1])
    requires forall i :: 0 <= i < |head| ==> !BreakAt(head, i)
    ensures WellFormed([head] + later)
  {
    var ps := [head] + later;
    assert forall k :: 0 < k < |ps| ==> ps[k] == later[k - 1];
  }

  /** The first sentence of a text is a prefix of it. */
  lemma SplitFirstPiece(s: string)
    ensures |SplitSentences(s)[0]| <= |s| && SplitSentences(s)[0] == s[..|SplitSentences(s)[0]|]
  {
    if s != "" {
      assert SplitSentences(s) == SplitAt(s, FirstBreak(s, 1));
    }
  }

  /** Joining well-formed sentences with single spaces and splitting again
      gives the same sentences back. */
  lemma {:induction false} SplitSentencesOfJoin(ps: seq<string>)
    requires WellFormed(ps)
    ensures SplitSentences(Join(" ", ps)) == ps
    decreases |ps|
  {
    if |ps| == 1 {
      var s := ps[0];
      assert Join(" ", ps) == s;
      if s != "" {
        var k := FirstBreak(s, 1);
        FirstBreakAt(s, 1);
        assert !BreakAt(ps[0], k);
      }
    } else {
      var head := ps[0];
      var rest := ps[1..];
      assert WellFormed(rest) by {
        assert forall k :: 0 <= k < |rest| ==> rest[k] == ps[k + 1];
      }
      SplitSentencesOfJoin(rest);
      JoinHead(rest);
      assert Join(" ", ps) == head + " " + Join(" ", rest);
      SplitCons(head, Join(" ", rest));
    }
  }

  /** Splitting a sentence, a space and a text that does not begin with
      whitespace cuts exactly after the sentence. */
  lemma SplitCons(head: string, tail: string)
    requires head != "" && IsSentenceEnd(head[|head| - 1])
    requires forall i :: 0 <= i < |head| ==> !BreakAt(head, i)
    requires tail == "" || !IsSpace(tail[0])
    ensures SplitSentences(head + " " + tail) == [head] + SplitSentences(tail)
  {
    var s := head + " " + tail;
    var n := |head|;
    assert BreakAt(s, n);
    forall i | 1 <= i < n ensures !BreakAt(s, i) {
      assert s[i - 1] == head[i - 1] && s[i] == head[i];
      assert !BreakAt(head, i);
    }
    FirstBreakIs(s, 1, n);
    var k, j := SplitStep(s);
    if tail != "" {
      assert s[n + 1] == tail[0];
    }
    assert j == n + 1;
    assert s[..n] == head;
    assert s[n + 1..] == tail;
  }

  /** A joined list starts like its first element, or with the separator
      when the first element is empty. */
  lemma JoinHead(ps: seq<string>)
    requires WellFormed(ps) && (ps[0] == "" || !IsSpace(ps[0][0]))
    ensures Join(" ", ps) == "" || !IsSpace(Join(" ", ps)[0])
  {
    if |ps| > 1 {
      assert Join(" ", ps)[0] == ps[0][0];
    }
  }

  lemma {:induction false} FirstBreakIs(s: string, i: nat, k: nat)
    requires i <= k < |s| && BreakAt(s, k)
    requires forall j :: i <= j < k ==> !BreakAt(s, j)
    ensures FirstBreak(s, i) == k
    decreases k - i
  {
    if i < k {
      FirstBreakIs(s, i + 1, k);
    }
  }

  // ---------------------------------------------------------------------
  // The greedy packer
  // ---------------------------------------------------------------------

  /** The loop's variables: the finished chunks and `current_chunk`. */
  datatype Packing = Packing(done: seq<string>, current: string)

  /** The loop state after the sentences `ss`. */
  function Pack(ss: seq<string>, maxChars: int): Packing
    decreases |ss|
  {
    if ss == [] then Packing([], "")
    else
      var p := Pack(ss[..|ss| - 1], maxChars);
      var s := ss[|ss| - 1];
      if |p.current| + |s| > maxChars then Packing(p.done + [p.current], s)
      else if p.current != "" then Packing(p.done, p.current + " " + s)
      else Packing(p.done, s)
  }

  /** The chunks returned: the finished ones and the last one if non-empty. */
  function Chunks(ss: seq<string>, maxChars: int): seq<string>
  {
    var p := Pack(ss, maxChars);
    if p.current != "" then p.done + [p.current] else p.done
  }

  /** `chunk_text` */
  method ChunkTextOf(text: string, maxChars: int) returns (chunks: seq<string>)
    ensures chunks == Chunks(SplitSentences(text), maxChars)
  {
    var sentences := SplitSentences(text);
    chunks := [];
    var current := "";
    for i := 0 to |sentences|
      invariant Pack(sentences[..i], maxChars) == Packing(chunks, current)
    {
      assert sentences[..i + 1][..i] == sentences[..i];
      var sentence := sentences[i];
      if |current| + |sentence| > maxChars {
        chunks := chunks + [current];
        current := sentence;
      } else if current != "" {
        current := current + " " + sentence;
      } else {
        current := sentence;
      }
    }
    assert sentences[..|sentences|] == sentences;
    if current != "" {
      chunks := chunks + [current];
    }
  }

  /** An empty text gives no chunk, unless `max_chars` is negative, when the
      empty sentence overflows and an empty chunk is emitted. */
  lemma EmptyText(maxChars: int)
    ensures Chunks(SplitSentences(""), maxChars) == if maxChars < 0 then [""] else []
  {
    assert [""][..0] == [];
  }

  /** A first sentence longer than `max_chars` is preceded by an empty chunk. */
  lemma {:induction false} LeadingEmptyChunk(ss: seq<string>, maxChars: int)
    requires ss != [] && |ss[0]| > maxChars
    ensures Pack(ss, maxChars).done != [] && Pack(ss, maxChars).done[0] == ""
    ensures Chunks(ss, maxChars)[0] == ""
    decreases |ss|
  {
    if |ss| > 1 {
      var init := ss[..|ss| - 1];
      assert init[0] == ss[0];
      LeadingEmptyChunk(init, maxChars);
    } else {
      assert ss[..0] == [];
    }
  }

  // ---------------------------------------------------------------------
  // The same packer on groups of sentences
  // ---------------------------------------------------------------------

  /** Which sentences went into which chunk. */
  datatype Grouping = Grouping(done: seq<seq<string>>, current: seq<string>)

  function PackGroups(ss: seq<string>, maxChars: int): Grouping
    decreases |ss|
  {
    if ss == [] then Grouping([], [])
    else
      var p := PackGroups(ss[..|ss| - 1], maxChars);
      var s := ss[|ss| - 1];
      if |Join(" ", p.current)| + |s| > maxChars then Grouping(p.done + [p.current], [s])
      else Grouping(p.done, p.current + [s])
  }

  function JoinAll(gs: seq<seq<string>>): (r: seq<string>)
    ensures |r| == |gs| && forall k :: 0 <= k < |gs| ==> r[k] == Join(" ", gs[k])
  {
    seq(|gs|, k requires 0 <= k < |gs| => Join(" ", gs[k]))
  }

  function Flatten(gs: seq<seq<string>>): seq<string>
  {
    if gs == [] then [] else Flatten(gs[..|gs| - 1]) + gs[|gs| - 1]
  }

  ghost predicate NonEmpty(ss: seq<string>)
  {
    forall k :: 0 <= k < |ss| ==> ss[k] != ""
  }

  lemma JoinNonEmpty(g: seq<string>)
    requires NonEmpty(g) && g != []
    ensures Join(" ", g) != ""
  {
    if |g| > 1 {
      assert |Join(" ", g)| >= |g[0]|;
    }
  }

  /** With non-empty sentences the string packer is the group packer with
      every group joined by single spaces. */
  lemma {:induction false} PackIsGroups(ss: seq<string>, maxChars: int)
    requires NonEmpty(ss)
    ensures Pack(ss, maxChars) == Packing(JoinAll(PackGroups(ss, maxChars).done), Join(" ", PackGroups(ss, maxChars).current))
    ensures NonEmpty(PackGroups(ss, maxChars).current)
    ensures ss != [] ==> PackGroups(ss, maxChars).current != []
    decreases |ss|
  {
    if ss != [] {
      var init := ss[..|ss| - 1];
      var s := ss[|ss| - 1];
      assert NonEmpty(init) by {
        forall k | 0 <= k < |init| ensures init[k] == ss[k] { }
      }
      PackIsGroups(init, maxChars);
      var g := PackGroups(init, maxChars);
      assert JoinAll(g.done + [g.current]) == JoinAll(g.done) + [Join(" ", g.current)];
      if g.current != [] {
        JoinNonEmpty(g.current);
        JoinAppend(" ", g.current, s);
      }
    }
  }

  /** The groups of a packing, the unfinished one included. */
  function AllGroups(g: Grouping): seq<seq<string>>
  {
    g.done + [g.current]
  }

  /** The group packer's invariant: the groups hold the sentences in order;
      every group but the first is non-empty; the first is empty exactly when
      the first sentence overflows on its own; a group of two or more
      sentences is at most one longer than `max_chars`; and each finished
      group could not take the first sentence of the next one. */
  ghost predicate GroupsOk(ss: seq<string>, maxChars: int, G: seq<seq<string>>)
  {
    && G != []
    && Flatten(G) == ss
    && (forall k :: 0 < k < |G| ==> G[k] != [])
    && (ss != [] ==> (G[0] == [] <==> |ss[0]| > maxChars))
    && (forall k :: 0 <= k < |G| && |G[k]| >= 2 ==> |Join(" ", G[k])| <= maxChars + 1)
    && (forall k :: 0 <= k < |G| - 1 ==> |Join(" ", G[k])| + |G[k + 1][0]| > maxChars)
  }

  lemma {:induction false} PackGroupsOk(ss: seq<string>, maxChars: int)
    requires NonEmpty(ss)
    ensures GroupsOk(ss, maxChars, AllGroups(PackGroups(ss, maxChars)))
    ensures ss != [] ==> PackGroups(ss, maxChars).current != []
    ensures ss == [] ==> PackGroups(ss, maxChars) == Grouping([], [])
    decreases |ss|
  {
    if ss == [] {
      assert Flatten([[]]) == Flatten([]) + [];
    } else {
      var init := ss[..|ss| - 1];
      var s := ss[|ss| - 1];
      NonEmptyPrefix(ss, init);
      PackGroupsOk(init, maxChars);
      var g := PackGroups(init, maxChars);
      PackGroupsLast(ss, init, s, g, maxChars);
      assert ss == init + [s];
      if |Join(" ", g.current)| + |s| > maxChars {
        OverflowStep(init, s, maxChars, g.done, g.current);
      } else {
        FitStep(init, s, maxChars, g.done, g.current);
      }
    }
  }

  lemma NonEmptyPrefix(ss: seq<string>, init: seq<string>)
    requires NonEmpty(ss) && |init| <= |ss| && init == ss[..|init|]
    ensures NonEmpty(init)
  {
    forall k | 0 <= k < |init| ensures init[k] != "" {
      assert init[k] == ss[k];
    }
  }

  lemma PackGroupsLast(ss: seq<string>, init: seq<string>, s: string, g: Grouping, maxChars: int)
    requires ss != [] && init == ss[..|ss| - 1] && s == ss[|ss| - 1] && g == PackGroups(init, maxChars)
    ensures PackGroups(ss, maxChars) ==
      if |Join(" ", g.current)| + |s| > maxChars then Grouping(g.done + [g.current], [s])
      else Grouping(g.done, g.current + [s])
  {
  }

  /** A sentence that does not fit starts a new group. */
  lemma OverflowStep(init: seq<string>, s: string, maxChars: int, done: seq<seq<string>>, cur: seq<string>)
    requires GroupsOk(init, maxChars, done + [cur])
    requires init == [] ==> done == [] && cur == []
    requires |Join(" ", cur)| + |s| > maxChars
    ensures GroupsOk(init + [s], maxChars, done + [cur] + [[s]])
  {
    var G := done + [cur];
    var G' := G + [[s]];
    assert G'[..|G'| - 1] == G;
    assert Join(" ", [s]) == s;
    if init != [] {
      assert (init + [s])[0] == init[0];
    }
    forall k | 0 <= k < |G'| - 1
      ensures |Join(" ", G'[k])| + |G'[k + 1][0]| > maxChars
    {
      if k + 1 < |G| {
        assert G'[k] == G[k] && G'[k + 1] == G[k + 1];
      }
    }
  }

  /** A sentence that fits joins the current group. */
  lemma FitStep(init: seq<string>, s: string, maxChars: int, done: seq<seq<string>>, cur: seq<string>)
    requires GroupsOk(init, maxChars, done + [cur])
    requires init == [] ==> done == [] && cur == []
    requires init != [] ==> cur != []
    requires |Join(" ", cur)| + |s| <= maxChars
    ensures GroupsOk(init + [s], maxChars, done + [cur + [s]])
  {
    if cur == [] {
      assert init == [] && done == [];
      assert cur + [s] == [s];
      assert done + [cur + [s]] == [[s]];
      assert Flatten([[s]]) == Flatten([]) + [s];
    } else {
      FitExtend(init, s, maxChars, done + [cur], done + [cur + [s]]);
    }
  }

  lemma FitExtend(init: seq<string>, s: string, maxChars: int, G: seq<seq<string>>, G': seq<seq<string>>)
    requires GroupsOk(init, maxChars, G) && init != []
    requires |G'| == |G| && G'[..|G| - 1] == G[..|G| - 1]
    requires G[|G| - 1] != [] && G'[|G| - 1] == G[|G| - 1] + [s]
    requires |Join(" ", G[|G| - 1])| + |s| <= maxChars
    ensures GroupsOk(init + [s], maxChars, G')
  {
    var n := |G|;
    var cur := G[n - 1];
    assert G == G[..n - 1] + [cur];
    assert G' == G[..n - 1] + [cur + [s]];
    assert Flatten(G') == Flatten(G[..n - 1]) + cur + [s];
    assert Flatten(G') == init + [s];
    assert (init + [s])[0] == init[0];
    assert forall k :: 0 <= k < n - 1 ==> G'[k] == G[k];
    assert G'[0] == [] <==> G[0] == [];
    JoinAppend(" ", cur, s);
    assert (cur + [s])[0] == cur[0];
    GreedyKept(G, G', maxChars);
    BoundKept(G, G', maxChars);
  }

  /** Growing the last group keeps every earlier group and the first
      sentence of the last one. */
  lemma GreedyKept(G: seq<seq<string>>, G': seq<seq<string>>, maxChars: int)
    requires |G| == |G'| > 0
    requires forall k :: 0 < k < |G| ==> G[k] != [] && G'[k] != []
    requires G[|G| - 1] != [] && G'[|G| - 1] != []
    requires forall k :: 0 <= k < |G| - 1 ==> G'[k] == G[k]
    requires G'[|G| - 1][0] == G[|G| - 1][0]
    requires forall k :: 0 <= k < |G| - 1 ==> |Join(" ", G[k])| + |G[k + 1][0]| > maxChars
    ensures forall k :: 0 <= k < |G'| - 1 ==> |Join(" ", G'[k])| + |G'[k + 1][0]| > maxChars
  {
    forall k | 0 <= k < |G'| - 1
      ensures |Join(" ", G'[k])| + |G'[k + 1][0]| > maxChars
    {
      assert G'[k] == G[k];
      if k + 1 < |G'| - 1 {
        assert G'[k + 1] == G[k + 1];
      }
    }
  }

  lemma BoundKept(G: seq<seq<string>>, G': seq<seq<string>>, maxChars: int)
    requires |G| == |G'| > 0
    requires forall k :: 0 <= k < |G| - 1 ==> G'[k] == G[k]
    requires |Join(" ", G'[|G| - 1])| <= maxChars + 1
    requires forall k :: 0 <= k < |G| && |G[k]| >= 2 ==> |Join(" ", G[k])| <= maxChars + 1
    ensures forall k :: 0 <= k < |G'| && |G'[k]| >= 2 ==> |Join(" ", G'[k])| <= maxChars + 1
  {
    forall k | 0 <= k < |G'| && |G'[k]| >= 2
      ensures |Join(" ", G'[k])| <= maxChars + 1
    {
      if k < |G'| - 1 {
        assert G'[k] == G[k];
      }
    }
  }

  /** The chunks of non-empty sentences: every sentence lands in exactly one
      chunk, in order, joined by one space; a new chunk starts only when the
      next sentence does not fit; a chunk of two or more sentences is at most
      one character longer than `max_chars`, because the joining space is not
      counted; and the first chunk is empty exactly when the first sentence
      alone is too long. */
  lemma ChunkGroups(ss: seq<string>, maxChars: int)
    requires ss != [] && NonEmpty(ss)
    ensures var G := AllGroups(PackGroups(ss, maxChars));
      && Chunks(ss, maxChars) == JoinAll(G)
      && GroupsOk(ss, maxChars, G)
  {
    PackIsGroups(ss, maxChars);
    PackGroupsOk(ss, maxChars);
    var g := PackGroups(ss, maxChars);
    JoinNonEmpty(g.current);
    assert JoinAll(g.done + [g.current]) == JoinAll(g.done) + [Join(" ", g.current)];
  }

  /** A text whose whitespace follows its last sentence end splits with a
      trailing empty sentence. That sentence then still goes through the
      loop: when the last chunk has room, it gets `" " + ""` appended and so
      ends in one space; otherwise the empty sentence overflows, the last
      chunk is closed as it was, and the empty one is dropped at the end. */
  lemma TrailingEmptySentence(ss: seq<string>, maxChars: int)
    requires ss != [] && NonEmpty(ss)
    ensures var c := Chunks(ss, maxChars);
      && c != []
      && Chunks(ss + [""], maxChars)
         == if |c[|c| - 1]| <= maxChars then c[..|c| - 1] + [c[|c| - 1] + " "] else c
  {
    PackIsGroups(ss, maxChars);
    var g := PackGroups(ss, maxChars);
    JoinNonEmpty(g.current);
    var p := Pack(ss, maxChars);
    assert p.current != "";
    var c := Chunks(ss, maxChars);
    assert c == p.done + [p.current];
    assert c[..|c| - 1] == p.done && c[|c| - 1] == p.current;
    var ss' := ss + [""];
    assert ss'[..|ss'| - 1] == ss;
    PackLast(ss', ss, "", p, maxChars);
    if |p.current| <= maxChars {
      assert Pack(ss', maxChars) == Packing(p.done, p.current + " ");
    } else {
      assert Pack(ss', maxChars) == Packing(p.done + [p.current], "");
    }
  }

  lemma PackLast(ss: seq<string>, init: seq<string>, s: string, p: Packing, maxChars: int)
    requires ss != [] && init == ss[..|ss| - 1] && s == ss[|ss| - 1] && p == Pack(init, maxChars)
    ensures Pack(ss, maxChars) ==
      if |p.current| + |s| > maxChars then Packing(p.done + [p.current], s)
      else if p.current != "" then Packing(p.done, p.current + " " + s)
      else Packing(p.done, s)
  {
  }

  /** Only the last sentence can be empty, and then either the text was
      empty or the sentences before it are all non-empty: the two cases
      `ChunkGroups` and `TrailingEmptySentence` describe, besides the empty
      text of `EmptyText`. */
  lemma SentencesCases(s: string)
    ensures var ps := SplitSentences(s);
      || NonEmpty(ps)
      || (|ps| >= 2 && NonEmpty(ps[..|ps| - 1]) && ps[|ps| - 1] == "")
      || (ps == [""] && s == "")
  {
    SplitSentencesWellFormed(s);
    var ps := SplitSentences(s);
    if !NonEmpty(ps) {
      assert ps[|ps| - 1] == "";
    }
  }
}
