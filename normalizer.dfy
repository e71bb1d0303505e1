/**
 * The text normaliser `clean_text` of the manual scripts: whitespace runs
 * collapsed to one space, the ligatures U+FB01 and U+FB02 spelled out, then,
 * when the spell-checking library can be imported, a per-token correction
 * pass. The spell checker is an oracle: `known` stands for `w in spell`,
 * `correction` for `spell.correction(w)` (None when it has no suggestion).
 */
module Normalizer {
  import opened Text
  import opened Wrappers

  const LigatureFi: char := '\U{FB01}'
  const LigatureFl: char := '\U{FB02}'

  datatype SpellChecker = SpellChecker(known: string -> bool, correction: string -> Option<string>)

  /** `s.replace(c, rep)` for a single character `c`. */
  function ReplaceChar(s: string, c: char, rep: string): string
  {
    if s == [] then []
    else (if s[0] == c then rep else [s[0]]) + ReplaceChar(s[1..], c, rep)
  }

  lemma {:induction false} ReplaceCharAppend(a: string, b: string, c: char, rep: string)
    ensures ReplaceChar(a + b, c, rep) == ReplaceChar(a, c, rep) + ReplaceChar(b, c, rep)
  {
    if a != [] {
      assert (a + b)[1..] == a[1..] + b;
      ReplaceCharAppend(a[1..], b, c, rep);
    } else {
      assert a + b == b;
    }
  }

  /** A replaced character survives only through the replacement text. */
  lemma {:induction false} ReplaceCharMembers(s: string, c: char, rep: string, d: char)
    requires d in ReplaceChar(s, c, rep)
    ensures (d in s && d != c) || d in rep
  {
    if s != [] {
      var head := if s[0] == c then rep else [s[0]];
      if d !in head {
        ReplaceCharMembers(s[1..], c, rep, d);
      }
    }
  }

  /** Replacing an absent character changes nothing. */
  lemma {:induction false} ReplaceCharAbsent(s: string, c: char, rep: string)
    requires c !in s
    ensures ReplaceChar(s, c, rep) == s
  {
    if s != [] {
      ReplaceCharAbsent(s[1..], c, rep);
      assert s == [s[0]] + s[1..];
    }
  }

  lemma {:induction false} ReplaceCharNoSpace(s: string, c: char, rep: string)
    requires NoSpace(s) && NoSpace(rep) && !IsSpace(c)
    ensures NoSpace(ReplaceChar(s, c, rep))
  {
    var r := ReplaceChar(s, c, rep);
    forall i | 0 <= i < |r| ensures !IsSpace(r[i]) {
      assert r[i] in r;
      ReplaceCharMembers(s, c, rep, r[i]);
    }
  }

  /** Replacing inside each word of a single-space join. */
  function ReplaceInWords(ws: seq<string>, c: char, rep: string): (r: seq<string>)
    ensures |r| == |ws|
    ensures forall i :: 0 <= i < |ws| ==> r[i] == ReplaceChar(ws[i], c, rep)
  {
    seq(|ws|, i requires 0 <= i < |ws| => ReplaceChar(ws[i], c, rep))
  }

  lemma {:induction false} ReplaceCharJoin(ws: seq<string>, c: char, rep: string)
    requires c != ' '
    ensures ReplaceChar(Join(" ", ws), c, rep) == Join(" ", ReplaceInWords(ws, c, rep))
  {
    if |ws| > 1 {
      var rest := Join(" ", ws[1..]);
      ReplaceCharAppend(ws[0] + " ", rest, c, rep);
      ReplaceCharAppend(ws[0], " ", c, rep);
      ReplaceCharJoin(ws[1..], c, rep);
      assert ReplaceInWords(ws, c, rep)[1..] == ReplaceInWords(ws[1..], c, rep);
    }
  }

  /** The words after steps 1 and 2: those of `t`, ligatures spelled out. */
  function BaseWords(t: string): (ws: seq<string>)
    ensures GoodWords(ws)
    ensures forall i :: 0 <= i < |ws| ==> LigatureFi !in ws[i] && LigatureFl !in ws[i]
  {
    var w0 := Words(t);
    var w1 := ReplaceInWords(w0, LigatureFi, "fi");
    var w2 := ReplaceInWords(w1, LigatureFl, "fl");
    forall i | 0 <= i < |w2| ensures w2[i] != [] && NoSpace(w2[i]) && LigatureFi !in w2[i] && LigatureFl !in w2[i] {
      ReplaceCharNoSpace(w0[i], LigatureFi, "fi");
      ReplaceCharNoSpace(w1[i], LigatureFl, "fl");
      if LigatureFi in w1[i] { ReplaceCharMembers(w0[i], LigatureFi, "fi", LigatureFi); }
      if LigatureFi in w2[i] { ReplaceCharMembers(w1[i], LigatureFl, "fl", LigatureFi); }
      if LigatureFl in w2[i] { ReplaceCharMembers(w1[i], LigatureFl, "fl", LigatureFl); }
      assert w0[i] != [];
      assert w1[i] != [] && w2[i] != [] by {
        assert w0[i][0] in w0[i];
        assert |ReplaceChar(w0[i], LigatureFi, "fi")| > 0;
        assert |ReplaceChar(w1[i], LigatureFl, "fl")| > 0;
      }
    }
    w2
  }

  /** Steps 1 and 2 of `clean_text`: `" ".join(t.split())`, then the two
      ligature replacements, then `strip()`. */
  function BaseClean(t: string): (r: string)
  {
    Strip(ReplaceChar(ReplaceChar(CollapseSpaces(t), LigatureFi, "fi"), LigatureFl, "fl"))
  }

  /** The text after steps 1 and 2 is the single-space join of `BaseWords`. */
  lemma BaseCleanIsJoin(t: string)
    ensures BaseClean(t) == Join(" ", BaseWords(t))
  {
    var w0 := Words(t);
    var w1 := ReplaceInWords(w0, LigatureFi, "fi");
    ReplaceCharJoin(w0, LigatureFi, "fi");
    ReplaceCharJoin(w1, LigatureFl, "fl");
    var j := Join(" ", BaseWords(t));
    if BaseWords(t) != [] {
      JoinWordsShape(BaseWords(t));
    }
    StripUnchanged(j);
  }

  /** After steps 1 and 2 there is no whitespace at the ends, no two adjacent
      spaces, no whitespace other than ' ', and no ligature. */
  lemma BaseCleanShape(t: string)
    ensures SingleSpaced(BaseClean(t))
    ensures LigatureFi !in BaseClean(t) && LigatureFl !in BaseClean(t)
    ensures Words(BaseClean(t)) == BaseWords(t)
  {
    BaseCleanIsJoin(t);
    var ws := BaseWords(t);
    JoinWordsSingleSpaced(ws);
    WordsOfJoin(ws);
    LigatureFreeJoin(ws, LigatureFi);
    LigatureFreeJoin(ws, LigatureFl);
  }

  lemma {:induction false} LigatureFreeJoin(ws: seq<string>, c: char)
    requires c != ' ' && forall i :: 0 <= i < |ws| ==> c !in ws[i]
    ensures c !in Join(" ", ws)
  {
    if |ws| > 1 {
      LigatureFreeJoin(ws[1..], c);
      assert Join(" ", ws) == ws[0] + " " + Join(" ", ws[1..]);
    }
  }

  /** Steps 1 and 2 are idempotent. */
  lemma BaseCleanIdempotent(t: string)
    ensures BaseClean(BaseClean(t)) == BaseClean(t)
  {
    var s := BaseClean(t);
    BaseCleanShape(t);
    BaseCleanIsJoin(t);
    assert CollapseSpaces(s) == Join(" ", Words(s));
    assert CollapseSpaces(s) == s;
    ReplaceCharAbsent(s, LigatureFi, "fi");
    ReplaceCharAbsent(s, LigatureFl, "fl");
    if s != [] {
      JoinWordsShape(BaseWords(t));
    }
    StripUnchanged(s);
  }

  // ---------------------------------------------------------------------
  // Step 3: the spell-correction pass
  // ---------------------------------------------------------------------

  /** A single trailing non-alphanumeric character, split off the token. */
  function TrailingPunctuation(word: string): string
  {
    if word != [] && !IsAlnum(word[|word| - 1]) then [word[|word| - 1]] else []
  }

  /** What the loop body makes of one token. */
  function CorrectWord(sc: SpellChecker, word: string): string
  {
    var punct := TrailingPunctuation(word);
    var core := word[..|word| - |punct|];
    var fixed :=
      if core != [] && !IsUpper(core[0]) && sc.known(Lower(core)) then
        match sc.correction(core)
        case Some(c) => if c != [] then c else core
        case None => core
      else core;
    fixed + punct
  }

  /** The token rules: the trailing mark is reattached; a token whose core is
      empty, starts upper-case or is not a known word is unchanged; otherwise
      the core becomes the checker's non-empty correction, if it has one. */
  lemma CorrectWordSpec(sc: SpellChecker, word: string)
    ensures var punct := TrailingPunctuation(word);
      var core := word[..|word| - |punct|];
      var r := CorrectWord(sc, word);
      && word == core + punct
      && |punct| <= 1 && (punct != [] ==> !IsAlnum(punct[0]) && core + punct == word)
      && (core == [] || IsUpper(core[0]) || !sc.known(Lower(core)) ==> r == word)
      && (core != [] && !IsUpper(core[0]) && sc.known(Lower(core)) ==>
            match sc.correction(core)
            case Some(c) => r == (if c != [] then c else core) + punct
            case None => r == word)
  {
  }

  function CorrectAll(sc: SpellChecker, ws: seq<string>): (r: seq<string>)
    ensures |r| == |ws|
    ensures forall i :: 0 <= i < |ws| ==> r[i] == CorrectWord(sc, ws[i])
  {
    seq(|ws|, i requires 0 <= i < |ws| => CorrectWord(sc, ws[i]))
  }

  /** `clean_text(t)`, with `spell` None when the library cannot be imported. */
  function Clean(t: string, spell: Option<SpellChecker>): string
  {
    match spell
    case None => BaseClean(t)
    case Some(sc) => Join(" ", CorrectAll(sc, Words(BaseClean(t))))
  }

  /** `clean_text` */
  method CleanText(t: string, spell: Option<SpellChecker>) returns (r: string)
    ensures r == Clean(t, spell)
    ensures spell.None? ==> r == BaseClean(t)
  {
    r := BaseClean(t);
    if spell.Some? {
      var corrected := CorrectTokens(spell.value, Words(r));
      r := Join(" ", corrected);
    }
  }

  /** The loop of the spell pass, building `corrected_words`. */
  method CorrectTokens(sc: SpellChecker, words: seq<string>) returns (corrected: seq<string>)
    ensures corrected == CorrectAll(sc, words)
  {
    corrected := [];
    var i := 0;
    while i < |words|
      invariant i <= |words|
      invariant corrected == CorrectAll(sc, words[..i])
    {
      var token := CorrectToken(sc, words[i]);
      CorrectAllStep(sc, words, i, corrected, token);
      corrected := corrected + [token];
      i := i + 1;
    }
    assert words[..i] == words;
  }

  lemma CorrectAllStep(sc: SpellChecker, words: seq<string>, i: nat, done: seq<string>, token: string)
    requires i < |words| && done == CorrectAll(sc, words[..i]) && token == CorrectWord(sc, words[i])
    ensures done + [token] == CorrectAll(sc, words[..i + 1])
  {
    var a, b := words[..i], words[..i + 1];
    var next := CorrectAll(sc, b);
    var want := done + [token];
    assert |next| == |want|;
    forall k | 0 <= k < |want| ensures next[k] == want[k] {
      assert b[k] == words[k];
      if k < i {
        assert a[k] == words[k];
      }
    }
  }

  /** The loop body for one token. */
  method CorrectToken(sc: SpellChecker, token: string) returns (r: string)
    ensures r == CorrectWord(sc, token)
  {
    var word := token;
    var punctuation := "";
    if word != [] && !IsAlnum(word[|word| - 1]) {
      punctuation := [word[|word| - 1]];
      word := word[..|word| - 1];
    }
    assert punctuation == TrailingPunctuation(token);
    assert word == token[..|token| - |punctuation|];
    if word != [] && !IsUpper(word[0]) && sc.known(Lower(word)) {
      var suggestion := sc.correction(word);
      if suggestion.Some? && suggestion.value != [] {
        word := suggestion.value;
      }
    }
    r := word + punctuation;
  }

  /** A token stays a non-empty whitespace-free word when the checker's
      corrections are whitespace-free. */
  lemma CorrectWordIsWord(sc: SpellChecker, word: string)
    requires word != [] && NoSpace(word)
    requires forall w :: sc.correction(w).Some? ==> NoSpace(sc.correction(w).value)
    ensures CorrectWord(sc, word) != [] && NoSpace(CorrectWord(sc, word))
  {
  }

  /** The spell pass keeps the number of tokens. */
  lemma SpellPassKeepsTokenCount(t: string, sc: SpellChecker)
    requires forall w :: sc.correction(w).Some? ==> NoSpace(sc.correction(w).value)
    ensures |Words(Clean(t, Some(sc)))| == |Words(BaseClean(t))|
  {
    var ws := Words(BaseClean(t));
    var cs := CorrectAll(sc, ws);
    forall i | 0 <= i < |cs| ensures cs[i] != [] && NoSpace(cs[i]) {
      CorrectWordIsWord(sc, ws[i]);
    }
    WordsOfJoin(cs);
  }

  /** A checker that knows no word changes nothing: the result is that of
      steps 1 and 2 alone. */
  lemma NoKnownWordsNoChange(t: string, sc: SpellChecker)
    requires forall w :: !sc.known(w)
    ensures Clean(t, Some(sc)) == BaseClean(t)
  {
    var ws := Words(BaseClean(t));
    var cs := CorrectAll(sc, ws);
    forall i | 0 <= i < |ws| ensures cs[i] == ws[i] {
      CorrectWordSpec(sc, ws[i]);
    }
    assert cs == ws;
    BaseCleanShape(t);
    BaseCleanIsJoin(t);
  }
}
