/**
 * The two `ocr_ndarray` variants. Tesseract is an oracle `engine(img, lang)`
 * that either recognises some text or raises.
 *
 * - The ElevenLabs script tries the languages in order and stops at the first
 *   cleaned text longer than 20 characters; otherwise it keeps the last one.
 *   It has no exception handler, so a raising call ends the whole function
 *   with that exception, and an empty language list leaves `txt` unbound.
 * - The Speechify script makes a single call with the languages joined by
 *   `+` and turns any exception into the empty string.
 */
module Ocr {
  import opened Text
  import opened Wrappers
  import opened PageSplit
  import opened Normalizer

  datatype OcrOutcome = Recognised(text: string) | Raised

  /** `pytesseract.image_to_string(img, lang=...)`, as an oracle. */
  type Engine = (Image, string) -> OcrOutcome

  /** Why the ElevenLabs variant ends with an exception. */
  datatype OcrError = EngineRaised | NoLanguages

  /** A cleaned text longer than this is accepted at once. */
  const MinUsefulLength: nat := 20

  // ---------------------------------------------------------------------
  // ElevenLabs variant: language fallback
  // ---------------------------------------------------------------------

  /** One pass of the loop body: the engine's text for `lang`, cleaned. */
  function Attempt(img: Image, lang: string, engine: Engine, spell: Option<SpellChecker>): (a: OcrOutcome)
    ensures engine(img, lang).Raised? <==> a.Raised?
    ensures a.Recognised? ==> a.text == Clean(engine(img, lang).text, spell)
  {
    match engine(img, lang)
    case Raised => Raised
    case Recognised(t) => Recognised(Clean(t, spell))
  }

  /** The cleaned outcome the loop would see for each language, in order. */
  function Attempts(img: Image, langs: seq<string>, engine: Engine, spell: Option<SpellChecker>): (xs: seq<OcrOutcome>)
    ensures |xs| == |langs|
    ensures forall j :: 0 <= j < |langs| ==> xs[j] == Attempt(img, langs[j], engine, spell)
  {
    seq(|langs|, j requires 0 <= j < |langs| => Attempt(img, langs[j], engine, spell))
  }

  /** What the fallback loop returns for a sequence of cleaned outcomes. */
  function Select(xs: seq<OcrOutcome>): Result<string, OcrError>
  {
    if xs == [] then Err(NoLanguages)
    else match xs[0]
      case Raised => Err(EngineRaised)
      case Recognised(txt) =>
        if |txt| > MinUsefulLength || |xs| == 1 then Ok(txt)
        else Select(xs[1..])
  }

  /** `ocr_ndarray` of the ElevenLabs script. */
  method OcrWithFallback(img: Image, langs: seq<string>, engine: Engine, spell: Option<SpellChecker>)
    returns (r: Result<string, OcrError>)
    ensures r == Select(Attempts(img, langs, engine, spell))
  {
    ghost var xs := Attempts(img, langs, engine, spell);
    if langs == [] {
      return Err(NoLanguages);
    }
    var txt := "";
    var i := 0;
    assert xs[0..] == xs;
    while i < |langs|
      invariant i <= |langs|
      invariant i < |langs| ==> Select(xs) == Select(xs[i..])
      invariant i == |langs| ==> Select(xs) == Ok(txt)
    {
      var outcome := AttemptOnce(img, langs[i], engine, spell);
      SelectAt(xs, i);
      if outcome.Raised? {
        return Err(EngineRaised);
      }
      txt := outcome.text;
      if |txt| > MinUsefulLength {
        return Ok(txt);
      }
      i := i + 1;
    }
    return Ok(txt);
  }

  /** One step of the selection, taken at position `i`. */
  lemma SelectAt(xs: seq<OcrOutcome>, i: nat)
    requires i < |xs|
    ensures xs[i].Raised? ==> Select(xs[i..]) == Err(EngineRaised)
    ensures xs[i].Recognised? && |xs[i].text| > MinUsefulLength ==> Select(xs[i..]) == Ok(xs[i].text)
    ensures xs[i].Recognised? && |xs[i].text| <= MinUsefulLength ==>
      Select(xs[i..]) == if i + 1 < |xs| then Select(xs[i + 1..]) else Ok(xs[i].text)
  {
    assert xs[i..][0] == xs[i];
    assert xs[i..][1..] == xs[i + 1..];
  }

  /** The OCR call and the cleaning of its text, for one language. */
  method AttemptOnce(img: Image, lang: string, engine: Engine, spell: Option<SpellChecker>) returns (a: OcrOutcome)
    ensures a == Attempt(img, lang, engine, spell)
  {
    var outcome := engine(img, lang);
    if outcome.Raised? {
      return Raised;
    }
    var txt := CleanText(outcome.text, spell);
    return Recognised(txt);
  }

  /** Every attempt before `k` was recognised and too short. */
  ghost predicate ShortBefore(xs: seq<OcrOutcome>, k: nat)
    requires k <= |xs|
  {
    forall j :: 0 <= j < k ==> xs[j].Recognised? && |xs[j].text| <= MinUsefulLength
  }

  /** The first language whose cleaned text is long enough wins. */
  lemma {:induction false} SelectPicksFirstLong(xs: seq<OcrOutcome>, k: nat)
    requires k < |xs| && ShortBefore(xs, k)
    requires xs[k].Recognised? && |xs[k].text| > MinUsefulLength
    ensures Select(xs) == Ok(xs[k].text)
  {
    if k > 0 {
      assert xs[0].Recognised? && |xs[0].text| <= MinUsefulLength;
      assert ShortBefore(xs[1..], k - 1) by {
        forall j | 0 <= j < k - 1 ensures xs[1..][j] == xs[j + 1] { }
      }
      SelectPicksFirstLong(xs[1..], k - 1);
    }
  }

  /** When no language qualifies, the cleaned text of the last one is returned. */
  lemma {:induction false} SelectKeepsLast(xs: seq<OcrOutcome>)
    requires xs != [] && ShortBefore(xs, |xs| - 1) && xs[|xs| - 1].Recognised?
    ensures Select(xs) == Ok(xs[|xs| - 1].text)
  {
    if |xs| > 1 {
      assert xs[0].Recognised? && |xs[0].text| <= MinUsefulLength;
      assert ShortBefore(xs[1..], |xs| - 2) by {
        forall j | 0 <= j < |xs| - 2 ensures xs[1..][j] == xs[j + 1] { }
      }
      SelectKeepsLast(xs[1..]);
    }
  }

  /** A raising call that is reached ends the function with the exception. */
  lemma {:induction false} SelectPropagatesRaise(xs: seq<OcrOutcome>, k: nat)
    requires k < |xs| && ShortBefore(xs, k) && xs[k].Raised?
    ensures Select(xs) == Err(EngineRaised)
  {
    if k > 0 {
      assert xs[0].Recognised? && |xs[0].text| <= MinUsefulLength;
      assert ShortBefore(xs[1..], k - 1) by {
        forall j | 0 <= j < k - 1 ensures xs[1..][j] == xs[j + 1] { }
      }
      SelectPropagatesRaise(xs[1..], k - 1);
    }
  }

  /** Once a long enough text is found, the languages after it are not
      looked at: appending more attempts leaves the result unchanged. */
  lemma {:induction false} SelectIgnoresLater(xs: seq<OcrOutcome>, later: seq<OcrOutcome>)
    requires Select(xs).Ok? && |Select(xs).value| > MinUsefulLength
    ensures Select(xs + later) == Select(xs)
  {
    var all := xs + later;
    assert all[0] == xs[0];
    if xs[0].Recognised? && |xs[0].text| <= MinUsefulLength {
      assert all[1..] == xs[1..] + later;
      SelectIgnoresLater(xs[1..], later);
    }
  }

  /** The result is always the cleaned text of one of the attempts. */
  lemma {:induction false} SelectResultIsAnAttempt(xs: seq<OcrOutcome>)
    requires Select(xs).Ok?
    ensures exists k :: 0 <= k < |xs| && xs[k] == Recognised(Select(xs).value)
  {
    if !(|xs[0].text| > MinUsefulLength || |xs| == 1) {
      SelectResultIsAnAttempt(xs[1..]);
      var k :| 0 <= k < |xs[1..]| && xs[1..][k] == Recognised(Select(xs[1..]).value);
      assert xs[k + 1] == xs[1..][k];
    } else {
      assert xs[0] == Recognised(Select(xs).value);
    }
  }

  /** The result names an error exactly in the two exceptional cases. */
  lemma {:induction false} SelectErrors(xs: seq<OcrOutcome>)
    ensures Select(xs) == Err(NoLanguages) <==> xs == []
    ensures Select(xs) == Err(EngineRaised) ==> exists k :: 0 <= k < |xs| && xs[k].Raised? && ShortBefore(xs, k)
  {
    if xs != [] && xs[0].Recognised? && !(|xs[0].text| > MinUsefulLength || |xs| == 1) {
      SelectErrors(xs[1..]);
      if Select(xs) == Err(EngineRaised) {
        var k :| 0 <= k < |xs[1..]| && xs[1..][k].Raised? && ShortBefore(xs[1..], k);
        assert xs[k + 1] == xs[1..][k];
        assert ShortBefore(xs, k + 1) by {
          forall j | 0 < j < k + 1 ensures xs[j] == xs[1..][j - 1] { }
        }
      }
    } else if Select(xs) == Err(EngineRaised) {
      assert xs[0].Raised? && ShortBefore(xs, 0);
    }
  }

  // ---------------------------------------------------------------------
  // Speechify variant: one call, exceptions give ""
  // ---------------------------------------------------------------------

  /** `"+".join(LANGS)` */
  function LanguageString(langs: seq<string>): string
  {
    Join("+", langs)
  }

  /** `ocr_ndarray` of the Speechify script. */
  function OcrJoined(img: Image, langs: seq<string>, engine: Engine, spell: Option<SpellChecker>): (r: string)
    ensures engine(img, LanguageString(langs)).Raised? ==> r == ""
    ensures engine(img, LanguageString(langs)).Recognised? ==> r == Clean(engine(img, LanguageString(langs)).text, spell)
  {
    match engine(img, LanguageString(langs))
    case Raised => ""
    case Recognised(t) => Clean(t, spell)
  }

  /** The single call sees every language, in order: for language codes
      without `+`, splitting the language string at `+` gives the list back. */
  lemma LanguageStringRoundTrip(langs: seq<string>)
    requires langs != []
    requires forall k, i :: 0 <= k < |langs| && 0 <= i < |langs[k]| ==> langs[k][i] != '+'
    ensures Split(LanguageString(langs), "+") == langs
  {
    SplitJoin(langs, '+');
  }

  /** Without the spell checker the text returned is trimmed and single-spaced. */
  lemma OcrJoinedShape(img: Image, langs: seq<string>, engine: Engine)
    ensures SingleSpaced(OcrJoined(img, langs, engine, None))
  {
    match engine(img, LanguageString(langs))
    case Raised =>
    case Recognised(t) => BaseCleanShape(t);
  }
}
