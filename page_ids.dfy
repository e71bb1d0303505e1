/**
 * The page identifiers the pipelines write: `p%04d_%d` for image parts,
 * `c%04d` for EPUB chapters of the ElevenLabs web app, and the book-prefixed
 * `{book}_p%04d_%d` and `{book}_chapter_%04d` of the Speechify web app.
 */
module PageIds {
  import opened Wrappers
  import opened Text

  function DigitChar(d: nat): (c: char)
    requires d < 10
    ensures IsDigit(c)
  {
    "0123456789"[d]
  }

  function DigitValue(c: char): (d: nat)
    requires IsDigit(c)
    ensures d < 10
  {
    (c as int - '0' as int) as nat
  }

  lemma DigitRoundTrip(d: nat)
    requires d < 10
    ensures DigitValue(DigitChar(d)) == d
  {
    assert "0123456789"[d] as int == '0' as int + d by {
      if d == 0 {} else if d == 1 {} else if d == 2 {} else if d == 3 {} else if d == 4 {}
      else if d == 5 {} else if d == 6 {} else if d == 7 {} else if d == 8 {} else {}
    }
  }

  ghost predicate AllDigits(s: string)
  {
    forall i :: 0 <= i < |s| ==> IsDigit(s[i])
  }

  /** `str(n)`: decimal digits without leading zeros. */
  function Digits(n: nat): (s: string)
    ensures s != [] && AllDigits(s)
    ensures |s| > 1 ==> s[0] != '0'
  {
    if n < 10 then [DigitChar(n)]
    else
      var s := Digits(n / 10) + [DigitChar(n % 10)];
      s
  }

  /** Decimal value of a digit string; leading zeros are allowed. */
  function Value(s: string): (v: nat)
    requires AllDigits(s)
  {
    if s == [] then 0 else Value(s[..|s| - 1]) * 10 + DigitValue(s[|s| - 1])
  }

  lemma {:induction false} ValueOfDigits(n: nat)
    ensures Value(Digits(n)) == n
  {
    var s := Digits(n);
    DigitRoundTrip(n % 10);
    if n >= 10 {
      ValueOfDigits(n / 10);
      assert s[..|s| - 1] == Digits(n / 10);
    } else {
      assert s[..0] == [];
    }
  }

  function Zeros(k: nat): (s: string)
    ensures |s| == k && AllDigits(s)
    ensures forall i :: 0 <= i < k ==> s[i] == '0'
  {
    if k == 0 then [] else Zeros(k - 1) + ['0']
  }

  lemma {:induction false} ValueLeadingZeros(k: nat, s: string)
    requires AllDigits(s)
    ensures Value(Zeros(k) + s) == Value(s)
    decreases k, |s|
  {
    var z := Zeros(k) + s;
    if s == [] {
      assert z == Zeros(k);
      if k > 0 {
        assert z[..|z| - 1] == Zeros(k - 1);
        ValueLeadingZeros(k - 1, []);
        assert Zeros(k - 1) + [] == Zeros(k - 1);
      }
    } else {
      assert z[..|z| - 1] == Zeros(k) + s[..|s| - 1];
      ValueLeadingZeros(k, s[..|s| - 1]);
    }
  }

  /** `%0*d`: at least `width` digits, padded with zeros on the left. */
  function Pad(n: nat, width: nat): (s: string)
    ensures AllDigits(s) && |s| >= width && |s| >= 1
  {
    var d := Digits(n);
    Zeros(if |d| < width then width - |d| else 0) + d
  }

  lemma PadValue(n: nat, width: nat)
    ensures Value(Pad(n, width)) == n
  {
    var d := Digits(n);
    ValueLeadingZeros(if |d| < width then width - |d| else 0, d);
    ValueOfDigits(n);
  }

  /** `f"p{idx:04d}_{part_i}"` */
  function PageId(idx: nat, part: nat): string
  {
    "p" + Pad(idx, 4) + "_" + Digits(part)
  }

  /** `f"c{idx:04d}"` */
  function ChapterId(idx: nat): string
  {
    "c" + Pad(idx, 4)
  }

  /** `f"{book_name}_p{i+1:04d}_{part_i+1}"` */
  function BookPageId(book: string, idx: nat, part: nat): string
  {
    book + "_" + PageId(idx, part)
  }

  /** `f"{book_name}_chapter_{i+1:04d}"` */
  function BookChapterId(book: string, idx: nat): string
  {
    book + "_chapter_" + Pad(idx, 4)
  }

  // ---------------------------------------------------------------------
  // Reading an identifier back
  // ---------------------------------------------------------------------

  /** Length of the all-digit prefix of `s`. */
  function DigitPrefix(s: string): (n: nat)
    ensures n <= |s| && AllDigits(s[..n]) && (n < |s| ==> !IsDigit(s[n]))
  {
    if s == [] || !IsDigit(s[0]) then 0
    else
      var n := 1 + DigitPrefix(s[1..]);
      assert s[..n] == [s[0]] + s[1..][..n - 1];
      n
  }

  /** The inverse of `PageId`. */
  function ParsePageId(s: string): Option<(nat, nat)>
  {
    if |s| < 1 || s[0] != 'p' then None
    else
      var t := s[1..];
      var n := DigitPrefix(t);
      if n == 0 || n == |t| || t[n] != '_' then None
      else
        var u := t[n + 1..];
        if u == [] || !AllDigitsFn(u) then None
        else Some((Value(t[..n]), Value(u)))
  }

  predicate AllDigitsFn(s: string)
    ensures AllDigitsFn(s) <==> AllDigits(s)
  {
    forall i :: 0 <= i < |s| ==> IsDigit(s[i])
  }

  lemma DigitPrefixOf(a: string, b: string)
    requires AllDigits(a) && (b == [] || !IsDigit(b[0]))
    ensures DigitPrefix(a + b) == |a|
  {
    if a != [] {
      assert (a + b)[1..] == a[1..] + b;
      DigitPrefixOf(a[1..], b);
    }
  }

  /** Reading an identifier back gives the index and the part number. */
  lemma PageIdRoundTrip(idx: nat, part: nat)
    ensures ParsePageId(PageId(idx, part)) == Some((idx, part))
  {
    var s := PageId(idx, part);
    var p, d := Pad(idx, 4), Digits(part);
    assert s[1..] == p + ("_" + d);
    DigitPrefixOf(p, "_" + d);
    var t := s[1..];
    assert t[..|p|] == p;
    assert t[|p| + 1..] == d;
    PadValue(idx, 4);
    ValueOfDigits(part);
  }

  /** Different (index, part) pairs never share an identifier. */
  lemma PageIdInjective(i1: nat, p1: nat, i2: nat, p2: nat)
    requires PageId(i1, p1) == PageId(i2, p2)
    ensures i1 == i2 && p1 == p2
  {
    PageIdRoundTrip(i1, p1);
    PageIdRoundTrip(i2, p2);
  }

  /** Different chapter numbers never share an identifier. */
  lemma ChapterIdInjective(i1: nat, i2: nat)
    requires ChapterId(i1) == ChapterId(i2)
    ensures i1 == i2
  {
    assert Pad(i1, 4) == ChapterId(i1)[1..];
    assert Pad(i2, 4) == ChapterId(i2)[1..];
    PadValue(i1, 4);
    PadValue(i2, 4);
  }

  /** Within one book, different (index, part) pairs give different ids. */
  lemma BookPageIdInjective(book: string, i1: nat, p1: nat, i2: nat, p2: nat)
    requires BookPageId(book, i1, p1) == BookPageId(book, i2, p2)
    ensures i1 == i2 && p1 == p2
  {
    var k := |book| + 1;
    assert PageId(i1, p1) == BookPageId(book, i1, p1)[k..];
    assert PageId(i2, p2) == BookPageId(book, i2, p2)[k..];
    PageIdInjective(i1, p1, i2, p2);
  }

  /** Within one book, different chapter numbers give different ids. */
  lemma BookChapterIdInjective(book: string, i1: nat, i2: nat)
    requires BookChapterId(book, i1) == BookChapterId(book, i2)
    ensures i1 == i2
  {
    var k := |book| + 9;
    assert Pad(i1, 4) == BookChapterId(book, i1)[k..];
    assert Pad(i2, 4) == BookChapterId(book, i2)[k..];
    PadValue(i1, 4);
    PadValue(i2, 4);
  }

  // ---------------------------------------------------------------------
  // Sorting identifiers as strings
  // ---------------------------------------------------------------------

  /** Python's `<` on strings. */
  predicate StrLess(a: string, b: string)
  {
    if a == [] then b != []
    else if b == [] then false
    else if a[0] != b[0] then a[0] < b[0]
    else StrLess(a[1..], b[1..])
  }

  lemma {:induction false} StrLessCommonPrefix(c: string, a: string, b: string)
    ensures StrLess(c + a, c + b) == StrLess(a, b)
  {
    if c != [] {
      assert (c + a)[0] == c[0] == (c + b)[0];
      assert (c + a)[1..] == c[1..] + a;
      assert (c + b)[1..] == c[1..] + b;
      StrLessCommonPrefix(c[1..], a, b);
    } else {
      assert c + a == a && c + b == b;
    }
  }

  /** Of two different strings of one length, the first difference decides,
      whatever follows. */
  lemma {:induction false} StrLessEqualLength(a: string, b: string, x: string, y: string)
    requires |a| == |b| && a != b
    ensures StrLess(a + x, b + y) == StrLess(a, b)
  {
    assert a != [];
    assert (a + x)[0] == a[0] && (b + y)[0] == b[0];
    if a[0] == b[0] {
      assert a[1..] != b[1..] by { assert a == [a[0]] + a[1..] && b == [b[0]] + b[1..]; }
      assert (a + x)[1..] == a[1..] + x && (b + y)[1..] == b[1..] + y;
      StrLessEqualLength(a[1..], b[1..], x, y);
    }
  }

  /** Different strings of one length are ordered one way or the other. */
  lemma {:induction false} StrLessTotal(a: string, b: string)
    requires |a| == |b| && a != b
    ensures StrLess(a, b) != StrLess(b, a)
  {
    if a[0] == b[0] {
      assert a[1..] != b[1..] by { assert a == [a[0]] + a[1..] && b == [b[0]] + b[1..]; }
      StrLessTotal(a[1..], b[1..]);
    }
  }

  lemma DigitCharOrder(a: nat, b: nat)
    requires a < 10 && b < 10
    ensures DigitChar(a) < DigitChar(b) <==> a < b
    ensures DigitChar(a) == DigitChar(b) <==> a == b
  {
    DigitRoundTrip(a);
    DigitRoundTrip(b);
    assert DigitChar(a) as int == '0' as int + a && DigitChar(b) as int == '0' as int + b;
  }

  /** Digit strings of one length compare as strings as their values do. */
  lemma {:induction false} StrLessValue(a: string, b: string)
    requires |a| == |b| && AllDigits(a) && AllDigits(b)
    ensures StrLess(a, b) <==> Value(a) < Value(b)
    ensures a == b <==> Value(a) == Value(b)
    decreases |a|
  {
    if a != [] {
      var a', b' := a[..|a| - 1], b[..|b| - 1];
      var c, d := a[|a| - 1], b[|b| - 1];
      assert a == a' + [c] && b == b' + [d];
      StrLessValue(a', b');
      var (va, vb) := (DigitValue(c), DigitValue(d));
      assert (c as int) == '0' as int + va && (d as int) == '0' as int + vb;
      if a' == b' {
        StrLessCommonPrefix(a', [c], [d]);
      } else {
        StrLessEqualLength(a', b', [c], [d]);
        StrLessTotal(a', b');
        StrLessValue(b', a');
      }
    }
  }

  function Pow10(k: nat): (p: nat)
    ensures p >= 1
  {
    if k == 0 then 1 else 10 * Pow10(k - 1)
  }

  lemma {:induction false} DigitsLength(n: nat, k: nat)
    requires 1 <= k && n < Pow10(k)
    ensures |Digits(n)| <= k
  {
    if n >= 10 {
      assert k > 1;
      DigitsLength(n / 10, k - 1);
    }
  }

  /** Numbers below 10000 are written with exactly four digits. */
  lemma PadFourLength(n: nat)
    requires n < 10000
    ensures |Pad(n, 4)| == 4
  {
    assert Pow10(4) == 10000;
    DigitsLength(n, 4);
  }

  /** For at most 9999 photos and single-digit part numbers, sorting the
      identifiers as strings (as the sorted file listing does with the file
      names) gives the order of (index, part). */
  lemma PageIdOrder(i1: nat, p1: nat, i2: nat, p2: nat)
    requires i1 < 10000 && i2 < 10000 && p1 < 10 && p2 < 10
    ensures StrLess(PageId(i1, p1), PageId(i2, p2)) <==> i1 < i2 || (i1 == i2 && p1 < p2)
  {
    var a, b := Pad(i1, 4), Pad(i2, 4);
    PadFourLength(i1);
    PadFourLength(i2);
    PadValue(i1, 4);
    PadValue(i2, 4);
    StrLessValue(a, b);
    var x, y := "_" + Digits(p1), "_" + Digits(p2);
    assert PageId(i1, p1) == "p" + (a + x);
    assert PageId(i2, p2) == "p" + (b + y);
    StrLessCommonPrefix("p", a + x, b + y);
    if a == b {
      assert Digits(p1) == [DigitChar(p1)] && Digits(p2) == [DigitChar(p2)];
      DigitCharOrder(p1, p2);
      StrLessCommonPrefix(a, x, y);
      StrLessCommonPrefix("_", Digits(p1), Digits(p2));
    } else {
      StrLessEqualLength(a, b, x, y);
    }
  }
}
