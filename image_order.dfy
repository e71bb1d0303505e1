/**
 * Ordering of the scanned photos: `get_exif_datetime` chooses the sort key of
 * one file, and `sorted(imgs, key=get_exif_datetime)` orders the files by it.
 * Timestamps are abstract ordered keys (seconds as an `int`); reading the
 * EXIF block, decoding and `strptime` are oracles.
 */
module ImageOrder {
  import opened Wrappers

  type Timestamp = int

  /** The two EXIF fields `get_exif_datetime` looks at. A missing field and an
      empty value are both falsy in Python and are both written `""`. */
  datatype ExifFields = ExifFields(dateTimeOriginal: string, dateTime: string)

  /** What the sort sees of one photo. `exif` is None when `piexif.load` or the
      IFD lookup raises; `parse` stands for decoding plus `strptime`, None when
      either raises; `mtime` is the file's modification time. */
  datatype PhotoInfo = PhotoInfo(exif: Option<ExifFields>, parse: string -> Option<Timestamp>, mtime: Timestamp)

  /** `exif["Exif"].get(DateTimeOriginal) or exif["0th"].get(DateTime)` */
  function RawDate(f: ExifFields): string
  {
    if f.dateTimeOriginal != "" then f.dateTimeOriginal else f.dateTime
  }

  /** `get_exif_datetime` */
  function SortKey(p: PhotoInfo): Timestamp
  {
    match p.exif
    case None => p.mtime
    case Some(f) =>
      var raw := RawDate(f);
      if raw == "" then p.mtime
      else match p.parse(raw)
        case None => p.mtime
        case Some(t) => t
  }

  /** The field order of the key: a non-empty DateTimeOriginal is the only value
      looked at; DateTime is used only when DateTimeOriginal is empty; in every
      other case (unreadable EXIF, no field, a value that fails to parse) the
      key is the modification time. */
  lemma SortKeyCases(p: PhotoInfo)
    ensures p.exif.None? ==> SortKey(p) == p.mtime
    ensures p.exif.Some? && p.exif.value.dateTimeOriginal != "" ==>
      SortKey(p) == (match p.parse(p.exif.value.dateTimeOriginal) case Some(t) => t case None => p.mtime)
    ensures p.exif.Some? && p.exif.value.dateTimeOriginal == "" && p.exif.value.dateTime != "" ==>
      SortKey(p) == (match p.parse(p.exif.value.dateTime) case Some(t) => t case None => p.mtime)
    ensures p.exif.Some? && p.exif.value.dateTimeOriginal == "" && p.exif.value.dateTime == "" ==>
      SortKey(p) == p.mtime
  {
  }

  /** A DateTimeOriginal that fails to parse does not fall back to DateTime. */
  lemma NoSecondField(p: PhotoInfo, t: Timestamp)
    requires p.exif.Some? && p.exif.value.dateTimeOriginal != ""
    requires p.parse(p.exif.value.dateTimeOriginal).None?
    requires p.parse(p.exif.value.dateTime) == Some(t)
    ensures SortKey(p) == p.mtime
  {
  }

  // ---------------------------------------------------------------------
  // The stable sort
  // ---------------------------------------------------------------------

  /** Python's sort is stable: `x` goes before `y` when its key is smaller, or
      the keys are equal and `x` came first. */
  predicate Before(keys: seq<Timestamp>, x: nat, y: nat)
    requires x < |keys| && y < |keys|
  {
    keys[x] < keys[y] || (keys[x] == keys[y] && x < y)
  }

  ghost predicate InRange(keys: seq<Timestamp>, order: seq<nat>)
  {
    forall a :: 0 <= a < |order| ==> order[a] < |keys|
  }

  ghost predicate SortedBy(keys: seq<Timestamp>, order: seq<nat>)
    requires InRange(keys, order)
  {
    forall a, b :: 0 <= a < b < |order| ==> Before(keys, order[a], order[b])
  }

  /** Insert index `i` into an order of smaller indices. */
  function Insert(keys: seq<Timestamp>, order: seq<nat>, i: nat): (r: seq<nat>)
    requires i < |keys| && InRange(keys, order)
    ensures InRange(keys, r) && multiset(r) == multiset(order) + multiset{i}
  {
    if order == [] then [i]
    else if keys[i] < keys[order[0]] then [i] + order
    else
      var rest := Insert(keys, order[1..], i);
      assert order == [order[0]] + order[1..];
      [order[0]] + rest
  }

  /** The positions of the first `n` photos, in sorted order. */
  function SortPrefix(keys: seq<Timestamp>, n: nat): (order: seq<nat>)
    requires n <= |keys|
    ensures InRange(keys, order)
  {
    if n == 0 then [] else Insert(keys, SortPrefix(keys, n - 1), n - 1)
  }

  /** `sorted(range(len(keys)), key=keys.__getitem__)`: the positions of the
      photos in the order in which they are processed. */
  function StableOrder(keys: seq<Timestamp>): (order: seq<nat>)
    ensures InRange(keys, order)
  {
    SortPrefix(keys, |keys|)
  }

  lemma {:induction false} InsertSorted(keys: seq<Timestamp>, order: seq<nat>, i: nat)
    requires i < |keys| && InRange(keys, order) && SortedBy(keys, order)
    requires forall a :: 0 <= a < |order| ==> order[a] < i
    ensures SortedBy(keys, Insert(keys, order, i))
  {
    var r := Insert(keys, order, i);
    if order != [] && keys[order[0]] <= keys[i] {
      var rest := Insert(keys, order[1..], i);
      InsertSorted(keys, order[1..], i);
      assert r == [order[0]] + rest;
      forall b | 0 < b < |r| ensures Before(keys, order[0], r[b]) {
        assert r[b] in multiset(rest);
        assert r[b] in multiset(order[1..]) + multiset{i};
        if r[b] != i {
          var c :| 1 <= c < |order| && order[c] == r[b] by {
            assert r[b] in order[1..];
          }
        }
      }
    } else if order != [] {
      assert r == [i] + order;
      forall b | 0 < b < |r| ensures Before(keys, i, r[b]) {
        assert r[b] == order[b - 1];
        if b > 1 { assert Before(keys, order[0], order[b - 1]); }
      }
    }
  }

  lemma {:induction false} SortPrefixSorted(keys: seq<Timestamp>, n: nat)
    requires n <= |keys|
    ensures SortedBy(keys, SortPrefix(keys, n))
  {
    if n > 0 {
      SortPrefixSorted(keys, n - 1);
      SortStep(keys, n - 1);
    }
  }

  /** Inserting the next index into the sorted order of the earlier ones
      keeps it sorted. */
  lemma SortStep(keys: seq<Timestamp>, m: nat)
    requires m < |keys| && SortedBy(keys, SortPrefix(keys, m))
    ensures SortedBy(keys, SortPrefix(keys, m + 1))
  {
    var prev := SortPrefix(keys, m);
    SortPrefixPerm(keys, m);
    RangeBelow(prev, m);
    InsertSorted(keys, prev, m);
    assert SortPrefix(keys, m + 1) == Insert(keys, prev, m);
  }

  /** Insertion sorting the first `n` indices loses and adds none. */
  lemma {:induction false} SortPrefixPerm(keys: seq<Timestamp>, n: nat)
    requires n <= |keys|
    ensures multiset(SortPrefix(keys, n)) == multiset(Range(n))
  {
    if n > 0 {
      SortPrefixPerm(keys, n - 1);
      RangeStep(n - 1);
    }
  }

  /** An order holding the indices below `n` holds nothing else. */
  lemma RangeBelow(order: seq<nat>, n: nat)
    requires multiset(order) == multiset(Range(n))
    ensures forall a :: 0 <= a < |order| ==> order[a] < n
  {
    forall a | 0 <= a < |order| ensures order[a] < n {
      assert order[a] in multiset(Range(n));
      RangeMembers(n, order[a]);
    }
  }

  lemma RangeStep(m: nat)
    ensures multiset(Range(m + 1)) == multiset(Range(m)) + multiset{m}
  {
    assert Range(m + 1) == Range(m) + [m];
  }

  /** `[0, 1, …, n - 1]` */
  function Range(n: nat): (r: seq<nat>)
    ensures |r| == n && forall a :: 0 <= a < n ==> r[a] == a
  {
    if n == 0 then [] else Range(n - 1) + [n - 1]
  }

  lemma RangeMembers(n: nat, x: nat)
    ensures x in Range(n) <==> x < n
  {
    if x < n { assert Range(n)[x] == x; }
  }

  /** The order visits every photo exactly once, sorted by key, with photos of
      equal key kept in their original order. */
  lemma StableOrderSpec(keys: seq<Timestamp>)
    ensures multiset(StableOrder(keys)) == multiset(Range(|keys|))
    ensures |StableOrder(keys)| == |keys|
    ensures SortedBy(keys, StableOrder(keys))
    ensures forall a, b :: 0 <= a < b < |keys| ==> keys[StableOrder(keys)[a]] <= keys[StableOrder(keys)[b]]
    ensures forall a, b :: 0 <= a < b < |keys| && keys[StableOrder(keys)[a]] == keys[StableOrder(keys)[b]] ==>
      StableOrder(keys)[a] < StableOrder(keys)[b]
  {
    SortPrefixSorted(keys, |keys|);
    SortPrefixPerm(keys, |keys|);
    assert |multiset(StableOrder(keys))| == |multiset(Range(|keys|))|;
  }
}
