/**
 * The note list filter: by category, by archive status, and by inclusive
 * ranges of the stored word counts, each keeping the matching notes in
 * their original order.
 */
module NoteFilter {
  import opened Wrappers
  import opened PyInt
  import opened Models

  /** The status choices. */
  const Active: int := 1
  const Archived: int := 2

  /** A range filter's two optional bounds. */
  datatype Range = Range(min: Option<int>, max: Option<int>)

  /** The query parameters of the filter. `category` and `status` are the raw
      query values; the range bounds are taken as already-read numbers. The
      creation-date range is not modelled. */
  datatype Params = Params(category: Option<string>, status: Option<string>, words: Range, uniqueWords: Range)

  /** The notes of `s` that satisfy `p`, in order. */
  function Keep(s: seq<Note>, p: Note -> bool): (r: seq<Note>)
    ensures |r| <= |s|
    ensures forall n :: n in r <==> n in s && p(n)
    decreases |s|
  {
    if s == [] then []
    else (if p(s[0]) then [s[0]] else []) + Keep(s[1..], p)
  }

  /** `a` is `b` with some elements left out and none added or reordered. */
  predicate IsSubsequence(a: seq<Note>, b: seq<Note>)
    decreases |b|
  {
    a == [] || (b != [] && ((a[0] == b[0] && IsSubsequence(a[1..], b[1..])) || IsSubsequence(a, b[1..])))
  }

  lemma {:induction false} KeepIsSubsequence(s: seq<Note>, p: Note -> bool)
    ensures IsSubsequence(Keep(s, p), s)
    decreases |s|
  {
    if s != [] {
      KeepIsSubsequence(s[1..], p);
      var r := Keep(s, p);
      if p(s[0]) {
        assert r[0] == s[0] && r[1..] == Keep(s[1..], p);
      } else {
        assert r == Keep(s[1..], p);
        if r != [] {
          assert IsSubsequence(r, s[1..]);
        }
      }
    }
  }

  /** How often each note occurs in the result: as often as in the input
      when it matches, otherwise never. */
  lemma {:induction false} KeepCounts(s: seq<Note>, p: Note -> bool)
    ensures forall n :: multiset(Keep(s, p))[n] == if p(n) then multiset(s)[n] else 0
    decreases |s|
  {
    if s != [] {
      KeepCounts(s[1..], p);
      assert s == [s[0]] + s[1..];
    }
  }

  lemma {:induction false} SubsequenceReflexive(s: seq<Note>)
    ensures IsSubsequence(s, s)
    decreases |s|
  {
    if s != [] {
      SubsequenceReflexive(s[1..]);
    }
  }

  /** A predicate and its negation split a sequence between them. */
  lemma KeepSplits(s: seq<Note>, p: Note -> bool, q: Note -> bool)
    requires forall n :: q(n) == !p(n)
    ensures multiset(Keep(s, p)) + multiset(Keep(s, q)) == multiset(s)
    ensures |Keep(s, p)| + |Keep(s, q)| == |s|
    ensures multiset(Keep(s, p)) !! multiset(Keep(s, q))
  {
    KeepSplitLength(s, p, q);
    var a, b := multiset(Keep(s, p)), multiset(Keep(s, q));
    KeepCounts(s, p);
    KeepCounts(s, q);
    forall n ensures (a + b)[n] == multiset(s)[n] && (a[n] == 0 || b[n] == 0) {
      assert q(n) == !p(n);
    }
  }

  lemma {:induction false} KeepSplitLength(s: seq<Note>, p: Note -> bool, q: Note -> bool)
    requires forall n :: q(n) == !p(n)
    ensures |Keep(s, p)| + |Keep(s, q)| == |s|
    decreases |s|
  {
    if s != [] {
      KeepSplitLength(s[1..], p, q);
    }
  }

  /** `_get_value_as_int`: the value as Python's `int()` reads it, or 0 when
      that raises `ValueError`. */
  function ValueAsInt(value: string): (r: int)
    ensures ParseInt(value).Some? ==> r == ParseInt(value).value
    ensures ParseInt(value).None? ==> r == 0
  {
    match ParseInt(value)
    case Some(n) => n
    case None => 0
  }

  /** Any integer of at most 4300 digits written out reads back as itself,
      a longer one as 0; a value with no digit reads as 0. */
  lemma ValueAsIntReadsIntegers(n: int, junk: string)
    requires forall i :: 0 <= i < |junk| ==> !Chars.IsDigit(junk[i])
    ensures |Magnitude(n)| <= MaxStrDigits ==> ValueAsInt(IntToString(n)) == n
    ensures |Magnitude(n)| > MaxStrDigits ==> ValueAsInt(IntToString(n)) == 0
    ensures ValueAsInt(junk) == 0
  {
    ParseIntRoundTrip(n);
    NoDigitNoInt(junk);
  }

  predicate IsActive(n: Note) {
    !n.isArchived
  }

  predicate IsArchived(n: Note) {
    n.isArchived
  }

  /** `filter_by_status`: ACTIVE keeps the notes not archived, ARCHIVED the
      archived ones, any other value keeps everything. */
  function FilterByStatus(notes: seq<Note>, value: string): (r: seq<Note>)
    ensures ValueAsInt(value) == Active ==> forall n :: n in r <==> n in notes && !n.isArchived
    ensures ValueAsInt(value) == Archived ==> forall n :: n in r <==> n in notes && n.isArchived
    ensures ValueAsInt(value) != Active && ValueAsInt(value) != Archived ==> r == notes
  {
    var v := ValueAsInt(value);
    if v == Active then
      KeepCounts(notes, IsActive);
      Keep(notes, IsActive)
    else if v == Archived then
      KeepCounts(notes, IsArchived);
      Keep(notes, IsArchived)
    else
      notes
  }

  /** Status filtering never adds or reorders notes. */
  lemma FilterByStatusIsSubsequence(notes: seq<Note>, value: string)
    ensures IsSubsequence(FilterByStatus(notes, value), notes)
  {
    var v := ValueAsInt(value);
    if v == Active {
      KeepIsSubsequence(notes, IsActive);
    } else if v == Archived {
      KeepIsSubsequence(notes, IsArchived);
    } else {
      SubsequenceReflexive(notes);
    }
  }

  /** ACTIVE and ARCHIVED split the notes: no note is in both results, and
      together they hold every note exactly as often as the input does. */
  lemma StatusPartition(notes: seq<Note>)
    ensures var active := FilterByStatus(notes, "1");
            var archived := FilterByStatus(notes, "2");
            && multiset(active) + multiset(archived) == multiset(notes)
            && |active| + |archived| == |notes|
            && multiset(active) !! multiset(archived)
  {
    DigitReads(1);
    DigitReads(2);
    assert [DigitChar(1)] == "1" && [DigitChar(2)] == "2";
    assert FilterByStatus(notes, "1") == Keep(notes, IsActive);
    assert FilterByStatus(notes, "2") == Keep(notes, IsArchived);
    KeepSplits(notes, IsActive, IsArchived);
  }

  /** A value within the range; a missing bound does not constrain. */
  predicate InRange(x: int, r: Range) {
    (r.min.None? || r.min.value <= x) && (r.max.None? || x <= r.max.value)
  }

  /** Both bounds are inclusive: a note exactly at either bound is kept. */
  lemma RangeInclusive(lo: int, hi: int)
    requires lo <= hi
    ensures InRange(lo, Range(Some(lo), Some(hi))) && InRange(hi, Range(Some(lo), Some(hi)))
    ensures !InRange(lo - 1, Range(Some(lo), Some(hi))) && !InRange(hi + 1, Range(Some(lo), Some(hi)))
  {
  }

  /** The raw `category` value names a category of the store, as `int()`
      reads the id. */
  predicate NamesCategory(st: Store, raw: Option<string>) {
    raw.Some? && ParseInt(raw.value).Some? && ParseInt(raw.value).value in st.categories
  }

  /** The category the filter form keeps for the raw value. A value that
      names no category fails the form field and is left out of the cleaned
      data, so, like an empty value, it chooses nothing. */
  function CategoryChoice(st: Store, raw: Option<string>): (r: Option<Id>)
    ensures r.Some? <==> NamesCategory(st, raw)
    ensures r.Some? ==> ParseInt(raw.value) == r && r.value in st.categories
  {
    if NamesCategory(st, raw) then ParseInt(raw.value) else None
  }

  /** Whether a note passes every given filter. */
  predicate Matches(st: Store, n: Note, p: Params) {
    && (!NamesCategory(st, p.category) || n.category == ParseInt(p.category.value))
    && (p.status.None? || p.status.value == "" ||
        ((ValueAsInt(p.status.value) == Active ==> !n.isArchived) &&
         (ValueAsInt(p.status.value) == Archived ==> n.isArchived)))
    && InRange(n.words, p.words)
    && InRange(n.uniqueWords, p.uniqueWords)
  }

  /** The category filter: the notes whose category is the chosen one;
      uncategorised notes never match. */
  function FilterByCategory(notes: seq<Note>, category: Option<Id>): (r: seq<Note>)
    ensures category.Some? ==> forall n :: n in r <==> n in notes && n.category == category
    ensures category.None? ==> r == notes
  {
    if category.None? then notes
    else
      var keep := (n: Note) => n.category == category;
      KeepCounts(notes, keep);
      Keep(notes, keep)
  }

  function FilterByWords(notes: seq<Note>, range: Range): (r: seq<Note>)
    ensures forall n :: n in r <==> n in notes && InRange(n.words, range)
  {
    var keep := (n: Note) => InRange(n.words, range);
    KeepCounts(notes, keep);
    Keep(notes, keep)
  }

  function FilterByUniqueWords(notes: seq<Note>, range: Range): (r: seq<Note>)
    ensures forall n :: n in r <==> n in notes && InRange(n.uniqueWords, range)
  {
    var keep := (n: Note) => InRange(n.uniqueWords, range);
    KeepCounts(notes, keep);
    Keep(notes, keep)
  }

  /** The filter set over the notes `notes` of the store `st`: every given
      filter applied in turn. The result keeps exactly the notes that pass
      every filter. */
  function ApplyFilters(st: Store, notes: seq<Note>, p: Params): (r: seq<Note>)
    ensures forall n :: n in r <==> n in notes && Matches(st, n, p)
  {
    var a := FilterByCategory(notes, CategoryChoice(st, p.category));
    var b := if p.status.None? || p.status.value == "" then a else FilterByStatus(a, p.status.value);
    FilterByUniqueWords(FilterByWords(b, p.words), p.uniqueWords)
  }

  lemma {:induction false} SubsequenceTransitive(a: seq<Note>, b: seq<Note>, c: seq<Note>)
    requires IsSubsequence(a, b) && IsSubsequence(b, c)
    ensures IsSubsequence(a, c)
    decreases |c|
  {
    if a != [] {
      assert b != [] && c != [];
      if b[0] == c[0] && IsSubsequence(b[1..], c[1..]) {
        if a[0] == b[0] && IsSubsequence(a[1..], b[1..]) {
          SubsequenceTransitive(a[1..], b[1..], c[1..]);
        } else {
          SubsequenceTransitive(a, b[1..], c[1..]);
        }
      } else {
        SubsequenceTransitive(a, b, c[1..]);
      }
    }
  }

  lemma FilterByCategoryIsSubsequence(notes: seq<Note>, category: Option<Id>)
    ensures IsSubsequence(FilterByCategory(notes, category), notes)
  {
    var keep := (n: Note) => n.category == category;
    if category.None? {
      SubsequenceReflexive(notes);
    } else {
      KeepIsSubsequence(notes, keep);
    }
  }

  /** The filtered list never adds or reorders notes. */
  lemma ApplyFiltersIsSubsequence(st: Store, notes: seq<Note>, p: Params)
    ensures IsSubsequence(ApplyFilters(st, notes, p), notes)
  {
    var a := FilterByCategory(notes, CategoryChoice(st, p.category));
    var b := if p.status.None? || p.status.value == "" then a else FilterByStatus(a, p.status.value);
    var c := FilterByWords(b, p.words);
    FilterByCategoryIsSubsequence(notes, CategoryChoice(st, p.category));
    if p.status.None? || p.status.value == "" {
      SubsequenceReflexive(a);
    } else {
      FilterByStatusIsSubsequence(a, p.status.value);
    }
    KeepIsSubsequence(b, (n: Note) => InRange(n.words, p.words));
    KeepIsSubsequence(c, (n: Note) => InRange(n.uniqueWords, p.uniqueWords));
    SubsequenceTransitive(b, a, notes);
    SubsequenceTransitive(c, b, notes);
    SubsequenceTransitive(ApplyFilters(st, notes, p), c, notes);
  }

  /** Keeping the notes that all pass leaves the sequence as it is. */
  lemma {:induction false} KeepAll(s: seq<Note>, p: Note -> bool)
    requires forall i :: 0 <= i < |s| ==> p(s[i])
    ensures Keep(s, p) == s
    decreases |s|
  {
    if s != [] {
      KeepAll(s[1..], p);
    }
  }

  /** A category value that names no category of the store, such as an
      unknown id or a non-integer, filters nothing: the result is the one
      without a category value. */
  lemma UnknownCategoryIgnored(st: Store, notes: seq<Note>, p: Params)
    requires !NamesCategory(st, p.category)
    ensures ApplyFilters(st, notes, p) == ApplyFilters(st, notes, p.(category := None))
  {
  }

  /** With only an unknown category in the query, every note is listed. */
  lemma UnknownCategoryKeepsEveryNote(st: Store, notes: seq<Note>, raw: string)
    requires !NamesCategory(st, Some(raw))
    ensures ApplyFilters(st, notes, Params(Some(raw), None, Range(None, None), Range(None, None))) == notes
  {
    var any := Range(None, None);
    KeepAll(notes, (n: Note) => InRange(n.words, any));
    KeepAll(notes, (n: Note) => InRange(n.uniqueWords, any));
  }
}
