/**
 Client-side sorting of the result list: the runtime reader, the sort keys,
 the Title, Year, Released and Runtime comparators exactly as written
 (including their direction), and a sort that returns a permutation ordered
 by them. The Rating comparator, which compares with `std::stof`, is not
 modelled: no record has a usable Rating key.

 `std::sort` leaves the order of equal keys unspecified; the insertion sort
 here is one admissible choice, and the contracts speak only of what every
 admissible result shares.
 */
module Sorting {
  import opened Text
  import opened MovieRecord

  /** The sort criteria. */
  datatype SortCriteria = Title | Year | Rating | Released | Runtime

  // ---------------------------------------------------------------------
  // Runtime

  const MinutesMarker: string := " min"

  /** `std::stoi` on the text before the first " min" does not overflow. */
  predicate RuntimeReadable(runtime: string) {
    match Find(runtime, MinutesMarker)
    case None => true
    case Some(k) => !Stoi(runtime[..k]).OutOfRange?
  }

  /**
   `extractRuntime`: the integer read from the text before the first " min",
   or 0 when there is no " min" or no number in front of it.
   */
  function ExtractRuntime(runtime: string): (n: int)
    requires RuntimeReadable(runtime)
    ensures !Contains(runtime, MinutesMarker) ==> n == 0
    ensures Contains(runtime, MinutesMarker) ==>
      var k := Find(runtime, MinutesMarker).value;
      && (Stoi(runtime[..k]).InvalidArgument? ==> n == 0)
      && (Stoi(runtime[..k]).Parsed? ==> n == Stoi(runtime[..k]).n)
    ensures IntMin <= n <= IntMax
  {
    match Find(runtime, MinutesMarker)
    case None => 0
    case Some(k) =>
      match Stoi(runtime[..k])
      case Parsed(v) => v
      case InvalidArgument => 0
      case OutOfRange => 0
  }

  /** In a word without a space, the first " min" of `w + " min"` is the appended one. */
  lemma MinutesMarkerAfter(w: string)
    requires forall i :: 0 <= i < |w| ==> w[i] != ' '
    ensures Find(w + MinutesMarker, MinutesMarker) == Some(|w|)
    ensures (w + MinutesMarker)[..|w|] == w
  {
    var text := w + MinutesMarker;
    forall j | 0 <= j < |w|
      ensures !OccursAt(text, MinutesMarker, j)
    {
      assert text[j] == w[j];
      if j + 4 <= |text| {
        assert text[j..j + 4][0] == text[j];
      }
    }
    assert OccursAt(text, MinutesMarker, |w|);
    assert text[..|w|] == w;
  }

  /** "<digits> min" reads as the value of the digits. */
  lemma ExtractRuntimeOfMinutes(ds: string)
    requires |ds| > 0 && AllDigits(ds) && DigitsValue(ds) <= IntMax
    ensures RuntimeReadable(ds + MinutesMarker)
    ensures ExtractRuntime(ds + MinutesMarker) == DigitsValue(ds)
  {
    MinutesMarkerAfter(ds);
    StoiOfDigits(ds);
  }

  /** A word that does not start like a number, followed by " min", reads as 0. */
  lemma ExtractRuntimeOfWord(w: string)
    requires forall i :: 0 <= i < |w| ==> w[i] != ' '
    requires |w| > 0 ==> !IsSpace(w[0]) && !IsDigit(w[0]) && w[0] != '-' && w[0] != '+'
    ensures RuntimeReadable(w + MinutesMarker)
    ensures ExtractRuntime(w + MinutesMarker) == 0
  {
    MinutesMarkerAfter(w);
    assert SkipSpace(w) == w;
    assert LeadingDigits(w) == [];
  }

  /** Text too short to hold " min", such as "N/A" or "", reads as 0. */
  lemma ExtractRuntimeOfShortText(s: string)
    requires |s| < |MinutesMarker|
    ensures RuntimeReadable(s) && ExtractRuntime(s) == 0
  {
    assert !Contains(s, MinutesMarker);
  }

  /** "142 min" is 142. */
  lemma ExtractRuntimeExample142()
    ensures RuntimeReadable("142 min") && ExtractRuntime("142 min") == 142
  {
    assert "142 min" == "142" + MinutesMarker;
    assert DigitsValue("142") == 142 by {
      assert "142"[..2] == "14" && "14"[..1] == "1" && "1"[..0] == "";
    }
    ExtractRuntimeOfMinutes("142");
  }

  /** "abc min" is 0. */
  lemma ExtractRuntimeExampleWord()
    ensures RuntimeReadable("abc min") && ExtractRuntime("abc min") == 0
  {
    assert "abc min" == "abc" + MinutesMarker;
    ExtractRuntimeOfWord("abc");
  }

  // ---------------------------------------------------------------------
  // Comparators as written

  /** The Released key: the last four characters, or "0000" when shorter. */
  function ReleasedKey(released: string): (k: string)
    ensures |k| == 4
    ensures |released| >= 4 ==> released == released[..|released| - 4] + k
    ensures |released| < 4 ==> k == "0000"
  {
    if |released| >= 4 then released[|released| - 4..] else "0000"
  }

  /** The comparator for `c` can be evaluated on `m` without an uncaught exception. */
  predicate ComparatorDefined(c: SortCriteria, m: Movie) {
    match c
    case Title => true
    case Year => !Stoi(m.year).OutOfRange?
    // The Rating comparator converts with `std::stof`, which is not modelled.
    case Rating => false
    case Released => true
    case Runtime => RuntimeReadable(m.runtime)
  }

  /**
   The comparator `sortMovies` hands `std::sort`: `a` goes before `b`.
   Title uses `<` when `ascending` is true, while Year, Released and Runtime
   use `>`; a year that does not parse makes the comparison false.
   */
  predicate Before(c: SortCriteria, ascending: bool, a: Movie, b: Movie)
    requires ComparatorDefined(c, a) && ComparatorDefined(c, b)
    ensures KeyUsable(c, a) && KeyUsable(c, b) ==>
      (Before(c, ascending, a, b) <==> Precedes(c, SourceIncreasing(c, ascending), a, b))
    ensures c == Year && !(Stoi(a.year).Parsed? && Stoi(b.year).Parsed?) ==> !Before(c, ascending, a, b)
  {
    match c
    case Title =>
      if ascending then LexLess(a.title, b.title) else LexLess(b.title, a.title)
    case Year =>
      var ya, yb := Stoi(a.year), Stoi(b.year);
      if ya.Parsed? && yb.Parsed? then (if ascending then ya.n > yb.n else ya.n < yb.n)
      else false
    // Not reached: `ComparatorDefined` is false for Rating.
    case Rating => false
    case Released =>
      var ka, kb := ReleasedKey(a.released), ReleasedKey(b.released);
      if ascending then LexLess(kb, ka) else LexLess(ka, kb)
    case Runtime =>
      var ra, rb := ExtractRuntime(a.runtime), ExtractRuntime(b.runtime);
      if ascending then ra > rb else ra < rb
  }

  // ---------------------------------------------------------------------
  // Keys

  /** A sort key: a number or a text; numbers all come before texts. */
  datatype Key = Number(n: int) | Chars(s: string)

  predicate KeyLess(a: Key, b: Key) {
    match (a, b)
    case (Number(x), Number(y)) => x < y
    case (Chars(x), Chars(y)) => LexLess(x, y)
    case (Number(_), Chars(_)) => true
    case (Chars(_), Number(_)) => false
  }

  predicate KeyLessEq(a: Key, b: Key) { a == b || KeyLess(a, b) }

  lemma KeyLessAsymmetric(a: Key, b: Key)
    requires KeyLess(a, b)
    ensures !KeyLess(b, a)
  {
    if a.Chars? && b.Chars? {
      LexLessAsymmetric(a.s, b.s);
    }
  }

  lemma KeyLessSplit(a: Key, b: Key, x: Key)
    requires KeyLess(a, b)
    ensures KeyLess(a, x) || KeyLess(x, b)
  {
    if a.Chars? && b.Chars? && x.Chars? {
      LexLessSplit(a.s, b.s, x.s);
    }
  }

  lemma KeyLessTotal(a: Key, b: Key)
    requires a != b
    ensures KeyLess(a, b) || KeyLess(b, a)
  {
    if a.Chars? && b.Chars? {
      LexLessTotal(a.s, b.s);
    }
  }

  /** The key is defined: the year parses, the runtime does not overflow, and the criterion is not Rating. */
  predicate KeyUsable(c: SortCriteria, m: Movie) {
    match c
    case Title => true
    case Year => Stoi(m.year).Parsed?
    case Rating => false
    case Released => true
    case Runtime => RuntimeReadable(m.runtime)
  }

  function SortKey(c: SortCriteria, m: Movie): Key
    requires KeyUsable(c, m)
  {
    match c
    case Title => Chars(m.title)
    case Year => Number(Stoi(m.year).n)
    case Released => Chars(ReleasedKey(m.released))
    case Runtime => Number(ExtractRuntime(m.runtime))
  }

  /** `a` goes strictly before `b` when keys run upwards (`increasing`) or downwards. */
  predicate Precedes(c: SortCriteria, increasing: bool, a: Movie, b: Movie)
    requires KeyUsable(c, a) && KeyUsable(c, b)
  {
    if increasing then KeyLess(SortKey(c, a), SortKey(c, b)) else KeyLess(SortKey(c, b), SortKey(c, a))
  }

  /** The key direction each comparator actually produces for a given `ascending`. */
  function SourceIncreasing(c: SortCriteria, ascending: bool): bool {
    if c == Title then ascending else !ascending
  }

  /** The key order is strict: irreflexive and transitive. */
  lemma KeyLessStrict(a: Key, b: Key, d: Key)
    ensures !KeyLess(a, a)
    ensures KeyLess(a, b) && KeyLess(b, d) ==> KeyLess(a, d)
  {
    if KeyLess(a, a) {
      KeyLessAsymmetric(a, a);
    }
    if KeyLess(a, b) && KeyLess(b, d) {
      KeyLessSplit(a, b, d);
      if KeyLess(d, b) {
        KeyLessAsymmetric(b, d);
      }
    }
  }

  /**
   Each comparator as written is a strict weak ordering on records with usable
   keys, as `std::sort` requires: never true of a record and itself, never
   true both ways, transitive, and records it cannot tell apart share a key.
   */
  lemma {:induction false} BeforeIsStrictWeakOrder(c: SortCriteria, ascending: bool, a: Movie, b: Movie, d: Movie)
    requires KeyUsable(c, a) && KeyUsable(c, b) && KeyUsable(c, d)
    ensures ComparatorDefined(c, a) && ComparatorDefined(c, b) && ComparatorDefined(c, d)
    ensures !Before(c, ascending, a, a)
    ensures Before(c, ascending, a, b) ==> !Before(c, ascending, b, a)
    ensures Before(c, ascending, a, b) && Before(c, ascending, b, d) ==> Before(c, ascending, a, d)
    ensures !Before(c, ascending, a, b) && !Before(c, ascending, b, a) ==> SortKey(c, a) == SortKey(c, b)
  {
    var ka, kb, kd := SortKey(c, a), SortKey(c, b), SortKey(c, d);
    KeyLessStrict(ka, kb, kd);
    KeyLessStrict(kd, kb, ka);
    if KeyLess(ka, kb) {
      KeyLessAsymmetric(ka, kb);
    }
    if KeyLess(kb, ka) {
      KeyLessAsymmetric(kb, ka);
    }
    if ka != kb {
      KeyLessTotal(ka, kb);
    }
  }

  // ---------------------------------------------------------------------
  // Sorting

  predicate Sortable(c: SortCriteria, s: seq<Movie>) {
    forall i :: 0 <= i < |s| ==> KeyUsable(c, s[i])
  }

  /** No record is preceded, in the key order, by a later one. */
  predicate OrderedBy(c: SortCriteria, increasing: bool, s: seq<Movie>)
    requires Sortable(c, s)
  {
    forall i, j :: 0 <= i < j < |s| ==> !Precedes(c, increasing, s[j], s[i])
  }

  /** No record is put before an earlier one by the comparator as written: what `std::sort` guarantees. */
  predicate SortedBy(c: SortCriteria, ascending: bool, s: seq<Movie>)
    requires Sortable(c, s)
  {
    forall i, j :: 0 <= i < j < |s| ==>
      KeyUsable(c, s[i]) && KeyUsable(c, s[j]) && !Before(c, ascending, s[j], s[i])
  }

  /** Nothing in `s` goes strictly before `y`. */
  predicate NonePrecede(c: SortCriteria, increasing: bool, s: seq<Movie>, y: Movie)
    requires Sortable(c, s) && KeyUsable(c, y)
  {
    forall m :: m in s ==> !Precedes(c, increasing, m, y)
  }

  /** A sequence with a first record is sortable exactly when that record and the rest are. */
  lemma SortableSplit(c: SortCriteria, h: Movie, t: seq<Movie>)
    ensures Sortable(c, [h] + t) <==> KeyUsable(c, h) && Sortable(c, t)
  {
    var s := [h] + t;
    assert s[0] == h;
    assert forall i :: 0 <= i < |t| ==> s[i + 1] == t[i];
    assert forall i :: 1 <= i < |s| ==> s[i] == t[i - 1];
  }

  /** Inserts `x` before the first record it does not follow. */
  function Insert(c: SortCriteria, increasing: bool, x: Movie, s: seq<Movie>): (r: seq<Movie>)
    requires KeyUsable(c, x) && Sortable(c, s)
    ensures multiset(r) == multiset(s) + multiset{x}
    ensures Sortable(c, r)
    decreases |s|
  {
    if |s| == 0 then [x]
    else
      assert s == [s[0]] + s[1..];
      SortableSplit(c, s[0], s[1..]);
      if Precedes(c, increasing, s[0], x) then
        var rest := Insert(c, increasing, x, s[1..]);
        SortableSplit(c, s[0], rest);
        [s[0]] + rest
      else
        SortableSplit(c, x, s);
        [x] + s
  }

  function InsertionSort(c: SortCriteria, increasing: bool, s: seq<Movie>): (r: seq<Movie>)
    requires Sortable(c, s)
    ensures multiset(r) == multiset(s)
    ensures Sortable(c, r)
    decreases |s|
  {
    if |s| == 0 then []
    else
      assert s == [s[0]] + s[1..];
      assert s[0] in s;
      Insert(c, increasing, s[0], InsertionSort(c, increasing, s[1..]))
  }

  lemma OrderedCons(c: SortCriteria, increasing: bool, h: Movie, t: seq<Movie>)
    requires KeyUsable(c, h) && Sortable(c, t)
    ensures Sortable(c, [h] + t)
    ensures OrderedBy(c, increasing, [h] + t) <==> NonePrecede(c, increasing, t, h) && OrderedBy(c, increasing, t)
  {
    var s := [h] + t;
    SortableSplit(c, h, t);
    if OrderedBy(c, increasing, s) {
      forall m | m in t
        ensures !Precedes(c, increasing, m, h)
      {
        var k :| 0 <= k < |t| && t[k] == m;
        assert s[0] == h && s[k + 1] == m;
        assert !Precedes(c, increasing, s[k + 1], s[0]);
      }
      forall i, j | 0 <= i < j < |t|
        ensures !Precedes(c, increasing, t[j], t[i])
      {
        assert s[i + 1] == t[i] && s[j + 1] == t[j];
      }
    }
    if NonePrecede(c, increasing, t, h) && OrderedBy(c, increasing, t) {
      forall i, j | 0 <= i < j < |s|
        ensures !Precedes(c, increasing, s[j], s[i])
      {
        if i > 0 {
          assert s[i] == t[i - 1] && s[j] == t[j - 1];
        } else {
          assert s[j] in t;
        }
      }
    }
  }

  lemma {:induction false} InsertOrdered(c: SortCriteria, increasing: bool, x: Movie, s: seq<Movie>)
    requires KeyUsable(c, x) && Sortable(c, s) && OrderedBy(c, increasing, s)
    ensures OrderedBy(c, increasing, Insert(c, increasing, x, s))
    decreases |s|
  {
    if |s| > 0 {
      var h, t := s[0], s[1..];
      assert s == [h] + t;
      OrderedCons(c, increasing, h, t);
      if Precedes(c, increasing, h, x) {
        var r := Insert(c, increasing, x, t);
        InsertOrdered(c, increasing, x, t);
        assert NonePrecede(c, increasing, t, h);
        forall m | m in r
          ensures !Precedes(c, increasing, m, h)
        {
          assert m in multiset(r);
          assert multiset(r) == multiset(t) + multiset{x};
          if m == x {
            if increasing {
              KeyLessAsymmetric(SortKey(c, h), SortKey(c, x));
            } else {
              KeyLessAsymmetric(SortKey(c, x), SortKey(c, h));
            }
          } else {
            assert m in multiset(t);
            assert m in t;
          }
        }
        OrderedCons(c, increasing, h, r);
      } else {
        forall m | m in s
          ensures !Precedes(c, increasing, m, x)
        {
          if m != h && Precedes(c, increasing, m, x) {
            assert m in t;
            var km, kh, kx := SortKey(c, m), SortKey(c, h), SortKey(c, x);
            if increasing {
              KeyLessSplit(km, kx, kh);
            } else {
              KeyLessSplit(kx, km, kh);
            }
            assert false;
          }
        }
        OrderedCons(c, increasing, x, s);
      }
    }
  }

  lemma {:induction false} InsertionSortOrdered(c: SortCriteria, increasing: bool, s: seq<Movie>)
    requires Sortable(c, s)
    ensures OrderedBy(c, increasing, InsertionSort(c, increasing, s))
    decreases |s|
  {
    if |s| > 0 {
      assert s == [s[0]] + s[1..];
      SortableSplit(c, s[0], s[1..]);
      var t := InsertionSort(c, increasing, s[1..]);
      assert InsertionSort(c, increasing, s) == Insert(c, increasing, s[0], t);
      InsertionSortOrdered(c, increasing, s[1..]);
      InsertOrdered(c, increasing, s[0], t);
    }
  }

  /** Ordered by the key order in the source direction means sorted by the comparator as written. */
  lemma OrderedIsSorted(c: SortCriteria, ascending: bool, s: seq<Movie>)
    requires Sortable(c, s) && OrderedBy(c, SourceIncreasing(c, ascending), s)
    ensures SortedBy(c, ascending, s)
  {
    forall i, j | 0 <= i < j < |s|
      ensures KeyUsable(c, s[i]) && KeyUsable(c, s[j]) && !Before(c, ascending, s[j], s[i])
    {
      assert ComparatorDefined(c, s[j]) && ComparatorDefined(c, s[i]);
    }
  }

  /**
   `sortMovies`: the list reordered by the selected criterion and direction.
   The result is a permutation that the comparator as written never finds
   out of order.
   */
  function SortMovies(movies: seq<Movie>, c: SortCriteria, ascending: bool): (r: seq<Movie>)
    requires Sortable(c, movies)
    ensures multiset(r) == multiset(movies)
    ensures Sortable(c, r) && SortedBy(c, ascending, r)
  {
    var r := InsertionSort(c, SourceIncreasing(c, ascending), movies);
    InsertionSortOrdered(c, SourceIncreasing(c, ascending), movies);
    OrderedIsSorted(c, ascending, r);
    r
  }

  /**
   The direction each criterion produces: with `ascending` true titles come
   out non-decreasing, but years, release keys and runtimes come out
   non-increasing; with `ascending` false it is the other way round.
   */
  lemma SortedDirection(c: SortCriteria, ascending: bool, s: seq<Movie>)
    requires Sortable(c, s) && SortedBy(c, ascending, s)
    ensures c == Title ==> forall i, j :: 0 <= i < j < |s| ==>
      if ascending then LexLessEq(s[i].title, s[j].title) else LexLessEq(s[j].title, s[i].title)
    ensures c == Year ==> forall i, j :: 0 <= i < j < |s| ==>
      if ascending then Stoi(s[i].year).n >= Stoi(s[j].year).n else Stoi(s[i].year).n <= Stoi(s[j].year).n
    ensures c == Released ==> forall i, j :: 0 <= i < j < |s| ==>
      var ki, kj := ReleasedKey(s[i].released), ReleasedKey(s[j].released);
      if ascending then LexLessEq(kj, ki) else LexLessEq(ki, kj)
    ensures c == Runtime ==> forall i, j :: 0 <= i < j < |s| ==>
      if ascending then ExtractRuntime(s[i].runtime) >= ExtractRuntime(s[j].runtime)
      else ExtractRuntime(s[i].runtime) <= ExtractRuntime(s[j].runtime)
  {
    forall i, j | 0 <= i < j < |s|
      ensures KeyLessEq(SortKey(c, s[i]), SortKey(c, s[j])) || !SourceIncreasing(c, ascending)
      ensures KeyLessEq(SortKey(c, s[j]), SortKey(c, s[i])) || SourceIncreasing(c, ascending)
    {
      assert ComparatorDefined(c, s[j]) && ComparatorDefined(c, s[i]);
      if SortKey(c, s[i]) != SortKey(c, s[j]) {
        KeyLessTotal(SortKey(c, s[i]), SortKey(c, s[j]));
      }
    }
  }

  // ---------------------------------------------------------------------
  // Direction of the numeric and date criteria

  /**
   With `ascending` true, two records with years ya < yb come out with the
   later year first: the Year comparator as written sorts downwards.
   */
  lemma YearAscendingAsWritten(a: Movie, b: Movie)
    ensures Stoi(a.year).Parsed? && Stoi(b.year).Parsed? && Stoi(a.year).n < Stoi(b.year).n ==>
      Sortable(Year, [a, b]) && SortMovies([a, b], Year, true) == [b, a]
  {
    if Stoi(a.year).Parsed? && Stoi(b.year).Parsed? && Stoi(a.year).n < Stoi(b.year).n {
      assert Sortable(Year, [a, b]);
      assert Before(Year, true, b, a);
      var r := SortMovies([a, b], Year, true);
      assert multiset([a, b]) == multiset{a, b};
      TwoRecordPermutation(r, a, b);
      if r == [a, b] {
        assert false;
      }
    }
  }

  /** A rearrangement of two records is one of the two orders. */
  lemma TwoRecordPermutation(r: seq<Movie>, a: Movie, b: Movie)
    requires multiset(r) == multiset{a, b}
    ensures r == [a, b] || r == [b, a]
  {
    assert |r| == 2 by {
      assert |multiset(r)| == 2;
    }
    assert r == [r[0], r[1]];
    assert r[0] in multiset(r) && r[1] in multiset(r);
    if r[0] == a {
      assert multiset{r[1]} == multiset(r) - multiset{a};
      assert r[1] == b by {
        assert r[1] in multiset{b};
      }
    } else {
      assert r[0] == b;
      assert multiset{r[1]} == multiset(r) - multiset{b};
      assert r[1] == a by {
        assert r[1] in multiset{a};
      }
    }
  }

  /** "1999" and "2001" read as 1999 and 2001. */
  lemma YearsParse()
    ensures Stoi("1999") == Parsed(1999) && Stoi("2001") == Parsed(2001)
  {
    assert DigitsValue("1999") == 1999 by {
      assert "1999"[..3] == "199" && "199"[..2] == "19" && "19"[..1] == "1" && "1"[..0] == "";
    }
    assert DigitsValue("2001") == 2001 by {
      assert "2001"[..3] == "200" && "200"[..2] == "20" && "20"[..1] == "2" && "2"[..0] == "";
    }
    StoiOfDigits("1999");
    StoiOfDigits("2001");
  }

  /** The concrete case: sorting a 1999 film and a 2001 film "ascending" by year puts 2001 first. */
  lemma YearAscendingCounterexample()
    ensures var older, newer := Blank.(year := "1999"), Blank.(year := "2001");
      && Sortable(Year, [older, newer])
      && SortMovies([older, newer], Year, true) == [newer, older]
  {
    YearsParse();
    YearAscendingAsWritten(Blank.(year := "1999"), Blank.(year := "2001"));
  }

  /**
   The sort as the `ascending` flag describes it: keys non-decreasing when
   `ascending` is true and non-increasing otherwise, for every criterion.
   */
  function SortMoviesIntended(movies: seq<Movie>, c: SortCriteria, ascending: bool): (r: seq<Movie>)
    requires Sortable(c, movies)
    ensures multiset(r) == multiset(movies)
    ensures Sortable(c, r) && OrderedBy(c, ascending, r)
    ensures forall i, j :: 0 <= i < j < |r| ==>
      if ascending then KeyLessEq(SortKey(c, r[i]), SortKey(c, r[j]))
      else KeyLessEq(SortKey(c, r[j]), SortKey(c, r[i]))
  {
    var r := InsertionSort(c, ascending, movies);
    InsertionSortOrdered(c, ascending, movies);
    OrderedKeys(c, ascending, r);
    r
  }

  /** Ordered by `Precedes` means the keys run monotonically in that direction. */
  lemma OrderedKeys(c: SortCriteria, increasing: bool, s: seq<Movie>)
    requires Sortable(c, s) && OrderedBy(c, increasing, s)
    ensures forall i, j :: 0 <= i < j < |s| ==>
      if increasing then KeyLessEq(SortKey(c, s[i]), SortKey(c, s[j]))
      else KeyLessEq(SortKey(c, s[j]), SortKey(c, s[i]))
  {
    forall i, j | 0 <= i < j < |s|
      ensures
        if increasing then KeyLessEq(SortKey(c, s[i]), SortKey(c, s[j]))
        else KeyLessEq(SortKey(c, s[j]), SortKey(c, s[i]))
    {
      assert !Precedes(c, increasing, s[j], s[i]);
      if SortKey(c, s[i]) != SortKey(c, s[j]) {
        KeyLessTotal(SortKey(c, s[i]), SortKey(c, s[j]));
      }
    }
  }

  /** The corrected sort agrees with the source for Title and reverses it for the other criteria. */
  lemma IntendedMatchesTitleOnly(c: SortCriteria, ascending: bool, s: seq<Movie>)
    requires Sortable(c, s)
    ensures c == Title ==> SortMoviesIntended(s, c, ascending) == SortMovies(s, c, ascending)
    ensures c != Title ==> SortMoviesIntended(s, c, ascending) == SortMovies(s, c, !ascending)
  {
  }
}
