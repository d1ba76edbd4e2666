/**
 * The engine of the `sort` utility: a comparator driven by the command-line
 * flags (-k column, -M month, -h human-readable size, -n numeric), Go's stable
 * sort, the in-place removal of equal neighbours (-u), the in-place reversal
 * (-r) and the sortedness check (-c).
 *
 * The flags are a configuration record instead of package globals. The two
 * floating-point comparators (-n and -h) are given as functions of the
 * configuration: the model says only where they are consulted.
 */
module SortLines {
  import opened Wrappers
  import Text
  import Sorting

  /** The flags that decide how two lines compare. */
  datatype KeyOptions = KeyOptions(
    column: int,          // -k: 1-based column; 0 (or less) compares whole lines
    number: bool,         // -n
    month: bool,          // -M
    sizeNumber: bool,     // -h
    numericCmp: (string, string) -> int,
    humanCmp: (string, string) -> int)

  /** All the flags of one run: how lines compare, and what happens after sorting. */
  datatype SortConfig = SortConfig(
    keys: KeyOptions,
    reverse: bool,        // -r
    unique: bool)         // -u

  // ---------------------------------------------------------------- keys

  /** The col-th tab-separated field (1-based), or the empty string when the line has fewer fields. */
  function GetColumn(s: string, col: int): (field: string)
    requires col >= 1
    ensures '\t' !in field
  {
    var cols := Text.Split(s, "\t");
    Text.SplitRunePieces(s, '\t');
    if col <= |cols| then cols[col - 1] else ""
  }

  /** The column is read back from a line assembled by joining tab-free fields with tabs. */
  lemma GetColumnOfJoin(fields: seq<string>, col: int)
    requires fields != [] && forall f :: f in fields ==> '\t' !in f
    requires col >= 1
    ensures GetColumn(Text.Join(fields, "\t"), col) == if col <= |fields| then fields[col - 1] else ""
  {
    Text.SplitJoinRune(fields, '\t');
  }

  /** A line without a tab is its own first column and has no other column. */
  lemma GetColumnNoTab(s: string, col: int)
    requires '\t' !in s && col >= 1
    ensures GetColumn(s, col) == if col == 1 then s else ""
  {
    Text.ContainsRune(s, '\t');
    Text.SplitWithoutSep(s, "\t");
  }

  /** What the comparator looks at: the -k column when one is given, else the whole line. */
  function Key(opts: KeyOptions, line: string): string
  {
    if opts.column > 0 then GetColumn(line, opts.column) else line
  }

  // --------------------------------------------------------------- months

  const MonthNames: seq<string> :=
    ["Jan", "Feb", "Mar", "Apr", "May", "Jun", "Jul", "Aug", "Sep", "Oct", "Nov", "Dec"]

  function LowerRune(c: char): char
  {
    if 'A' <= c <= 'Z' then (c as int + 32) as char else c
  }

  function UpperRune(c: char): char
  {
    if 'a' <= c <= 'z' then (c as int - 32) as char else c
  }

  /** strings.ToLower, for the ASCII letters. */
  function Lower(s: string): (t: string)
    ensures |t| == |s|
  {
    if s == [] then [] else [LowerRune(s[0])] + Lower(s[1..])
  }

  /**
   * The word boundaries of strings.Title: ASCII letters, digits and '_' join
   * words, other ASCII runes separate them, and beyond ASCII only spaces do
   * (letters and digits join, and so does everything else).
   */
  predicate IsSeparator(c: char)
  {
    if c <= '\U{7F}' then !(('0' <= c <= '9') || ('a' <= c <= 'z') || ('A' <= c <= 'Z') || c == '_')
    else Text.IsSpace(c)
  }

  /** strings.Title: the first letter of every word in upper case. */
  function Title(s: string): (t: string)
    ensures |t| == |s|
  {
    TitleAfter(s, true)
  }

  function TitleAfter(s: string, atBoundary: bool): (t: string)
    ensures |t| == |s|
  {
    if s == [] then []
    else [if atBoundary then UpperRune(s[0]) else s[0]] + TitleAfter(s[1..], IsSeparator(s[0]))
  }

  /** The first three runes, lower-cased and then title-cased, as compareMonth normalises them. */
  function MonthPrefix(s: string): (t: string)
    requires |s| >= 3
    ensures |t| == 3
  {
    Title(Lower(s[..3]))
  }

  /** The calendar number of a month abbreviation. */
  function MonthNumber(t: string): (m: Option<nat>)
    ensures m.Some? ==> 1 <= m.value <= 12 && MonthNames[m.value - 1] == t
    ensures m.None? ==> t !in MonthNames
  {
    MonthFrom(t, 0)
  }

  function MonthFrom(t: string, k: nat): (m: Option<nat>)
    requires k <= 12
    ensures m.Some? ==> k < m.value <= 12 && MonthNames[m.value - 1] == t
    ensures m.None? ==> forall i :: k <= i < 12 ==> MonthNames[i] != t
    decreases 12 - k
  {
    if k == 12 then None else if MonthNames[k] == t then Some(k + 1) else MonthFrom(t, k + 1)
  }

  /**
   * compareMonth: two recognised month prefixes compare by calendar order;
   * otherwise the normalised prefixes compare as strings. Slicing a string
   * shorter than three runes panics in the source, hence the precondition.
   */
  function CompareMonth(a: string, b: string): (c: int)
    requires |a| >= 3 && |b| >= 3
    ensures c == -1 || c == 0 || c == 1
  {
    var x := MonthPrefix(a);
    var y := MonthPrefix(b);
    match (MonthNumber(x), MonthNumber(y))
    case (Some(ma), Some(mb)) => if ma < mb then -1 else if ma > mb then 1 else 0
    case _ => Text.Compare(x, y)
  }

  /** Title-casing after lower-casing changes only what lower-casing folds back again. */
  lemma {:induction false} LowerTitleAfter(x: string, atBoundary: bool)
    ensures Lower(TitleAfter(Lower(x), atBoundary)) == Lower(x)
    decreases |x|
  {
    if x != [] {
      LowerTitleAfter(x[1..], IsSeparator(LowerRune(x[0])));
      assert Lower(x)[1..] == Lower(x[1..]);
    }
  }

  /** A capital letter followed by two small ones is left as it is by lower- then title-casing. */
  lemma TitleLowerCapitalised(m: string)
    requires |m| == 3 && 'A' <= m[0] <= 'Z' && 'a' <= m[1] <= 'z' && 'a' <= m[2] <= 'z'
    ensures Title(Lower(m)) == m
  {
    var l := Lower(m);
    assert l == [LowerRune(m[0])] + Lower(m[1..]);
    assert Lower(m[1..]) == [m[1]] + Lower(m[2..]);
    assert Lower(m[2..]) == [m[2]];
    var t2 := TitleAfter(l[2..], false);
    assert t2 == [m[2]];
    assert TitleAfter(l[1..], false) == [m[1]] + t2;
    assert Title(l) == [m[0]] + TitleAfter(l[1..], false);
  }

  lemma MonthNameShape(i: nat)
    requires i < 12
    ensures var m := MonthNames[i]; |m| == 3 && 'A' <= m[0] <= 'Z' && 'a' <= m[1] <= 'z' && 'a' <= m[2] <= 'z'
  {
  }

  /** A prefix that spells month i, in any mix of cases, is recognised as month i. */
  lemma MonthPrefixOfMonth(a: string, i: nat)
    requires |a| >= 3 && i < 12 && Lower(a[..3]) == Lower(MonthNames[i])
    ensures MonthPrefix(a) == MonthNames[i]
    ensures MonthNumber(MonthPrefix(a)) == Some(i + 1)
  {
    MonthNameShape(i);
    TitleLowerCapitalised(MonthNames[i]);
    MonthNamesDistinct();
  }

  /** A prefix is recognised exactly when it spells a month abbreviation in any mix of cases. */
  lemma MonthRecognised(a: string)
    requires |a| >= 3
    ensures MonthNumber(MonthPrefix(a)).Some?
        <==> exists i :: 0 <= i < 12 && Lower(a[..3]) == Lower(MonthNames[i])
  {
    var m := MonthNumber(MonthPrefix(a));
    if m.Some? {
      LowerTitleAfter(a[..3], true);
      assert Lower(a[..3]) == Lower(MonthNames[m.value - 1]);
    } else if i :| 0 <= i < 12 && Lower(a[..3]) == Lower(MonthNames[i]) {
      MonthPrefixOfMonth(a, i);
      assert false;
    }
  }

  /** Recognised prefixes compare by calendar order, whatever their case. */
  lemma MonthOrder(a: string, b: string, i: nat, j: nat)
    requires |a| >= 3 && |b| >= 3 && i < 12 && j < 12
    requires Lower(a[..3]) == Lower(MonthNames[i]) && Lower(b[..3]) == Lower(MonthNames[j])
    ensures CompareMonth(a, b) < 0 <==> i < j
    ensures CompareMonth(a, b) == 0 <==> i == j
  {
    MonthPrefixOfMonth(a, i);
    MonthPrefixOfMonth(b, j);
  }

  lemma MonthNamesDistinct()
    ensures forall i, j :: 0 <= i < 12 && 0 <= j < 12 && MonthNames[i] == MonthNames[j] ==> i == j
  {
  }

  /** When either normalised prefix names no month, compareMonth falls back to string order on the prefixes. */
  lemma MonthFallback(a: string, b: string)
    requires |a| >= 3 && |b| >= 3
    requires MonthNumber(MonthPrefix(a)).None? || MonthNumber(MonthPrefix(b)).None?
    ensures CompareMonth(a, b) == Text.Compare(MonthPrefix(a), MonthPrefix(b))
  {
  }

  /** Only the first three runes of each key matter to compareMonth. */
  lemma MonthPrefixOnly(a: string, b: string, a2: string, b2: string)
    requires |a| >= 3 && |b| >= 3 && |a2| >= 3 && |b2| >= 3
    requires a[..3] == a2[..3] && b[..3] == b2[..3]
    ensures CompareMonth(a, b) == CompareMonth(a2, b2)
  {
  }

  /** "Foo" normalises to itself and names no month. */
  lemma NotAMonth(foo: string)
    requires foo == "Foo"
    ensures MonthPrefix(foo) == foo && MonthNumber(foo) == None
  {
    assert foo[..3] == foo;
    TitleLowerCapitalised(foo);
    assert forall i :: 0 <= i < 12 ==> MonthNames[i] != foo;
  }

  /**
   * As written, compareMonth is not transitive once recognised and
   * unrecognised prefixes meet: Mar < Dec by the calendar, Dec < Foo and
   * Foo < Mar as strings.
   */
  lemma MonthCycle()
    ensures CompareMonth("Mar", "Dec") < 0 && CompareMonth("Dec", "Foo") < 0 && CompareMonth("Foo", "Mar") < 0
    ensures CompareMonth("Mar", "Foo") > 0
  {
    var mar, dec, foo := "Mar", "Dec", "Foo";
    assert mar[..3] == mar && MonthNames[2] == mar;
    assert dec[..3] == dec && MonthNames[11] == dec;
    MonthPrefixOfMonth(mar, 2);
    MonthPrefixOfMonth(dec, 11);
    NotAMonth(foo);
    assert Text.Compare(dec, foo) == -1;
    assert Text.Compare(foo, mar) == -1;
    assert Text.Compare(mar, foo) == 1;
  }

  /** The rank a month prefix sorts by when corrected: unrecognised prefixes (0) before January (1). */
  function MonthRank(a: string): (r: nat)
    requires |a| >= 3
    ensures r <= 12
    ensures r > 0 <==> MonthNumber(MonthPrefix(a)).Some?
  {
    match MonthNumber(MonthPrefix(a))
    case Some(m) => m
    case None => 0
  }

  /**
   * Corrected month comparison: by rank first, so that unrecognised prefixes
   * sort before every month, and only then by the normalised prefix.
   */
  function CompareMonthRanked(a: string, b: string): (c: int)
    requires |a| >= 3 && |b| >= 3
    ensures c == -1 || c == 0 || c == 1
  {
    var ra := MonthRank(a);
    var rb := MonthRank(b);
    if ra < rb then -1 else if ra > rb then 1 else Text.Compare(MonthPrefix(a), MonthPrefix(b))
  }

  /** The corrected comparison agrees with compareMonth unless exactly one side is a month. */
  lemma RankedAgrees(a: string, b: string)
    requires |a| >= 3 && |b| >= 3
    requires (MonthRank(a) == 0) == (MonthRank(b) == 0)
    ensures CompareMonthRanked(a, b) == CompareMonth(a, b)
  {
    if MonthRank(a) > 0 && MonthRank(a) == MonthRank(b) {
      assert MonthPrefix(a) == MonthPrefix(b);
    }
  }

  lemma RankedAntisymmetric(a: string, b: string)
    requires |a| >= 3 && |b| >= 3
    ensures CompareMonthRanked(b, a) == -CompareMonthRanked(a, b)
  {
    Text.CompareAntisymmetric(MonthPrefix(a), MonthPrefix(b));
  }

  lemma RankedTransitive(a: string, b: string, c: string)
    requires |a| >= 3 && |b| >= 3 && |c| >= 3
    requires CompareMonthRanked(a, b) <= 0 && CompareMonthRanked(b, c) <= 0
    ensures CompareMonthRanked(a, c) <= 0
  {
    if MonthRank(a) == MonthRank(b) == MonthRank(c) {
      Text.CompareTransitive(MonthPrefix(a), MonthPrefix(b), MonthPrefix(c));
    }
  }


  // ---------------------------------------------------------- comparator

  /** The source panics in compareMonth when a compared key is shorter than three runes. */
  predicate Comparable(opts: KeyOptions, line: string)
  {
    !opts.month || |Key(opts, line)| >= 3
  }

  predicate Ready(opts: KeyOptions, lines: seq<string>)
  {
    forall x :: x in lines ==> Comparable(opts, x)
  }

  /** Lines are compared only when there are at least two of them. */
  predicate CanSort(opts: KeyOptions, lines: seq<string>)
  {
    |lines| <= 1 || Ready(opts, lines)
  }

  /** compareStrings: the first mode flag set among -M, -h, -n decides; with none, plain string order. */
  function CompareStrings(opts: KeyOptions, a: string, b: string): int
    requires Comparable(opts, a) && Comparable(opts, b)
  {
    var x := Key(opts, a);
    var y := Key(opts, b);
    if opts.month then CompareMonth(x, y)
    else if opts.sizeNumber then opts.humanCmp(x, y)
    else if opts.number then opts.numericCmp(x, y)
    else Text.Compare(x, y)
  }

  /**
   * compareStrings as the total comparator the sort is given. The value 0 for
   * a line that is not comparable is never consulted: every entry point below
   * requires CanSort, and with two or more lines every line is compared.
   */
  function Comparator(opts: KeyOptions): (string, string) -> int
  {
    (a: string, b: string) => CompareLines(opts, a, b)
  }

  function CompareLines(opts: KeyOptions, a: string, b: string): int
  {
    if Comparable(opts, a) && Comparable(opts, b) then CompareStrings(opts, a, b) else 0
  }

  /** With none of -M, -h, -n the comparator is plain string order on the keys, a weak order. */
  lemma PlainIsWeakOrder(opts: KeyOptions, lines: seq<string>)
    requires !opts.month && !opts.sizeNumber && !opts.number
    ensures Sorting.WeakOrder(Comparator(opts), lines)
  {
    var cmp := Comparator(opts);
    forall a, b | a in lines && b in lines
      ensures cmp(a, b) < 0 <==> cmp(b, a) > 0
    {
      assert cmp(a, b) == Text.Compare(Key(opts, a), Key(opts, b));
      assert cmp(b, a) == Text.Compare(Key(opts, b), Key(opts, a));
      Text.CompareAntisymmetric(Key(opts, a), Key(opts, b));
    }
    forall a, b, c | a in lines && b in lines && c in lines
      ensures Sorting.Chain(cmp, a, b, c)
    {
      assert cmp(a, b) == Text.Compare(Key(opts, a), Key(opts, b));
      assert cmp(b, c) == Text.Compare(Key(opts, b), Key(opts, c));
      assert cmp(a, c) == Text.Compare(Key(opts, a), Key(opts, c));
      if cmp(a, b) <= 0 && cmp(b, c) <= 0 {
        Text.CompareTransitive(Key(opts, a), Key(opts, b), Key(opts, c));
      }
    }
  }

  // ----------------------------------------------------------- sortStrings

  /** sortStrings: stable sort, then -u removes equal neighbours, then -r reverses what is left. */
  function SortResult(cfg: SortConfig, s: seq<string>): seq<string>
  {
    var cmp := Comparator(cfg.keys);
    var sorted := Sorting.StableSort(cmp, s);
    var kept := if cfg.unique then Sorting.Dedup(cmp, sorted) else sorted;
    if cfg.reverse then Sorting.Reverse(kept) else kept
  }

  /**
   * Without -u and -r the result is a permutation of the input, sorted, and
   * stable: lines that compare equal keep their input order. It is the only
   * such arrangement, so it is what any stable sort returns.
   */
  lemma SortIsStableSort(cfg: SortConfig, s: seq<string>)
    requires !cfg.unique && !cfg.reverse && Sorting.WeakOrder(Comparator(cfg.keys), s)
    ensures multiset(SortResult(cfg, s)) == multiset(s)
    ensures Sorting.Sorted(Comparator(cfg.keys), SortResult(cfg, s))
    ensures forall y :: y in s ==>
      Sorting.EqualRun(Comparator(cfg.keys), SortResult(cfg, s), y) == Sorting.EqualRun(Comparator(cfg.keys), s, y)
  {
    var cmp := Comparator(cfg.keys);
    Sorting.SortSorted(cmp, s);
    assert Sorting.Within(s, s);
    forall y | y in s
      ensures Sorting.EqualRun(cmp, Sorting.StableSort(cmp, s), y) == Sorting.EqualRun(cmp, s, y)
    {
      Sorting.SortStable(cmp, s, s, y);
    }
  }

  /**
   * With -u and without -r, exactly the first line of every run of sorted
   * lines that compare equal survives; equality is that of the compared key.
   */
  lemma UniqueKeepsFirstOfRuns(cfg: SortConfig, s: seq<string>)
    requires cfg.unique && !cfg.reverse && Sorting.WeakOrder(Comparator(cfg.keys), s)
    ensures SortResult(cfg, s) == Sorting.FirstOfRuns(Comparator(cfg.keys), Sorting.StableSort(Comparator(cfg.keys), s))
  {
    var cmp := Comparator(cfg.keys);
    var sorted := Sorting.StableSort(cmp, s);
    assert Sorting.Within(sorted, s) by {
      assert forall x :: x in sorted ==> x in multiset(s);
    }
    Sorting.WeakOrderWithin(cmp, s, sorted);
    Sorting.DedupFirstOfRuns(cmp, sorted);
  }

  /**
   * -r reverses exactly the list -u left, so removing duplicates comes before
   * reversing; under a weak order the result is sorted in descending order,
   * and without -u it still holds every line.
   */
  lemma ReverseIsDescending(cfg: SortConfig, s: seq<string>)
    requires cfg.reverse && Sorting.WeakOrder(Comparator(cfg.keys), s)
    ensures SortResult(cfg, s) == Sorting.Reverse(SortResult(cfg.(reverse := false), s))
    ensures var r := SortResult(cfg, s);
      forall i, j :: 0 <= i < j < |r| ==> Comparator(cfg.keys)(r[j], r[i]) <= 0
    ensures !cfg.unique ==> multiset(SortResult(cfg, s)) == multiset(s)
  {
    var cmp := Comparator(cfg.keys);
    var sorted := Sorting.StableSort(cmp, s);
    Sorting.SortSorted(cmp, s);
    var kept := if cfg.unique then Sorting.Dedup(cmp, sorted) else sorted;
    if cfg.unique {
      Sorting.DedupSorted(cmp, sorted);
    }
    Sorting.ReverseSorted(cmp, kept);
    Sorting.ReverseMultiset(kept);
  }

  /** The check -c accepts the output of the plain sort whenever the comparator is a weak order. */
  lemma SortedOutputPassesCheck(cfg: SortConfig, s: seq<string>)
    requires !cfg.unique && !cfg.reverse && Sorting.WeakOrder(Comparator(cfg.keys), s)
    ensures Sorting.AdjacentSorted(Comparator(cfg.keys), SortResult(cfg, s))
  {
    var cmp := Comparator(cfg.keys);
    var sorted := Sorting.StableSort(cmp, s);
    Sorting.SortSorted(cmp, s);
    assert Sorting.Within(sorted, s) by {
      assert forall x :: x in sorted ==> x in multiset(s);
    }
    Sorting.WeakOrderWithin(cmp, s, sorted);
    Sorting.AdjacentSortedIsSorted(cmp, sorted);
  }

  /** Under -M on whole lines, Mar, Dec and Foo compare in a cycle. */
  lemma MonthLinesCycle(opts: KeyOptions, mar: string, dec: string, foo: string)
    requires opts.month && opts.column <= 0
    requires mar == "Mar" && dec == "Dec" && foo == "Foo"
    ensures Comparator(opts)(mar, dec) < 0 && Comparator(opts)(dec, foo) < 0 && Comparator(opts)(foo, mar) < 0
    ensures Comparator(opts)(mar, foo) > 0
  {
    MonthCycle();
    MonthComparator(opts, mar, dec);
    MonthComparator(opts, dec, foo);
    MonthComparator(opts, foo, mar);
    MonthComparator(opts, mar, foo);
  }

  /** Under -M without -k two keys of three runes or more compare by compareMonth. */
  lemma MonthComparator(opts: KeyOptions, a: string, b: string)
    requires opts.month && opts.column <= 0 && |a| >= 3 && |b| >= 3
    ensures Comparator(opts)(a, b) == CompareMonth(a, b)
  {
    assert Key(opts, a) == a && Key(opts, b) == b;
  }

  /**
   * As written, -M mixes calendar order and string order into a cycle, so the
   * comparator is not a weak order and the check -c passes lines whose first
   * compares greater than their last.
   */
  lemma MonthModeCycles(opts: KeyOptions, lines: seq<string>)
    requires opts.month && opts.column <= 0
    requires lines == ["Mar", "Dec", "Foo"]
    ensures !Sorting.WeakOrder(Comparator(opts), lines)
    ensures Sorting.AdjacentSorted(Comparator(opts), lines)
    ensures Comparator(opts)(lines[0], lines[2]) > 0
  {
    var mar, dec, foo := lines[0], lines[1], lines[2];
    MonthLinesCycle(opts, mar, dec, foo);
    Sorting.CycleBreaksWeakOrder(Comparator(opts), lines);
  }

  /** The corrected month comparison is a weak order on lines of three runes or more. */
  lemma RankedIsWeakOrder(lines: seq<string>)
    requires forall x :: x in lines ==> |x| >= 3
    ensures Sorting.WeakOrder((a: string, b: string) => if |a| >= 3 && |b| >= 3 then CompareMonthRanked(a, b) else 0, lines)
  {
    var cmp := (a: string, b: string) => if |a| >= 3 && |b| >= 3 then CompareMonthRanked(a, b) else 0;
    forall a, b | a in lines && b in lines
      ensures cmp(a, b) < 0 <==> cmp(b, a) > 0
    {
      RankedAntisymmetric(a, b);
    }
    forall a, b, c | a in lines && b in lines && c in lines
      ensures Sorting.Chain(cmp, a, b, c)
    {
      if cmp(a, b) <= 0 && cmp(b, c) <= 0 {
        RankedTransitive(a, b, c);
      }
    }
  }

  // --------------------------------------------------------------- methods

  /**
   * The -c scan compares lines[k-1] with lines[k] only while every earlier
   * pair was in order, and compareMonth panics on a compared key that is too
   * short; this is the input on which isSorted returns.
   */
  predicate ScanSafe(opts: KeyOptions, lines: seq<string>)
  {
    forall k :: 1 <= k < |lines| && Sorting.AdjacentSorted(Comparator(opts), lines[..k]) ==>
      Comparable(opts, lines[k - 1]) && Comparable(opts, lines[k])
  }

  /** Input the sort accepts is also input the -c scan accepts. */
  lemma CanSortScanSafe(opts: KeyOptions, lines: seq<string>)
    requires CanSort(opts, lines)
    ensures ScanSafe(opts, lines)
  {
  }

  /** Under -M on whole lines, a first line shorter than three runes makes the -c scan panic. */
  lemma ShortFirstLinePanics(opts: KeyOptions, lines: seq<string>)
    requires opts.month && opts.column <= 0
    requires |lines| >= 2 && |lines[0]| < 3
    ensures !ScanSafe(opts, lines)
  {
    assert Sorting.AdjacentSorted(Comparator(opts), lines[..1]);
    assert !Comparable(opts, lines[0]);
  }

  /** Two neighbouring lines the scan compares without a panic and finds in order. */
  predicate InOrder(opts: KeyOptions, a: string, b: string)
  {
    Comparable(opts, a) && Comparable(opts, b) && CompareStrings(opts, a, b) <= 0
  }

  /** isSorted: compares neighbouring lines and stops at the first pair that compares greater. */
  method IsSorted(opts: KeyOptions, lines: seq<string>) returns (sorted: bool)
    requires ScanSafe(opts, lines)
    ensures sorted <==> forall i :: 1 <= i < |lines| ==> InOrder(opts, lines[i - 1], lines[i])
    ensures sorted <==> Sorting.AdjacentSorted(Comparator(opts), lines)
  {
    if |lines| == 0 {
      return true;
    }
    var i := 1;
    while i < |lines|
      invariant 1 <= i <= |lines|
      invariant Sorting.AdjacentSorted(Comparator(opts), lines[..i])
      invariant forall k :: 1 <= k < i ==> InOrder(opts, lines[k - 1], lines[k])
    {
      assert Comparable(opts, lines[i - 1]) && Comparable(opts, lines[i]);
      if CompareStrings(opts, lines[i - 1], lines[i]) > 0 {
        assert Comparator(opts)(lines[i - 1], lines[i]) > 0;
        return false;
      }
      i := i + 1;
    }
    assert lines[..i] == lines;
    return true;
  }

  /**
   * sortStrings on the slice held in `lines`. The library's stable sort is
   * applied through its result; removeDuplicates and the reversal then work
   * in place, and the result is the prefix of length `n`.
   */
  method SortStrings(cfg: SortConfig, lines: array<string>) returns (n: nat)
    requires CanSort(cfg.keys, lines[..])
    modifies lines
    ensures n <= lines.Length
    ensures lines[..n] == SortResult(cfg, old(lines[..]))
  {
    var sorted := Sorting.StableSort(Comparator(cfg.keys), lines[..]);
    assert forall x :: x in sorted ==> x in multiset(lines[..]);
    forall k | 0 <= k < lines.Length {
      lines[k] := sorted[k];
    }
    assert lines[..] == sorted;
    n := lines.Length;
    if cfg.unique {
      n := Sorting.RemoveDuplicates(Comparator(cfg.keys), lines);
    }
    if cfg.reverse {
      Sorting.ReversePrefix(lines, n);
    }
  }
}
