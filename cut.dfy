/**
 * The field selector of L2_13 (`cut -f LIST -d DELIM [-s]`): a field list such
 * as `1,3-5,7` is parsed into column numbers, and every input line is split at
 * the delimiter and re-joined from the selected fields.
 */
module Cut {
  import opened Wrappers
  import Numbers
  import Text

  /** Why a field list was refused; each variant carries the text the message quotes. */
  datatype ColsError =
    | InvalidRange(piece: string)
    | InvalidRangeStart(text: string)
    | InvalidRangeEnd(text: string)
    | StartAfterEnd
    | InvalidField(piece: string)

  /** The integers a, a+1, …, b (empty when a > b). */
  function Interval(a: int, b: int): (r: seq<int>)
    ensures |r| == if a <= b then b - a + 1 else 0
    ensures forall k :: 0 <= k < |r| ==> r[k] == a + k
    decreases b - a
  {
    if a > b then [] else Interval(a, b - 1) + [b]
  }

  /** The column numbers one comma-separated piece stands for: `n`, or the range `a-b`. */
  function PieceCols(piece: string): Result<seq<int>, ColsError>
  {
    if Text.Contains(piece, "-") then
      var rangeParts := Text.Split(piece, "-");
      if |rangeParts| != 2 then Failure(InvalidRange(piece))
      else
        match Numbers.Atoi(rangeParts[0])
        case None => Failure(InvalidRangeStart(rangeParts[0]))
        case Some(start) =>
          match Numbers.Atoi(rangeParts[1])
          case None => Failure(InvalidRangeEnd(rangeParts[1]))
          case Some(end) =>
            if start > end then Failure(StartAfterEnd) else Success(Interval(start, end))
    else
      match Numbers.Atoi(piece)
      case None => Failure(InvalidField(piece))
      case Some(field) => Success([field])
  }

  /** `prefix` in front of a successful result; a failure passes through. */
  function Prepend(prefix: seq<int>, r: Result<seq<int>, ColsError>): Result<seq<int>, ColsError>
  {
    match r
    case Failure(e) => Failure(e)
    case Success(cols) => Success(prefix + cols)
  }

  /** The pieces expanded left to right and concatenated; the first piece in error decides the error. */
  function ColsOf(parts: seq<string>): Result<seq<int>, ColsError>
    decreases |parts|
  {
    if parts == [] then Success([])
    else
      match PieceCols(parts[0])
      case Failure(e) => Failure(e)
      case Success(cols) => Prepend(cols, ColsOf(parts[1..]))
  }

  /** The column list that parseCols computes from the `-f` argument. */
  function FieldList(inputCols: string): Result<seq<int>, ColsError>
  {
    ColsOf(Text.Split(inputCols, ","))
  }

  lemma PrependTwice(a: seq<int>, b: seq<int>, r: Result<seq<int>, ColsError>)
    ensures Prepend(a, Prepend(b, r)) == Prepend(a + b, r)
  {
    if r.Success? {
      assert a + (b + r.value) == (a + b) + r.value;
    }
  }

  lemma ColsOfAt(parts: seq<string>, k: nat)
    requires k < |parts|
    ensures ColsOf(parts[k..])
         == match PieceCols(parts[k])
            case Failure(e) => Failure(e)
            case Success(cols) => Prepend(cols, ColsOf(parts[k + 1..]))
  {
    assert parts[k..][0] == parts[k] && parts[k..][1..] == parts[k + 1..];
  }

  /** The counting loop of a range: appends start, start+1, …, end. */
  method AppendRange(colsNumber: seq<int>, start: int, end: int) returns (next: seq<int>)
    requires start <= end
    ensures next == colsNumber + Interval(start, end)
  {
    next := colsNumber;
    var i := start;
    while i <= end
      invariant start <= i <= end + 1
      invariant next == colsNumber + Interval(start, i - 1)
      decreases end - i
    {
      next := next + [i];
      i := i + 1;
    }
  }

  /**
   * The body of parseCols's loop for one piece: appends its column numbers to
   * `colsNumber` (a range by a counting loop), or reports why the piece is invalid.
   */
  method AppendPiece(colsNumber: seq<int>, part: string) returns (next: seq<int>, err: Option<ColsError>)
    ensures Prepend(colsNumber, PieceCols(part)) == if err.None? then Success(next) else Failure(err.value)
  {
    if Text.Contains(part, "-") {
      var rangeParts := Text.Split(part, "-");
      if |rangeParts| != 2 {
        return [], Some(InvalidRange(part));
      }
      var start := Numbers.Atoi(rangeParts[0]);
      if start.None? {
        return [], Some(InvalidRangeStart(rangeParts[0]));
      }
      var end := Numbers.Atoi(rangeParts[1]);
      if end.None? {
        return [], Some(InvalidRangeEnd(rangeParts[1]));
      }
      if start.value > end.value {
        return [], Some(StartAfterEnd);
      }
      next := AppendRange(colsNumber, start.value, end.value);
      err := None;
    } else {
      var field := Numbers.Atoi(part);
      if field.None? {
        return [], Some(InvalidField(part));
      }
      next, err := colsNumber + [field.value], None;
    }
  }

  /** parseCols: the comma-separated pieces in order, each appended in turn; any error yields nil. */
  method ParseCols(inputCols: string) returns (cols: seq<int>, err: Option<ColsError>)
    ensures err.Some? ==> cols == []
    ensures FieldList(inputCols) == if err.None? then Success(cols) else Failure(err.value)
  {
    var colsNumber: seq<int> := [];
    var parts := Text.Split(inputCols, ",");
    assert parts[0..] == parts;
    if ColsOf(parts).Success? {
      assert [] + ColsOf(parts).value == ColsOf(parts).value;
    }
    for k := 0 to |parts|
      invariant ColsOf(parts) == Prepend(colsNumber, ColsOf(parts[k..]))
    {
      ColsOfAt(parts, k);
      var next, failure := AppendPiece(colsNumber, parts[k]);
      if failure.Some? {
        return [], failure;
      }
      PrependTwice(colsNumber, PieceCols(parts[k]).value, ColsOf(parts[k + 1..]));
      colsNumber := next;
    }
    assert parts[|parts|..] == [];
    assert colsNumber + [] == colsNumber;
    return colsNumber, None;
  }

  /** The selected columns, in the order of `cols`; numbers outside 1..|columns| select nothing. */
  function Select(columns: seq<string>, cols: seq<int>): seq<string>
  {
    if cols == [] then []
    else
      var c := cols[|cols| - 1];
      Select(columns, cols[..|cols| - 1]) + (if 1 <= c <= |columns| then [columns[c - 1]] else [])
  }

  /** What processStr returns for one line ("" for a line that -s suppresses). */
  function CutLine(str: string, checker: string, cols: seq<int>, separated: bool): string
  {
    if separated && !Text.Contains(str, checker) then []
    else Text.Join(Select(Text.Split(str, checker), cols), checker)
  }

  /** processStr: the fields in the order of `colsNumber`, skipping numbers out of range, joined by the delimiter. */
  method ProcessStr(str: string, checker: string, colsNumber: seq<int>, separated: bool) returns (out: string)
    ensures out == CutLine(str, checker, colsNumber, separated)
  {
    if separated && !Text.Contains(str, checker) {
      return [];
    }
    var columns := Text.Split(str, checker);
    var result: seq<string> := [];
    for k := 0 to |colsNumber|
      invariant result == Select(columns, colsNumber[..k])
    {
      assert colsNumber[..k + 1][..k] == colsNumber[..k];
      var index := colsNumber[k] - 1;
      if index >= 0 && index < |columns| {
        result := result + [columns[index]];
      }
    }
    assert colsNumber[..|colsNumber|] == colsNumber;
    return Text.Join(result, checker);
  }

  // ----- The field list -----

  /** A piece without a comma comes first: its columns precede those of the rest, duplicates kept. */
  lemma FieldListCons(piece: string, rest: string)
    requires ',' !in piece
    ensures FieldList(piece + "," + rest)
         == match PieceCols(piece)
            case Failure(e) => Failure(e)
            case Success(cols) => Prepend(cols, FieldList(rest))
  {
    Text.SplitRuneFirst(piece, ',', rest);
    var parts := Text.Split(piece + "," + rest, ",");
    assert parts == [piece] + Text.Split(rest, ",");
    assert parts[0] == piece && parts[1..] == Text.Split(rest, ",");
    assert FieldList(piece + "," + rest) == ColsOf(parts);
  }

  /** A piece without a comma is the whole list. */
  lemma FieldListSingle(piece: string)
    requires ',' !in piece
    ensures FieldList(piece) == PieceCols(piece)
  {
    Text.ContainsRune(piece, ',');
    Text.SplitWithoutSep(piece, ",");
    assert Text.Split(piece, ",") == [piece];
    assert [piece][1..] == [];
    match PieceCols(piece)
    case Failure(_) =>
    case Success(cols) =>
      assert ColsOf([piece]) == Prepend(cols, ColsOf([]));
      assert cols + [] == cols;
  }

  /** A decimal number is a one-column piece. */
  lemma FieldPiece(n: nat)
    requires n <= Numbers.MaxInt64
    ensures PieceCols(Numbers.NatToString(n)) == Success([n])
  {
    var s := Numbers.NatToString(n);
    NoDash(s);
    Numbers.AtoiNatToString(n);
  }

  lemma NoDash(s: string)
    requires Numbers.AllAsciiDigits(s)
    ensures !Text.Contains(s, "-") && '-' !in s
  {
    Text.ContainsRune(s, '-');
  }

  /** The range `a-b` with a <= b contributes exactly a, a+1, …, b; with a > b it is an error. */
  lemma RangePiece(a: nat, b: nat)
    requires a <= Numbers.MaxInt64 && b <= Numbers.MaxInt64
    ensures PieceCols(Numbers.NatToString(a) + "-" + Numbers.NatToString(b))
         == if a <= b then Success(Interval(a, b)) else Failure(StartAfterEnd)
  {
    var x, y := Numbers.NatToString(a), Numbers.NatToString(b);
    var piece := x + "-" + y;
    NoDash(x);
    NoDash(y);
    Text.ContainsRune(piece, '-');
    assert piece[|x|] == '-';
    Text.SplitRuneFirst(x, '-', y);
    Text.SplitWithoutSep(y, "-");
    Numbers.AtoiNatToString(a);
    Numbers.AtoiNatToString(b);
  }

  /** A piece with two or more '-' is an invalid range. */
  lemma ManyDashes(piece: string)
    requires Text.Count(piece, '-') >= 2
    ensures PieceCols(piece) == Failure(InvalidRange(piece))
  {
    Text.SplitRuneCount(piece, '-');
    CountPositive(piece, '-');
    Text.ContainsRune(piece, '-');
  }

  lemma {:induction false} CountPositive(s: string, c: char)
    ensures Text.Count(s, c) > 0 <==> c in s
    decreases |s|
  {
    if s != [] {
      CountPositive(s[1..], c);
      assert s == [s[0]] + s[1..];
    }
  }

  /** The empty piece (as in `1,,2` or an empty list) is an invalid field number. */
  lemma EmptyPiece()
    ensures PieceCols([]) == Failure(InvalidField([]))
  {
    assert !Text.Contains([], "-");
  }

  /** Every column number a successful parse yields is non-negative: '-' only ever separates a range. */
  lemma {:induction false} ColsNonNegative(parts: seq<string>)
    ensures ColsOf(parts).Success? ==> forall k :: 0 <= k < |ColsOf(parts).value| ==> ColsOf(parts).value[k] >= 0
    decreases |parts|
  {
    if parts != [] {
      ColsNonNegative(parts[1..]);
      PieceNonNegative(parts[0]);
    }
  }

  lemma PieceNonNegative(piece: string)
    ensures PieceCols(piece).Success? ==> forall k :: 0 <= k < |PieceCols(piece).value| ==> PieceCols(piece).value[k] >= 0
  {
    if Text.Contains(piece, "-") {
      var rangeParts := Text.Split(piece, "-");
      if |rangeParts| == 2 {
        Text.SplitRunePieces(piece, '-');
        assert rangeParts[0] in rangeParts;
      }
    } else {
      Text.ContainsRune(piece, '-');
    }
  }

  /** The range of the documented example `1,3-5,7`: `3-5` is [3, 4, 5]. */
  lemma ExampleRange()
    ensures PieceCols("3-5") == Success([3, 4, 5])
  {
    assert Numbers.NatToString(3) == "3" && Numbers.NatToString(5) == "5";
    RangePiece(3, 5);
    assert "3-5" == Numbers.NatToString(3) + "-" + Numbers.NatToString(5);
    assert Interval(3, 5) == [3, 4, 5];
  }

  // ----- Selecting fields -----

  /** Selection distributes over the column list: fields come out in the order their numbers were given. */
  lemma {:induction false} SelectAppend(columns: seq<string>, a: seq<int>, b: seq<int>)
    ensures Select(columns, a + b) == Select(columns, a) + Select(columns, b)
    decreases |b|
  {
    if b == [] {
      assert a + b == a;
    } else {
      var b' := b[..|b| - 1];
      assert (a + b)[..|a + b| - 1] == a + b';
      SelectAppend(columns, a, b');
    }
  }

  /** Numbers at most 0 or above the field count select nothing. */
  lemma {:induction false} SelectOutOfRange(columns: seq<string>, cols: seq<int>)
    requires forall k :: 0 <= k < |cols| ==> cols[k] < 1 || cols[k] > |columns|
    ensures Select(columns, cols) == []
    decreases |cols|
  {
    if cols != [] {
      SelectOutOfRange(columns, cols[..|cols| - 1]);
    }
  }

  /** Selecting 1..n from n fields selects all of them. */
  lemma {:induction false} SelectAll(columns: seq<string>, n: nat)
    requires n <= |columns|
    ensures Select(columns, Interval(1, n)) == columns[..n]
    decreases n
  {
    if n > 0 {
      SelectAll(columns, n - 1);
      assert Interval(1, n)[..n - 1] == Interval(1, n - 1);
      assert columns[..n] == columns[..n - 1] + [columns[n - 1]];
    }
  }

  /** With -s, a line without the delimiter is suppressed. */
  lemma SeparatedWithoutDelimiter(str: string, checker: string, cols: seq<int>)
    requires !Text.Contains(str, checker)
    ensures CutLine(str, checker, cols, true) == []
  {
  }

  /**
   * Without -s, a line without the delimiter is field 1 in its entirety, and
   * there is no other field. The delimiter is not empty here, since every
   * string contains the empty string.
   */
  lemma WholeLineIsField1(str: string, checker: string, cols: seq<int>)
    requires !Text.Contains(str, checker)
    ensures CutLine(str, checker, [1], false) == str
    ensures (forall k :: 0 <= k < |cols| ==> cols[k] != 1) ==> CutLine(str, checker, cols, false) == []
  {
    Text.SplitWithoutSep(str, checker);
    assert Select([str], [1]) == [str] by {
      assert [1][..0] == [];
    }
    if forall k :: 0 <= k < |cols| ==> cols[k] != 1 {
      SelectOutOfRange([str], cols);
    }
  }

  /** Asking for every field, 1 through the field count, gives the line back unchanged. */
  lemma AllFieldsGiveLine(str: string, checker: string, separated: bool)
    requires !separated || Text.Contains(str, checker)
    ensures CutLine(str, checker, Interval(1, |Text.Split(str, checker)|), separated) == str
  {
    var columns := Text.Split(str, checker);
    SelectAll(columns, |columns|);
    assert columns[..|columns|] == columns;
    Text.JoinSplit(str, checker);
  }
}
