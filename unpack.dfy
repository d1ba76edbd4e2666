/**
 * The string unpacker of L2_9: a rune followed by a decimal count is repeated
 * that many times (`a4bc2d5e` becomes `aaaabccddddde`), a backslash makes the
 * next rune literal, and a count of 0 deletes the end of the output built so far.
 *
 * The source appends to a byte buffer, so the as-written model produces bytes
 * (UTF-8). The state machine is generic in the unit it appends per rune, so the
 * same definition also describes the variant that works on whole runes.
 */
module Unpack {
  import opened Wrappers
  import Numbers

  type byte = b: int | 0 <= b < 0x100

  datatype UnpackError = StartsWithDigit | InvalidNumber | EndsWithEscape

  /**
   * unicode.IsDigit is a table lookup (Unicode category Nd); the model takes it
   * as a parameter that agrees with the table on ASCII: there, only '0'..'9' are digits.
   */
  ghost predicate DigitClass(isDigit: char -> bool) {
    forall c: char :: c as int < 0x80 ==> (isDigit(c) <==> '0' <= c <= '9')
  }

  /** UTF-8 encoding of one rune, as strings.Builder.WriteRune writes it. */
  function Utf8(c: char): (bs: seq<byte>)
    ensures 1 <= |bs| <= 4
    ensures |bs| == 1 <==> c as int < 0x80
    ensures |bs| == 1 ==> bs[0] == c as int
    ensures |bs| > 1 ==> bs[0] >= 0xC0
  {
    var n := c as int;
    if n < 0x80 then [n]
    else if n < 0x800 then [0xC0 + n / 0x40, 0x80 + n % 0x40]
    else if n < 0x10000 then [0xE0 + n / 0x1000, 0x80 + (n / 0x40) % 0x40, 0x80 + n % 0x40]
    else [0xF0 + n / 0x40000, 0x80 + (n / 0x1000) % 0x40, 0x80 + (n / 0x40) % 0x40, 0x80 + n % 0x40]
  }

  /** The units of every rune of `s`, in order (with `Utf8`, the UTF-8 encoding of `s`). */
  function Emit<T>(s: string, unit: char -> seq<T>): seq<T>
    decreases |s|
  {
    if s == [] then [] else unit(s[0]) + Emit(s[1..], unit)
  }

  function Repeat<T>(x: seq<T>, n: nat): (r: seq<T>)
    ensures |r| == n * |x|
  {
    if n == 0 then [] else x + Repeat(x, n - 1)
  }

  /** The loop's variables between two runes: the escape flag, the last literal rune (NUL before any), the output. */
  datatype State<T> = State(escape: bool, prev: char, out: seq<T>)

  function Start<T>(): State<T> {
    State(false, '\0', [])
  }

  /** A rune copied to the output, which a following count will repeat. */
  function Literal<T>(st: State<T>, c: char, unit: char -> seq<T>): State<T> {
    State(false, c, st.out + unit(c))
  }

  /**
   * A decimal count: 0 deletes the last unit of the output, if any; n >= 1 adds
   * n - 1 more copies of the previous literal, unless no literal was seen yet.
   */
  function ApplyCount<T>(st: State<T>, count: nat, unit: char -> seq<T>): State<T> {
    if count == 0 then st.(out := if |st.out| > 0 then st.out[..|st.out| - 1] else st.out)
    else if st.prev != '\0' then st.(out := st.out + Repeat(unit(st.prev), count - 1))
    else st
  }

  /** Length of the run of digits that starts `rest`. */
  function DigitRun(rest: string, isDigit: char -> bool): (n: nat)
    ensures n <= |rest|
    ensures forall k :: 0 <= k < n ==> isDigit(rest[k])
    ensures n < |rest| ==> !isDigit(rest[n])
    decreases |rest|
  {
    if rest != [] && isDigit(rest[0]) then 1 + DigitRun(rest[1..], isDigit) else 0
  }

  /**
   * One token of the input: an escaped rune, a backslash, a run of digits, or a
   * plain rune. Yields how many runes it spans and the state after it.
   */
  function Step<T>(rest: string, atStart: bool, st: State<T>, isDigit: char -> bool, unit: char -> seq<T>)
    : (r: Result<(nat, State<T>), UnpackError>)
    requires DigitClass(isDigit) && rest != []
    ensures r.Success? ==> 1 <= r.value.0 <= |rest|
  {
    if st.escape then Success((1, Literal(st, rest[0], unit)))
    else if rest[0] == '\\' then Success((1, st.(escape := true)))
    else if isDigit(rest[0]) then
      if atStart then Failure(StartsWithDigit)
      else
        var n := DigitRun(rest, isDigit);
        match Numbers.Atoi(rest[..n])
        case None => Failure(InvalidNumber)
        case Some(count) => Success((n, ApplyCount(st, count, unit)))
    else Success((1, Literal(st, rest[0], unit)))
  }

  /** The unpacker on the runes still to read, from state `st`; `atStart` holds before the first rune. */
  function Run<T>(rest: string, atStart: bool, st: State<T>, isDigit: char -> bool, unit: char -> seq<T>)
    : Result<seq<T>, UnpackError>
    requires DigitClass(isDigit)
    decreases |rest|
  {
    if rest == [] then
      if st.escape then Failure(EndsWithEscape) else Success(st.out)
    else
      match Step(rest, atStart, st, isDigit, unit)
      case Failure(e) => Failure(e)
      case Success((n, next)) => Run(rest[n..], false, next, isDigit, unit)
  }

  /** resolveString as written: the output is the UTF-8 byte buffer. */
  function Unpack(s: string, isDigit: char -> bool): Result<seq<byte>, UnpackError>
    requires DigitClass(isDigit)
  {
    Run(s, true, Start(), isDigit, Utf8)
  }

  /** One rune as a unit of the corrected output. */
  function Single(c: char): string {
    [c]
  }

  /** The corrected unpacker: the output is a sequence of runes, so a count of 0 deletes a whole rune. */
  function UnpackRunes(s: string, isDigit: char -> bool): Result<string, UnpackError>
    requires DigitClass(isDigit)
  {
    Run(s, true, Start(), isDigit, Single)
  }

  /** Run after one token: the token's outcome, then the rest of the input from the state it leaves. */
  lemma RunAt<T>(s: string, i: nat, atStart: bool, st: State<T>, isDigit: char -> bool, unit: char -> seq<T>)
    requires DigitClass(isDigit) && i < |s|
    ensures Step(s[i..], atStart, st, isDigit, unit).Failure? ==>
              Run(s[i..], atStart, st, isDigit, unit) == Failure(Step(s[i..], atStart, st, isDigit, unit).error)
    ensures Step(s[i..], atStart, st, isDigit, unit).Success? ==>
              var (n, next) := Step(s[i..], atStart, st, isDigit, unit).value;
              i + n <= |s| && Run(s[i..], atStart, st, isDigit, unit) == Run(s[i + n..], false, next, isDigit, unit)
  {
    var rest := s[i..];
    var r := Step(rest, atStart, st, isDigit, unit);
    if r.Success? {
      assert rest[r.value.0..] == s[i + r.value.0..];
    }
  }

  /** A digit run at `i` ending before `j`: its value, read by Atoi, is the count the token applies. */
  lemma StepDigits<T>(s: string, i: nat, j: nat, st: State<T>, isDigit: char -> bool, unit: char -> seq<T>)
    requires DigitClass(isDigit) && i < j <= |s| && !st.escape
    requires forall k :: i <= k < j ==> isDigit(s[k])
    requires j < |s| ==> !isDigit(s[j])
    ensures Numbers.Atoi(s[i..j]).None? ==> Step(s[i..], false, st, isDigit, unit) == Failure(InvalidNumber)
    ensures Numbers.Atoi(s[i..j]).Some? ==>
              Step(s[i..], false, st, isDigit, unit)
              == Success((j - i, ApplyCount(st, Numbers.Atoi(s[i..j]).value, unit)))
  {
    var rest := s[i..];
    assert forall k :: 0 <= k < j - i ==> rest[k] == s[i + k];
    assert j < |s| ==> rest[j - i] == s[j];
    var n := DigitRun(rest, isDigit);
    assert n == j - i;
    assert rest[..n] == s[i..j];
  }

  /** The inner loop of resolveString: the digits from `i` on, up to the first rune that is not a digit. */
  method ReadNumber(s: string, i: nat, isDigit: char -> bool) returns (j: nat, numStr: string)
    requires i < |s| && isDigit(s[i])
    ensures i < j <= |s| && numStr == s[i..j]
    ensures forall k :: i <= k < j ==> isDigit(s[k])
    ensures j < |s| ==> !isDigit(s[j])
  {
    numStr := [s[i]];
    j := i + 1;
    while j < |s| && isDigit(s[j])
      invariant i < j <= |s|
      invariant numStr == s[i..j]
      invariant forall k :: i <= k < j ==> isDigit(s[k])
    {
      numStr := numStr + [s[j]];
      j := j + 1;
    }
  }

  /**
   * One iteration of resolveString's loop, on the rune at `i`: returns where the
   * next iteration starts and the new escape flag, previous literal and buffer,
   * or the error that ends the loop.
   */
  method ReadToken(s: string, i: nat, atStart: bool, escape: bool, prevSymbol: char, answer: seq<byte>,
                   isDigit: char -> bool)
    returns (next: nat, newEscape: bool, newPrev: char, newAnswer: seq<byte>, err: Option<UnpackError>)
    requires DigitClass(isDigit) && i < |s|
    ensures Step(s[i..], atStart, State(escape, prevSymbol, answer), isDigit, Utf8)
            == if err.Some? then Failure(err.value) else Success((next - i, State(newEscape, newPrev, newAnswer)))
  {
    var v := s[i];
    assert s[i..][0] == v;
    next, newEscape, newPrev, newAnswer, err := i + 1, escape, prevSymbol, answer, None;
    if escape {
      newAnswer := answer + Utf8(v);
      newPrev := v;
      newEscape := false;
    } else if v == '\\' {
      newEscape := true;
    } else if isDigit(v) {
      if atStart {
        return i, escape, prevSymbol, [], Some(StartsWithDigit);
      }
      var j, numStr := ReadNumber(s, i, isDigit);
      StepDigits(s, i, j, State(escape, prevSymbol, answer), isDigit, Utf8);
      var count := Numbers.Atoi(numStr);
      if count.None? {
        return i, escape, prevSymbol, [], Some(InvalidNumber);
      }
      if count.value == 0 {
        if |answer| > 0 {
          newAnswer := answer[..|answer| - 1];
        }
      } else if prevSymbol != '\0' {
        newAnswer := answer + Repeat(Utf8(prevSymbol), count.value - 1);
      }
      next := j;
    } else {
      newAnswer := answer + Utf8(v);
      newPrev := v;
    }
  }

  /** resolveString: reads the input token by token; any error discards the output. */
  method ResolveString(s: string, isDigit: char -> bool) returns (text: seq<byte>, err: Option<UnpackError>)
    requires DigitClass(isDigit)
    ensures err.Some? ==> text == []
    ensures Unpack(s, isDigit) == if err.None? then Success(text) else Failure(err.value)
  {
    var escape := false;
    var prevSymbol := '\0';
    var answer: seq<byte> := [];
    var i := 0;
    assert s[0..] == s;
    while i < |s|
      invariant 0 <= i <= |s|
      invariant Run(s[i..], i == 0, State(escape, prevSymbol, answer), isDigit, Utf8) == Unpack(s, isDigit)
    {
      var next, e, p, a, failure := ReadToken(s, i, i == 0, escape, prevSymbol, answer, isDigit);
      RunAt(s, i, i == 0, State(escape, prevSymbol, answer), isDigit, Utf8);
      if failure.Some? {
        return [], failure;
      }
      i, escape, prevSymbol, answer := next, e, p, a;
    }
    assert s[i..] == [];
    if escape {
      return [], Some(EndsWithEscape);
    }
    return answer, None;
  }

  // ----- Text without digits or backslashes -----

  predicate Plain(s: string, isDigit: char -> bool) {
    forall k :: 0 <= k < |s| ==> !isDigit(s[k]) && s[k] != '\\'
  }

  lemma {:induction false} RunPlain<T>(rest: string, atStart: bool, prev: char, out: seq<T>,
                                       isDigit: char -> bool, unit: char -> seq<T>)
    requires DigitClass(isDigit) && Plain(rest, isDigit)
    ensures Run(rest, atStart, State(false, prev, out), isDigit, unit) == Success(out + Emit(rest, unit))
    decreases |rest|
  {
    if rest == [] {
      assert out + Emit(rest, unit) == out;
    } else {
      assert Plain(rest[1..], isDigit) by {
        assert forall k :: 0 <= k < |rest| - 1 ==> rest[1..][k] == rest[k + 1];
      }
      assert rest[0..] == rest;
      RunAt(rest, 0, atStart, State(false, prev, out), isDigit, unit);
      RunPlain(rest[1..], false, rest[0], out + unit(rest[0]), isDigit, unit);
      assert out + unit(rest[0]) + Emit(rest[1..], unit) == out + Emit(rest, unit);
    }
  }

  /** Input with no digits and no backslashes comes back unchanged (the empty input included). */
  lemma PlainUnchanged(s: string, isDigit: char -> bool)
    requires DigitClass(isDigit) && Plain(s, isDigit)
    ensures Unpack(s, isDigit) == Success(Emit(s, Utf8))
  {
    RunPlain(s, true, '\0', [], isDigit, Utf8);
    assert [] + Emit(s, Utf8) == Emit(s, Utf8);
  }

  /** A digit as the first rune is an error. */
  lemma LeadingDigit(s: string, isDigit: char -> bool)
    requires DigitClass(isDigit) && s != [] && isDigit(s[0])
    ensures Unpack(s, isDigit) == Failure(StartsWithDigit)
  {
  }

  // ----- Counts -----

  /** A count written in decimal, not followed by another digit, is read whole and applied once. */
  lemma CountStep<T>(n: nat, rest: string, st: State<T>, isDigit: char -> bool, unit: char -> seq<T>)
    requires DigitClass(isDigit)
    requires n <= Numbers.MaxInt64 && !st.escape
    requires rest == [] || !isDigit(rest[0])
    ensures Run(Numbers.NatToString(n) + rest, false, st, isDigit, unit)
         == Run(rest, false, ApplyCount(st, n, unit), isDigit, unit)
  {
    var ds := Numbers.NatToString(n);
    var s := ds + rest;
    assert forall k :: 0 <= k < |ds| ==> s[k] == ds[k] && isDigit(s[k]);
    assert s[0] != '\\';
    assert |ds| < |s| ==> s[|ds|] == rest[0];
    var m := DigitRun(s, isDigit);
    assert m == |ds|;
    assert s[..m] == ds && s[m..] == rest;
    Numbers.AtoiNatToString(n);
  }

  /** A plain rune followed by a count n >= 1 appears exactly n times; multi-digit counts included. */
  lemma RepeatPlain<T>(c: char, n: nat, rest: string, atStart: bool, st: State<T>,
                       isDigit: char -> bool, unit: char -> seq<T>)
    requires DigitClass(isDigit)
    requires !isDigit(c) && c != '\\' && c != '\0' && !st.escape
    requires 1 <= n <= Numbers.MaxInt64
    requires rest == [] || !isDigit(rest[0])
    ensures Run([c] + Numbers.NatToString(n) + rest, atStart, st, isDigit, unit)
         == Run(rest, false, State(false, c, st.out + Repeat(unit(c), n)), isDigit, unit)
  {
    var s := [c] + Numbers.NatToString(n) + rest;
    assert s[0] == c && s[1..] == Numbers.NatToString(n) + rest;
    CountStep(n, rest, Literal(st, c, unit), isDigit, unit);
    assert st.out + unit(c) + Repeat(unit(c), n - 1) == st.out + Repeat(unit(c), n);
  }

  /** An escaped rune, even a digit or a backslash, is literal, and a following count repeats it. */
  lemma RepeatEscaped<T>(c: char, n: nat, rest: string, atStart: bool, st: State<T>,
                         isDigit: char -> bool, unit: char -> seq<T>)
    requires DigitClass(isDigit)
    requires c != '\0' && !st.escape
    requires 1 <= n <= Numbers.MaxInt64
    requires rest == [] || !isDigit(rest[0])
    ensures Run(['\\', c] + Numbers.NatToString(n) + rest, atStart, st, isDigit, unit)
         == Run(rest, false, State(false, c, st.out + Repeat(unit(c), n)), isDigit, unit)
  {
    var s := ['\\', c] + Numbers.NatToString(n) + rest;
    assert s[0] == '\\' && s[1..] == [c] + Numbers.NatToString(n) + rest;
    assert s[1..][0] == c && s[1..][1..] == Numbers.NatToString(n) + rest;
    CountStep(n, rest, Literal(st, c, unit), isDigit, unit);
    assert st.out + unit(c) + Repeat(unit(c), n - 1) == st.out + Repeat(unit(c), n);
  }

  /** An escaped rune with no count after it is copied once. */
  lemma EscapedOnce<T>(c: char, rest: string, atStart: bool, st: State<T>,
                       isDigit: char -> bool, unit: char -> seq<T>)
    requires DigitClass(isDigit) && !st.escape
    ensures Run(['\\', c] + rest, atStart, st, isDigit, unit)
         == Run(rest, false, Literal(st, c, unit), isDigit, unit)
  {
    var s := ['\\', c] + rest;
    assert s[0] == '\\' && s[1..] == [c] + rest;
    assert s[1..][0] == c && s[1..][1..] == rest;
  }

  /** A count of 0 deletes exactly the last unit of the output: a byte as written, a rune when corrected. */
  lemma ZeroCount<T>(rest: string, st: State<T>, isDigit: char -> bool, unit: char -> seq<T>)
    requires DigitClass(isDigit) && !st.escape
    requires rest == [] || !isDigit(rest[0])
    ensures Run(['0'] + rest, false, st, isDigit, unit)
         == Run(rest, false, st.(out := if |st.out| > 0 then st.out[..|st.out| - 1] else st.out), isDigit, unit)
  {
    assert Numbers.NatToString(0) == ['0'];
    CountStep(0, rest, st, isDigit, unit);
  }

  // ----- Trailing backslashes -----

  /** Number of backslashes that end `s`. */
  function TrailingBackslashes(s: string): nat
    decreases |s|
  {
    if s != [] && s[|s| - 1] == '\\' then 1 + TrailingBackslashes(s[..|s| - 1]) else 0
  }

  /** After one token the escape flag is set exactly when the runes read so far end in an odd run of backslashes. */
  lemma ParityStep<T>(done: string, rest: string, atStart: bool, st: State<T>,
                      isDigit: char -> bool, unit: char -> seq<T>)
    requires DigitClass(isDigit) && rest != []
    requires st.escape <==> TrailingBackslashes(done) % 2 == 1
    requires Step(rest, atStart, st, isDigit, unit).Success?
    ensures var n := Step(rest, atStart, st, isDigit, unit).value.0;
      Step(rest, atStart, st, isDigit, unit).value.1.escape <==> TrailingBackslashes(done + rest[..n]) % 2 == 1
  {
    var c := rest[0];
    var n := Step(rest, atStart, st, isDigit, unit).value.0;
    var read := done + rest[..n];
    assert read[..|read| - 1] == done + rest[..n - 1];
    if st.escape || c == '\\' || !isDigit(c) {
      assert n == 1 && rest[..n - 1] == [] && read[|read| - 1] == c;
      assert done + rest[..n - 1] == done;
    } else {
      assert read[|read| - 1] == rest[n - 1];
    }
  }

  /** Between runes, the escape flag is set exactly when the runes read so far end in an odd run of backslashes. */
  lemma {:induction false} EscapeParity<T>(done: string, rest: string, atStart: bool, st: State<T>,
                                           isDigit: char -> bool, unit: char -> seq<T>)
    requires DigitClass(isDigit)
    requires st.escape <==> TrailingBackslashes(done) % 2 == 1
    ensures Run(rest, atStart, st, isDigit, unit) == Failure(EndsWithEscape)
            ==> TrailingBackslashes(done + rest) % 2 == 1
    ensures TrailingBackslashes(done + rest) % 2 == 1 ==> Run(rest, atStart, st, isDigit, unit).Failure?
    decreases |rest|
  {
    if rest == [] {
      assert done + rest == done;
    } else {
      match Step(rest, atStart, st, isDigit, unit)
      case Failure(e) =>
      case Success((n, next)) =>
        ParityStep(done, rest, atStart, st, isDigit, unit);
        assert done + rest == (done + rest[..n]) + rest[n..];
        EscapeParity(done + rest[..n], rest[n..], false, next, isDigit, unit);
    }
  }

  /**
   * Ending in an odd run of backslashes (an unconsumed escape) is an error, and
   * the ends-with-escape error is reported only for such input.
   */
  lemma TrailingEscape(s: string, isDigit: char -> bool)
    requires DigitClass(isDigit)
    ensures TrailingBackslashes(s) % 2 == 1 ==> Unpack(s, isDigit).Failure?
    ensures Unpack(s, isDigit) == Failure(EndsWithEscape) ==> TrailingBackslashes(s) % 2 == 1
  {
    EscapeParity([], s, true, Start(), isDigit, Utf8);
    assert [] + s == s;
  }

  // ----- Count 0 after a multi-byte rune -----

  /** No sequence of runes encodes to a lone UTF-8 lead byte. */
  lemma LeadByteAloneIsNotUtf8(s: string)
    ensures Emit(s, Utf8) != [0xD0]
  {
    if s != [] {
      var e := Emit(s, Utf8);
      assert e == Utf8(s[0]) + Emit(s[1..], Utf8);
      if |Utf8(s[0])| == 1 {
        assert e[0] == s[0] as int < 0x80;
      }
    }
  }

  /** Plain runes in front of `rest` are copied, and the last of them is the rune a count after them repeats. */
  lemma {:induction false} RunPlainThen<T>(p: string, rest: string, atStart: bool, prev: char, out: seq<T>,
                                           isDigit: char -> bool, unit: char -> seq<T>)
    requires DigitClass(isDigit) && Plain(p, isDigit) && p != []
    ensures Run(p + rest, atStart, State(false, prev, out), isDigit, unit)
         == Run(rest, false, State(false, p[|p| - 1], out + Emit(p, unit)), isDigit, unit)
    decreases |p|
  {
    var s := p + rest;
    assert s[0..] == s && s[0] == p[0];
    RunAt(s, 0, atStart, State(false, prev, out), isDigit, unit);
    assert s[1..] == p[1..] + rest;
    if |p| == 1 {
      assert p[1..] + rest == rest;
      assert Emit(p, unit) == unit(p[0]) + Emit(p[1..], unit);
      assert out + Emit(p, unit) == out + unit(p[0]);
    } else {
      assert Plain(p[1..], isDigit) by {
        assert forall k :: 0 <= k < |p| - 1 ==> p[1..][k] == p[k + 1];
      }
      RunPlainThen(p[1..], rest, false, p[0], out + unit(p[0]), isDigit, unit);
      assert p[1..][|p[1..]| - 1] == p[|p| - 1];
      assert out + unit(p[0]) + Emit(p[1..], unit) == out + Emit(p, unit);
    }
  }

  /** A plain rune followed by the count 0 loses the last unit it produced, and nothing else is lost. */
  lemma ZeroCountDropsLastUnit<T>(p: string, c: char, isDigit: char -> bool, unit: char -> seq<T>)
    requires DigitClass(isDigit) && Plain(p + [c], isDigit) && unit(c) != []
    ensures Run(p + [c, '0'], true, Start(), isDigit, unit)
         == Success(Emit(p, unit) + unit(c)[..|unit(c)| - 1])
  {
    var q := p + [c];
    assert p + [c, '0'] == q + ['0'];
    PlainThenZero(q, isDigit, unit);
    EmitSnoc(p, c, unit);
    var out := Emit(q, unit);
    assert ['0'] + [] == ['0'];
    ZeroCount([], State(false, c, out), isDigit, unit);
    DropLastAppend(Emit(p, unit), unit(c));
  }

  /** From the start, a plain prefix is copied and its last rune is the one a count applies to. */
  lemma PlainThenZero<T>(q: string, isDigit: char -> bool, unit: char -> seq<T>)
    requires DigitClass(isDigit) && Plain(q, isDigit) && q != []
    ensures Run(q + ['0'], true, Start(), isDigit, unit)
         == Run(['0'], false, State(false, q[|q| - 1], Emit(q, unit)), isDigit, unit)
  {
    RunPlainThen(q, ['0'], true, '\0', [], isDigit, unit);
    assert [] + Emit(q, unit) == Emit(q, unit);
  }

  /**
   * As written: a plain rune followed by the count 0 loses only the last byte of
   * its encoding, which is the whole rune only when the rune is ASCII.
   */
  lemma ZeroCountDropsByte(p: string, c: char, isDigit: char -> bool)
    requires DigitClass(isDigit) && Plain(p + [c], isDigit)
    ensures Unpack(p + [c, '0'], isDigit) == Success(Emit(p, Utf8) + Utf8(c)[..|Utf8(c)| - 1])
  {
    var e := Utf8(c);
    ZeroCountDropsLastUnit(p, c, isDigit, Utf8);
  }

  lemma DropLastAppend<T>(a: seq<T>, b: seq<T>)
    requires b != []
    ensures (a + b)[..|a + b| - 1] == a + b[..|b| - 1]
  {
  }

  lemma {:induction false} EmitSnoc<T>(p: string, c: char, unit: char -> seq<T>)
    ensures Emit(p + [c], unit) == Emit(p, unit) + unit(c)
    decreases |p|
  {
    if p == [] {
      assert [c][1..] == [];
      assert Emit([c], unit) == unit(c) + Emit([], unit);
    } else {
      EmitSnoc(p[1..], c, unit);
      assert (p + [c])[1..] == p[1..] + [c];
    }
  }

  /** `л0` yields the single byte 0xD0, which is not the UTF-8 encoding of any string. */
  lemma ZeroCountSplitsRune(isDigit: char -> bool)
    requires DigitClass(isDigit) && !isDigit('л')
    ensures Unpack("л0", isDigit) == Success([0xD0])
    ensures forall s: string :: Unpack("л0", isDigit) != Success(Emit(s, Utf8))
  {
    assert Plain([] + ['л'], isDigit);
    ZeroCountDropsByte([], 'л', isDigit);
    assert [] + ['л', '0'] == "л0";
    assert Utf8('л') == [0xD0, 0xBB];
    assert Emit([], Utf8) + Utf8('л')[..1] == [0xD0];
    forall s: string
      ensures Unpack("л0", isDigit) != Success(Emit(s, Utf8))
    {
      LeadByteAloneIsNotUtf8(s);
    }
  }

  /** Corrected: a plain rune followed by the count 0 disappears entirely, whatever its encoding length. */
  lemma ZeroCountRemovesRune(p: string, c: char, isDigit: char -> bool)
    requires DigitClass(isDigit) && Plain(p + [c], isDigit)
    ensures UnpackRunes(p + [c, '0'], isDigit) == Success(p)
  {
    ZeroCountDropsLastUnit(p, c, isDigit, Single);
    EmitSingletons(p);
    assert Single(c)[..0] == [];
    assert Emit(p, Single) + [] == p;
  }

  lemma {:induction false} EmitSingletons(s: string)
    ensures Emit(s, Single) == s
    decreases |s|
  {
    if s != [] {
      EmitSingletons(s[1..]);
      assert s == [s[0]] + s[1..];
    }
  }
}
