/**
 * The parts of Go's `strings` and `unicode` packages that the utilities use,
 * over strings of runes (`seq<char>`, one element per Unicode scalar value).
 * Go compares strings byte by byte in UTF-8; UTF-8 preserves code-point order,
 * so comparing runes gives the same answer.
 */
module Text {

  predicate HasPrefix(s: string, prefix: string) {
    |prefix| <= |s| && s[..|prefix|] == prefix
  }

  predicate HasSuffix(s: string, suffix: string) {
    |suffix| <= |s| && s[|s| - |suffix|..] == suffix
  }

  /** strings.Contains: `sub` occurs in `s` (the empty string occurs in every string). */
  predicate Contains(s: string, sub: string)
    decreases |s|
  {
    HasPrefix(s, sub) || (s != [] && Contains(s[1..], sub))
  }

  /** A one-rune separator occurs exactly when that rune is an element. */
  lemma {:induction false} ContainsRune(s: string, c: char)
    ensures Contains(s, [c]) <==> c in s
    decreases |s|
  {
    if s != [] {
      ContainsRune(s[1..], c);
      assert s == [s[0]] + s[1..];
    }
  }

  /** Number of occurrences of rune `c` in `s`. */
  function Count(s: string, c: char): nat
    decreases |s|
  {
    if s == [] then 0 else (if s[0] == c then 1 else 0) + Count(s[1..], c)
  }

  /** strings.Split: the pieces between the separators; an empty separator explodes `s` into runes. */
  function Split(s: string, sep: string): (parts: seq<string>)
  {
    if sep == [] then Explode(s) else SplitOn(s, sep)
  }

  function Explode(s: string): (parts: seq<string>)
    ensures |parts| == |s|
    ensures forall k :: 0 <= k < |s| ==> parts[k] == [s[k]]
    decreases |s|
  {
    if s == [] then [] else [[s[0]]] + Explode(s[1..])
  }

  /** Splitting at every leftmost, non-overlapping occurrence of a non-empty separator. */
  function SplitOn(s: string, sep: string): (parts: seq<string>)
    requires sep != []
    ensures |parts| >= 1
    decreases |s|
  {
    if HasPrefix(s, sep) then [[]] + SplitOn(s[|sep|..], sep)
    else if s == [] then [[]]
    else
      var rest := SplitOn(s[1..], sep);
      [[s[0]] + rest[0]] + rest[1..]
  }

  /** strings.Join. */
  function Join(parts: seq<string>, sep: string): string
  {
    if parts == [] then []
    else if |parts| == 1 then parts[0]
    else parts[0] + sep + Join(parts[1..], sep)
  }

  /** Joining the pieces with the separator gives back the string that was split. */
  lemma {:induction false} JoinSplit(s: string, sep: string)
    ensures Join(Split(s, sep), sep) == s
  {
    if sep == [] {
      JoinExplode(s);
    } else {
      JoinSplitOn(s, sep);
    }
  }

  lemma {:induction false} JoinExplode(s: string)
    ensures Join(Explode(s), []) == s
    decreases |s|
  {
    if |s| > 1 {
      JoinExplode(s[1..]);
      assert Explode(s)[1..] == Explode(s[1..]);
      assert s == [s[0]] + [] + s[1..];
    }
  }

  lemma {:induction false} JoinSplitOn(s: string, sep: string)
    requires sep != []
    ensures Join(SplitOn(s, sep), sep) == s
    decreases |s|
  {
    if HasPrefix(s, sep) {
      JoinSplitOn(s[|sep|..], sep);
      JoinAfterSep(s, sep);
    } else if s != [] {
      var rest := SplitOn(s[1..], sep);
      JoinSplitOn(s[1..], sep);
      JoinCons(s[0], rest, sep);
      assert s == [s[0]] + s[1..];
    }
  }

  /** A separator at the front contributes an empty first piece. */
  lemma JoinAfterSep(s: string, sep: string)
    requires sep != [] && HasPrefix(s, sep)
    requires Join(SplitOn(s[|sep|..], sep), sep) == s[|sep|..]
    ensures Join(SplitOn(s, sep), sep) == s
  {
    var tail := SplitOn(s[|sep|..], sep);
    assert SplitOn(s, sep) == [[]] + tail;
    assert ([[]] + tail)[1..] == tail;
    assert s == sep + s[|sep|..];
  }

  /** Prepending a rune to the first piece prepends it to the joined string. */
  lemma JoinCons(c: char, parts: seq<string>, sep: string)
    requires parts != []
    ensures Join([[c] + parts[0]] + parts[1..], sep) == [c] + Join(parts, sep)
  {
    var q := [[c] + parts[0]] + parts[1..];
    if |parts| > 1 {
      assert q[1..] == parts[1..];
    }
  }

  /** Without an occurrence of the separator the whole string is the only piece. */
  lemma {:induction false} SplitWithoutSep(s: string, sep: string)
    requires sep != [] && !Contains(s, sep)
    ensures SplitOn(s, sep) == [s]
    decreases |s|
  {
    if s != [] {
      SplitWithoutSep(s[1..], sep);
      assert s == [s[0]] + s[1..];
    }
  }

  /** An occurrence of the separator yields at least two pieces. */
  lemma {:induction false} SplitWithSep(s: string, sep: string)
    requires sep != [] && Contains(s, sep)
    ensures |SplitOn(s, sep)| >= 2
    decreases |s|
  {
    if !HasPrefix(s, sep) {
      SplitWithSep(s[1..], sep);
    }
  }

  /** Splitting on one rune yields one more piece than there are occurrences of that rune. */
  lemma {:induction false} SplitRuneCount(s: string, c: char)
    ensures |SplitOn(s, [c])| == Count(s, c) + 1
    decreases |s|
  {
    if s != [] {
      SplitRuneCount(s[1..], c);
    }
  }

  /** No piece of a split on one rune contains that rune. */
  lemma {:induction false} SplitRunePieces(s: string, c: char)
    ensures forall p :: p in SplitOn(s, [c]) ==> c !in p
    decreases |s|
  {
    if s != [] {
      SplitRunePieces(s[1..], c);
    }
  }

  /** A piece free of the separator rune, then the separator, splits off as the first piece. */
  lemma {:induction false} SplitRuneFirst(x: string, c: char, y: string)
    requires c !in x
    ensures SplitOn(x + [c] + y, [c]) == [x] + SplitOn(y, [c])
    decreases |x|
  {
    if x == [] {
      assert [c] + y == x + [c] + y;
      assert ([c] + y)[1..] == y;
    } else {
      SplitRuneFirst(x[1..], c, y);
      assert (x + [c] + y)[1..] == x[1..] + [c] + y;
      assert x == [x[0]] + x[1..];
    }
  }

  /** Joining separator-free pieces with a one-rune separator and splitting again gives the pieces back. */
  lemma {:induction false} SplitJoinRune(parts: seq<string>, c: char)
    requires parts != [] && forall p :: p in parts ==> c !in p
    ensures SplitOn(Join(parts, [c]), [c]) == parts
    decreases |parts|
  {
    if |parts| == 1 {
      ContainsRune(parts[0], c);
      SplitWithoutSep(parts[0], [c]);
    } else {
      var tail := parts[1..];
      assert forall p :: p in tail ==> p in parts;
      SplitJoinRune(tail, c);
      SplitRuneFirst(parts[0], c, Join(tail, [c]));
      assert parts == [parts[0]] + tail;
    }
  }

  /** strings.Compare: -1, 0 or +1 by lexicographic order. */
  function Compare(a: string, b: string): (c: int)
    ensures c == -1 || c == 0 || c == 1
    ensures c == 0 <==> a == b
    decreases |a|
  {
    if a == [] && b == [] then 0
    else if a == [] then -1
    else if b == [] then 1
    else if a[0] < b[0] then -1
    else if a[0] > b[0] then 1
    else
      assert a == [a[0]] + a[1..] && b == [b[0]] + b[1..];
      Compare(a[1..], b[1..])
  }

  lemma {:induction false} CompareAntisymmetric(a: string, b: string)
    ensures Compare(b, a) == -Compare(a, b)
    decreases |a|
  {
    if a != [] && b != [] && a[0] == b[0] {
      CompareAntisymmetric(a[1..], b[1..]);
    }
  }

  lemma {:induction false} CompareTransitive(a: string, b: string, c: string)
    requires Compare(a, b) <= 0 && Compare(b, c) <= 0
    ensures Compare(a, c) <= 0
    decreases |a|
  {
    if a != [] && b != [] && c != [] && a[0] == b[0] && b[0] == c[0] {
      CompareTransitive(a[1..], b[1..], c[1..]);
    }
  }

  /** unicode.IsSpace: the Latin-1 spaces, then the other White_Space code points. */
  predicate IsSpace(c: char) {
    c == '\t' || c == '\n' || c == '\U{0B}' || c == '\U{0C}' || c == '\r' || c == ' '
    || c == '\U{85}' || c == '\U{A0}' || c == '\U{1680}' || ('\U{2000}' <= c <= '\U{200A}')
    || c == '\U{2028}' || c == '\U{2029}' || c == '\U{202F}' || c == '\U{205F}' || c == '\U{3000}'
  }

  /** Length of the run of non-space runes that starts `s`. */
  function WordLength(s: string): (n: nat)
    ensures n <= |s|
    ensures forall k :: 0 <= k < n ==> !IsSpace(s[k])
    ensures n < |s| ==> IsSpace(s[n])
    decreases |s|
  {
    if s == [] || IsSpace(s[0]) then 0 else 1 + WordLength(s[1..])
  }

  /** strings.Fields: the maximal runs of non-space runes. */
  function Fields(s: string): seq<string>
    decreases |s|
  {
    if s == [] then []
    else if IsSpace(s[0]) then Fields(s[1..])
    else
      var n := WordLength(s);
      [s[..n]] + Fields(s[n..])
  }

  /** The runes of `s` that are not spaces, in order. */
  function NonSpace(s: string): string
    decreases |s|
  {
    if s == [] then [] else (if IsSpace(s[0]) then [] else [s[0]]) + NonSpace(s[1..])
  }

  function Concat(parts: seq<string>): string
  {
    if parts == [] then [] else parts[0] + Concat(parts[1..])
  }

  lemma {:induction false} NonSpaceAppend(a: string, b: string)
    ensures NonSpace(a + b) == NonSpace(a) + NonSpace(b)
    decreases |a|
  {
    if a != [] {
      var head := if IsSpace(a[0]) then [] else [a[0]];
      calc {
        NonSpace(a + b);
        { assert (a + b)[0] == a[0]; assert (a + b)[1..] == a[1..] + b; }
        head + NonSpace(a[1..] + b);
        { NonSpaceAppend(a[1..], b); }
        head + (NonSpace(a[1..]) + NonSpace(b));
        NonSpace(a) + NonSpace(b);
      }
    } else {
      assert a + b == b;
    }
  }

  lemma {:induction false} NonSpaceOfWord(w: string)
    requires forall k :: 0 <= k < |w| ==> !IsSpace(w[k])
    ensures NonSpace(w) == w
    decreases |w|
  {
    if w != [] {
      NonSpaceOfWord(w[1..]);
      assert w == [w[0]] + w[1..];
    }
  }

  /** Every field is non-empty and free of spaces. */
  lemma {:induction false} FieldsAreWords(s: string)
    ensures forall f :: f in Fields(s) ==> f != [] && forall k :: 0 <= k < |f| ==> !IsSpace(f[k])
    decreases |s|
  {
    if s != [] {
      if IsSpace(s[0]) {
        FieldsAreWords(s[1..]);
      } else {
        FieldsAreWords(s[WordLength(s)..]);
      }
    }
  }

  /** Fields loses only the spaces: laid end to end, the fields are `s` with its spaces removed. */
  lemma {:induction false} FieldsConcat(s: string)
    ensures Concat(Fields(s)) == NonSpace(s)
    decreases |s|
  {
    if s == [] {
    } else if IsSpace(s[0]) {
      FieldsConcat(s[1..]);
    } else {
      var n := WordLength(s);
      FieldsConcat(s[n..]);
      assert s == s[..n] + s[n..];
      NonSpaceAppend(s[..n], s[n..]);
      NonSpaceOfWord(s[..n]);
    }
  }

  function TrimLeft(s: string): (t: string)
    ensures |t| <= |s|
    decreases |s|
  {
    if s != [] && IsSpace(s[0]) then TrimLeft(s[1..]) else s
  }

  function TrimRight(s: string): (t: string)
    ensures |t| <= |s|
    decreases |s|
  {
    if s != [] && IsSpace(s[|s| - 1]) then TrimRight(s[..|s| - 1]) else s
  }

  /** strings.TrimSpace: drops the leading and trailing spaces. */
  function TrimSpace(s: string): string
  {
    TrimRight(TrimLeft(s))
  }

  /** A space after a word does not lengthen it. */
  lemma {:induction false} WordLengthSnocSpace(t: string, c: char)
    requires IsSpace(c)
    ensures WordLength(t + [c]) == WordLength(t)
    decreases |t|
  {
    if t != [] && !IsSpace(t[0]) {
      WordLengthSnocSpace(t[1..], c);
      assert (t + [c])[1..] == t[1..] + [c];
    } else if t == [] {
      assert t + [c] == [c];
    }
  }

  /** A trailing space adds no field. */
  lemma {:induction false} FieldsSnocSpace(t: string, c: char)
    requires IsSpace(c)
    ensures Fields(t + [c]) == Fields(t)
    decreases |t|
  {
    var s := t + [c];
    if t == [] {
      assert s == [c] && s[1..] == [];
    } else if IsSpace(t[0]) {
      assert s[0] == t[0] && s[1..] == t[1..] + [c];
      FieldsSnocSpace(t[1..], c);
    } else {
      var n := WordLength(t);
      WordLengthSnocSpace(t, c);
      assert s[0] == t[0] && s[..n] == t[..n] && s[n..] == t[n..] + [c];
      FieldsSnocSpace(t[n..], c);
    }
  }

  lemma {:induction false} FieldsTrimLeft(s: string)
    ensures Fields(TrimLeft(s)) == Fields(s)
    decreases |s|
  {
    if s != [] && IsSpace(s[0]) {
      FieldsTrimLeft(s[1..]);
    }
  }

  lemma {:induction false} FieldsTrimRight(s: string)
    ensures Fields(TrimRight(s)) == Fields(s)
    decreases |s|
  {
    if s != [] && IsSpace(s[|s| - 1]) {
      var t := s[..|s| - 1];
      FieldsTrimRight(t);
      assert s == t + [s[|s| - 1]];
      FieldsSnocSpace(t, s[|s| - 1]);
    }
  }

  /** Trimming changes no field. */
  lemma FieldsTrimSpace(s: string)
    ensures Fields(TrimSpace(s)) == Fields(s)
  {
    FieldsTrimLeft(s);
    FieldsTrimRight(TrimLeft(s));
  }

  /** Trimming adds no rune. */
  lemma {:induction false} TrimSpaceWithin(s: string, c: char)
    requires c !in s
    ensures c !in TrimLeft(s) && c !in TrimRight(s) && c !in TrimSpace(s)
    decreases |s|
  {
    if s != [] {
      TrimSpaceWithin(s[1..], c);
      TrimSpaceWithin(s[..|s| - 1], c);
      TrimRightWithin(TrimLeft(s), c);
    }
  }

  lemma {:induction false} TrimRightWithin(s: string, c: char)
    requires c !in s
    ensures c !in TrimRight(s)
    decreases |s|
  {
    if s != [] {
      TrimRightWithin(s[..|s| - 1], c);
    }
  }
}
