/**
 * The anagram finder: every word is lower-cased, words whose runes sort to
 * the same sequence are grouped under the first word seen with that
 * sequence, and every group that received more than one word is returned
 * sorted and without repeats.
 *
 * The lower-casing (strings.ToLower) is a parameter; Go's map iteration
 * order is left open by picking the next key arbitrarily.
 */
module Anagrams {
  import Sorting
  import Text

  // --------------------------------------------------------------- orders

  function RuneCompare(a: char, b: char): int
  {
    if a < b then -1 else if a > b then 1 else 0
  }

  /** The order sort.Strings puts one-rune strings in: code-point order of the runes. */
  function RuneOrder(): (char, char) -> int
  {
    (a: char, b: char) => RuneCompare(a, b)
  }

  /** The order of sort.Strings on words. */
  function WordOrder(): (string, string) -> int
  {
    (a: string, b: string) => Text.Compare(a, b)
  }

  lemma RuneOrderTotal(u: seq<char>)
    ensures Sorting.WeakOrder(RuneOrder(), u)
    ensures forall a, b :: RuneOrder()(a, b) == 0 ==> a == b
  {
    var cmp := RuneOrder();
    forall a, b, c | a in u && b in u && c in u
      ensures Sorting.Chain(cmp, a, b, c)
    {
    }
  }

  lemma WordOrderTotal(u: seq<string>)
    ensures Sorting.WeakOrder(WordOrder(), u)
    ensures forall a, b :: WordOrder()(a, b) == 0 ==> a == b
  {
    var cmp := WordOrder();
    forall a, b | a in u && b in u
      ensures cmp(a, b) < 0 <==> cmp(b, a) > 0
    {
      Text.CompareAntisymmetric(a, b);
    }
    forall a, b, c | a in u && b in u && c in u
      ensures Sorting.Chain(cmp, a, b, c)
    {
      if cmp(a, b) <= 0 && cmp(b, c) <= 0 {
        Text.CompareTransitive(a, b, c);
      }
    }
  }

  // ------------------------------------------------------------ signatures

  /**
   * The sorted form of a word: split into runes, sorted and joined back. It
   * names the word's anagram class.
   */
  function Signature(w: string): (sig: string)
    ensures multiset(sig) == multiset(w)
  {
    Sorting.StableSort(RuneOrder(), w)
  }

  lemma SignatureSorted(w: string)
    ensures forall i, j :: 0 <= i < j < |Signature(w)| ==> Signature(w)[i] <= Signature(w)[j]
  {
    RuneOrderTotal(w);
    Sorting.SortSorted(RuneOrder(), w);
  }

  /** Two words have the same sorted form exactly when they are anagrams: the same runes, counted with repeats. */
  lemma SameSignature(a: string, b: string)
    ensures Signature(a) == Signature(b) <==> multiset(a) == multiset(b)
  {
    if multiset(a) == multiset(b) {
      var cmp := RuneOrder();
      var u := a + b;
      RuneOrderTotal(u);
      RuneOrderTotal(a);
      RuneOrderTotal(b);
      Sorting.SortSorted(cmp, a);
      Sorting.SortSorted(cmp, b);
      assert Sorting.Within(Signature(a), u) by {
        assert forall x :: x in Signature(a) ==> x in multiset(a);
      }
      assert Sorting.Within(Signature(b), u) by {
        assert forall x :: x in Signature(b) ==> x in multiset(b);
      }
      Sorting.SortedUnique(cmp, u, Signature(a), Signature(b));
    }
  }

  // ----------------------------------------------------------- word lists

  /** sort.Strings on a list of words. */
  function SortWords(s: seq<string>): (r: seq<string>)
    ensures multiset(r) == multiset(s)
  {
    Sorting.StableSort(WordOrder(), s)
  }

  lemma SortWordsSorted(s: seq<string>)
    ensures forall i, j :: 0 <= i < j < |SortWords(s)| ==> Text.Compare(SortWords(s)[i], SortWords(s)[j]) <= 0
  {
    WordOrderTotal(s);
    Sorting.SortSorted(WordOrder(), s);
  }

  /** removeDuplicates as written: a word is kept when it differs from the word before it in the input. */
  function DropRepeats(s: seq<string>): (r: seq<string>)
    ensures |r| <= |s|
  {
    if |s| <= 1 then s
    else DropRepeats(s[..|s| - 1]) + (if s[|s| - 1] != s[|s| - 2] then [s[|s| - 1]] else [])
  }

  /** Dropping repeats keeps every word that occurs, and no other. */
  lemma {:induction false} DropRepeatsElements(s: seq<string>)
    ensures forall x :: x in DropRepeats(s) <==> x in s
    decreases |s|
  {
    if |s| > 1 {
      var front := s[..|s| - 1];
      DropRepeatsElements(front);
      assert s == front + [s[|s| - 1]];
      assert s[|s| - 2] in front;
    }
  }

  /** On sorted words the result is strictly ascending, so it holds every distinct word once, in order. */
  lemma {:induction false} DropRepeatsAscending(s: seq<string>)
    requires forall i, j :: 0 <= i < j < |s| ==> Text.Compare(s[i], s[j]) <= 0
    ensures forall i, j :: 0 <= i < j < |DropRepeats(s)| ==> Text.Compare(DropRepeats(s)[i], DropRepeats(s)[j]) < 0
    decreases |s|
  {
    if |s| > 1 {
      var front := s[..|s| - 1];
      var last, prev := s[|s| - 1], s[|s| - 2];
      DropRepeatsAscending(front);
      DropRepeatsElements(front);
      var d := DropRepeats(front);
      if last != prev {
        forall x | x in d
          ensures Text.Compare(x, last) < 0
        {
          var k :| 0 <= k < |front| && front[k] == x;
          assert Text.Compare(x, last) <= 0;
          if x == last {
            assert Text.Compare(prev, last) <= 0;
            if k < |s| - 2 {
              assert Text.Compare(last, prev) <= 0;
            }
            Text.CompareAntisymmetric(prev, last);
            assert false;
          }
        }
        var r := d + [last];
        forall i, j | 0 <= i < j < |r|
          ensures Text.Compare(r[i], r[j]) < 0
        {
          if j == |d| {
            assert r[i] in d;
          }
        }
      }
    }
  }

  /**
   * removeDuplicates: starts from the first word and appends each word that
   * differs from the one before it; an empty list is returned as it is.
   */
  method RemoveDuplicates(words: seq<string>) returns (unique: seq<string>)
    ensures unique == DropRepeats(words)
  {
    if |words| == 0 {
      return words;
    }
    unique := [words[0]];
    var i := 1;
    while i < |words|
      invariant 1 <= i <= |words|
      invariant unique == DropRepeats(words[..i])
    {
      assert words[..i + 1][..i] == words[..i];
      if words[i] != words[i - 1] {
        unique := unique + [words[i]];
      }
      i := i + 1;
    }
    assert words[..|words|] == words;
  }

  // --------------------------------------------------------------- groups

  /** The two maps of findAnagrams: sorted form to first word, and first word to the words of its class. */
  datatype Groups = Groups(keyOf: map<string, string>, members: map<string, seq<string>>)

  /** A missing key reads as the empty list, as a nil slice does in Go. */
  function Lookup(m: map<string, seq<string>>, k: string): seq<string>
  {
    if k in m then m[k] else []
  }

  /** One round of the first loop, for a word already lower-cased. */
  function AddWord(g: Groups, w: string): Groups
  {
    var sig := Signature(w);
    if sig in g.keyOf then
      var fst := g.keyOf[sig];
      g.(members := g.members[fst := Lookup(g.members, fst) + [w]])
    else
      Groups(g.keyOf[sig := w], g.members[w := [w]])
  }

  /** The maps after the first loop has seen the (lower-cased) words `ws`. */
  function Group(ws: seq<string>): Groups
  {
    if ws == [] then Groups(map[], map[]) else AddWord(Group(ws[..|ws| - 1]), ws[|ws| - 1])
  }

  /** The words after strings.ToLower. */
  function Lowered(toLower: string -> string, words: seq<string>): seq<string>
  {
    seq(|words|, i requires 0 <= i < |words| => toLower(words[i]))
  }

  /** The words of `ws` with sorted form `sig`, in input order, repeats included. */
  function Class(ws: seq<string>, sig: string): (c: seq<string>)
    ensures forall x :: x in c <==> x in ws && Signature(x) == sig
  {
    if ws == [] then []
    else
      var front := ws[..|ws| - 1];
      assert ws == front + [ws[|ws| - 1]];
      Class(front, sig) + (if Signature(ws[|ws| - 1]) == sig then [ws[|ws| - 1]] else [])
  }

  /** `k` is the first word of its class. */
  predicate Leads(ws: seq<string>, k: string)
  {
    var c := Class(ws, Signature(k));
    c != [] && c[0] == k
  }

  lemma ClassSnoc(ws: seq<string>, w: string, sig: string)
    ensures Class(ws + [w], sig) == Class(ws, sig) + (if Signature(w) == sig then [w] else [])
  {
    assert (ws + [w])[..|ws|] == ws;
  }

  /** What the maps hold, said without the loop: classes by sorted form, each under its first word. */
  ghost predicate Shaped(ws: seq<string>, g: Groups)
  {
    (forall sig :: sig in g.keyOf <==> Class(ws, sig) != [])
    && (forall sig :: sig in g.keyOf ==> g.keyOf[sig] == Class(ws, sig)[0])
    && (forall k :: k in g.members <==> Leads(ws, k))
    && (forall k :: k in g.members ==> g.members[k] == Class(ws, Signature(k)))
  }

  /** One more word leads its class only when the class had no word yet. */
  lemma LeadsSnoc(ws: seq<string>, w: string, k: string)
    ensures Leads(ws + [w], k) <==> Leads(ws, k) || (k == w && Class(ws, Signature(w)) == [])
  {
    ClassSnoc(ws, w, Signature(k));
  }

  /** Two words that lead classes with the same sorted form are the same word. */
  lemma LeaderUnique(ws: seq<string>, k1: string, k2: string)
    requires Leads(ws, k1) && Leads(ws, k2) && Signature(k1) == Signature(k2)
    ensures k1 == k2
  {
  }

  /** A word of a class that has been seen joins the list of the class's first word. */
  lemma JoinClass(ws: seq<string>, g: Groups, w: string)
    requires Shaped(ws, g) && Signature(w) in g.keyOf
    ensures Shaped(ws + [w], AddWord(g, w))
  {
    var sig := Signature(w);
    var fst := g.keyOf[sig];
    var c := Class(ws, sig);
    assert fst == c[0] && c != [];
    assert Signature(fst) == sig;
    assert Leads(ws, fst);
    var g' := AddWord(g, w);
    var ws' := ws + [w];
    assert g'.keyOf == g.keyOf;
    assert g'.members == g.members[fst := c + [w]];
    forall s
      ensures s in g'.keyOf <==> Class(ws', s) != []
      ensures s in g'.keyOf ==> g'.keyOf[s] == Class(ws', s)[0]
    {
      ClassSnoc(ws, w, s);
    }
    forall k
      ensures k in g'.members <==> Leads(ws', k)
    {
      LeadsSnoc(ws, w, k);
    }
    forall k | k in g'.members
      ensures g'.members[k] == Class(ws', Signature(k))
    {
      ClassSnoc(ws, w, Signature(k));
      if Signature(k) == sig {
        LeaderUnique(ws, k, fst);
      }
    }
  }

  /** A word of a class not seen before starts a list of its own and becomes its first word. */
  lemma StartClass(ws: seq<string>, g: Groups, w: string)
    requires Shaped(ws, g) && Signature(w) !in g.keyOf
    ensures Shaped(ws + [w], AddWord(g, w))
  {
    var sig := Signature(w);
    assert Class(ws, sig) == [];
    assert !Leads(ws, w);
    var g' := AddWord(g, w);
    var ws' := ws + [w];
    assert g'.members == g.members[w := [w]];
    forall s
      ensures s in g'.keyOf <==> Class(ws', s) != []
      ensures s in g'.keyOf ==> g'.keyOf[s] == Class(ws', s)[0]
    {
      ClassSnoc(ws, w, s);
    }
    forall k
      ensures k in g'.members <==> Leads(ws', k)
    {
      LeadsSnoc(ws, w, k);
    }
    forall k | k in g'.members
      ensures g'.members[k] == Class(ws', Signature(k))
    {
      ClassSnoc(ws, w, Signature(k));
    }
  }

  /** The first loop builds exactly the classes of the words seen, each under its first word. */
  lemma {:induction false} GroupShaped(ws: seq<string>)
    ensures Shaped(ws, Group(ws))
    decreases |ws|
  {
    if ws != [] {
      var front, w := ws[..|ws| - 1], ws[|ws| - 1];
      GroupShaped(front);
      assert ws == front + [w];
      if Signature(w) in Group(front).keyOf {
        JoinClass(front, Group(front), w);
      } else {
        StartClass(front, Group(front), w);
      }
    }
  }

  // --------------------------------------------------------------- result

  /** The second loop, after it has handled the keys in `done`: every list of more than one word, sorted and without repeats. */
  function Kept(m: map<string, seq<string>>, done: set<string>): map<string, seq<string>>
  {
    map k | k in done && k in m && |m[k]| > 1 :: DropRepeats(SortWords(m[k]))
  }

  /** What findAnagrams returns. */
  function AnagramSets(toLower: string -> string, words: seq<string>): map<string, seq<string>>
  {
    var m := Group(Lowered(toLower, words)).members;
    Kept(m, m.Keys)
  }

  /**
   * A result key is the first lower-cased word of its class, kept exactly
   * when the class received more than one word, repeats counted; its set is
   * the class sorted and without repeats.
   */
  lemma ResultShape(toLower: string -> string, words: seq<string>, k: string)
    ensures var ws := Lowered(toLower, words);
      k in AnagramSets(toLower, words) <==> Leads(ws, k) && |Class(ws, Signature(k))| > 1
    ensures var ws := Lowered(toLower, words);
      k in AnagramSets(toLower, words) ==> AnagramSets(toLower, words)[k] == DropRepeats(SortWords(Class(ws, Signature(k))))
  {
    GroupShaped(Lowered(toLower, words));
  }

  /** The first word of a non-empty class is the first word, in input order, with that sorted form. */
  lemma {:induction false} ClassFirst(ws: seq<string>, sig: string) returns (i: nat)
    requires Class(ws, sig) != []
    ensures i < |ws| && ws[i] == Class(ws, sig)[0]
    ensures forall j :: 0 <= j < i ==> Signature(ws[j]) != sig
    decreases |ws|
  {
    var front, w := ws[..|ws| - 1], ws[|ws| - 1];
    ClassSnoc(front, w, sig);
    assert ws == front + [w];
    if Class(front, sig) != [] {
      i := ClassFirst(front, sig);
      assert ws[i] == front[i];
      assert forall j :: 0 <= j < i ==> ws[j] == front[j];
    } else {
      i := |ws| - 1;
      forall j | 0 <= j < i
        ensures Signature(ws[j]) != sig
      {
        assert ws[j] in front;
      }
    }
  }

  /** A word is among the lower-cased words exactly when it is some input word lower-cased. */
  lemma InLowered(toLower: string -> string, words: seq<string>, x: string)
    ensures x in Lowered(toLower, words) <==> exists i :: 0 <= i < |words| && toLower(words[i]) == x
  {
    var ws := Lowered(toLower, words);
    if x in ws {
      var i :| 0 <= i < |ws| && ws[i] == x;
      assert toLower(words[i]) == x;
    }
    if i :| 0 <= i < |words| && toLower(words[i]) == x {
      assert ws[i] == x;
    }
  }

  /**
   * Every key is the first lower-cased input word with its runes, and it
   * belongs to its own set.
   */
  lemma KeyIsFirstWord(toLower: string -> string, words: seq<string>, k: string)
    requires k in AnagramSets(toLower, words)
    ensures k in AnagramSets(toLower, words)[k]
    ensures exists i :: 0 <= i < |words| && toLower(words[i]) == k
                     && forall j :: 0 <= j < i ==> multiset(toLower(words[j])) != multiset(k)
  {
    var ws := Lowered(toLower, words);
    ResultShape(toLower, words, k);
    var c := Class(ws, Signature(k));
    DropRepeatsElements(SortWords(c));
    assert k in multiset(SortWords(c));
    var i := ClassFirst(ws, Signature(k));
    forall j | 0 <= j < i
      ensures multiset(toLower(words[j])) != multiset(k)
    {
      SameSignature(ws[j], k);
    }
    assert toLower(words[i]) == k;
  }

  /** The set under a key is the key's class, as a set of words. */
  lemma SetIsClass(toLower: string -> string, words: seq<string>, k: string, x: string)
    requires k in AnagramSets(toLower, words)
    ensures x in AnagramSets(toLower, words)[k] <==> x in Lowered(toLower, words) && Signature(x) == Signature(k)
  {
    var ws := Lowered(toLower, words);
    ResultShape(toLower, words, k);
    var c := Class(ws, Signature(k));
    DropRepeatsElements(SortWords(c));
    assert x in SortWords(c) <==> x in multiset(c);
  }

  /**
   * The set under a key holds exactly the lower-cased input words that are
   * anagrams of the key: two words share a set exactly when they have the same runes.
   */
  lemma SetMembers(toLower: string -> string, words: seq<string>, k: string, x: string)
    requires k in AnagramSets(toLower, words)
    ensures x in AnagramSets(toLower, words)[k]
      <==> (exists i :: 0 <= i < |words| && toLower(words[i]) == x) && multiset(x) == multiset(k)
  {
    SetIsClass(toLower, words, k, x);
    SameSignature(x, k);
    InLowered(toLower, words, x);
  }

  /** Every set is strictly ascending: sorted, and no word twice. */
  lemma SetsAscending(toLower: string -> string, words: seq<string>, k: string)
    requires k in AnagramSets(toLower, words)
    ensures var r := AnagramSets(toLower, words)[k];
      forall i, j :: 0 <= i < j < |r| ==> Text.Compare(r[i], r[j]) < 0
  {
    var ws := Lowered(toLower, words);
    ResultShape(toLower, words, k);
    var c := Class(ws, Signature(k));
    SortWordsSorted(c);
    DropRepeatsAscending(SortWords(c));
  }

  /** A word repeated with no other anagram still forms a group, of that one word. */
  lemma RepeatedWordAlone(toLower: string -> string, words: seq<string>, k: string)
    requires k in AnagramSets(toLower, words)
    requires forall i :: 0 <= i < |words| && multiset(toLower(words[i])) == multiset(k) ==> toLower(words[i]) == k
    ensures AnagramSets(toLower, words)[k] == [k]
  {
    var r := AnagramSets(toLower, words)[k];
    SetsAscending(toLower, words, k);
    KeyIsFirstWord(toLower, words, k);
    forall x | x in r
      ensures x == k
    {
      SetMembers(toLower, words, k, x);
      var i :| 0 <= i < |words| && toLower(words[i]) == x;
    }
    OnlyWord(r, k);
  }

  /** A strictly ascending list in which every word is `k`, and `k` occurs, is just `k`. */
  lemma OnlyWord(r: seq<string>, k: string)
    requires k in r && forall x :: x in r ==> x == k
    requires forall i, j :: 0 <= i < j < |r| ==> Text.Compare(r[i], r[j]) < 0
    ensures r == [k]
  {
    if |r| > 1 {
      FirstTwo(r);
      assert false;
    }
  }

  lemma FirstTwo(r: seq<string>)
    ensures |r| >= 2 ==> r[0] in r && r[1] in r && (Text.Compare(r[0], r[1]) < 0 ==> r[0] != r[1])
  {
  }

  /** The second loop's step: handling one more key adds its sorted, repeat-free list when it has more than one word. */
  lemma KeptStep(m: map<string, seq<string>>, done: set<string>, key: string)
    requires key in m
    ensures Kept(m, done + {key})
      == if |m[key]| > 1 then Kept(m, done)[key := DropRepeats(SortWords(m[key]))] else Kept(m, done)
  {
  }

  lemma GroupSnoc(ws: seq<string>, w: string)
    ensures Group(ws + [w]) == AddWord(Group(ws), w)
  {
    assert (ws + [w])[..|ws|] == ws;
  }

  /** The first loop of findAnagrams: the two maps, filled word by word. */
  method GroupWords(toLower: string -> string, words: seq<string>)
    returns (keyMp: map<string, string>, anagramMp: map<string, seq<string>>)
    ensures Groups(keyMp, anagramMp) == Group(Lowered(toLower, words))
  {
    anagramMp := map[];
    keyMp := map[];
    var i := 0;
    while i < |words|
      invariant 0 <= i <= |words|
      invariant Groups(keyMp, anagramMp) == Group(Lowered(toLower, words[..i]))
    {
      var finalWord := toLower(words[i]);
      var sorted := Signature(finalWord);
      assert Lowered(toLower, words[..i + 1]) == Lowered(toLower, words[..i]) + [finalWord];
      GroupSnoc(Lowered(toLower, words[..i]), finalWord);
      if sorted in keyMp {
        var fst := keyMp[sorted];
        anagramMp := anagramMp[fst := Lookup(anagramMp, fst) + [finalWord]];
      } else {
        keyMp := keyMp[sorted := finalWord];
        anagramMp := anagramMp[finalWord := [finalWord]];
      }
      i := i + 1;
    }
    assert words[..|words|] == words;
  }

  /**
   * The second loop of findAnagrams: the groups are visited in an arbitrary
   * order, and those with more than one word are kept, sorted and without repeats.
   */
  method KeepGroups(anagramMp: map<string, seq<string>>) returns (result: map<string, seq<string>>)
    ensures result == Kept(anagramMp, anagramMp.Keys)
  {
    result := map[];
    var keys := anagramMp.Keys;
    while keys != {}
      invariant keys <= anagramMp.Keys
      invariant result == Kept(anagramMp, anagramMp.Keys - keys)
      decreases |keys|
    {
      var key :| key in keys;
      var strArr := anagramMp[key];
      ghost var done := anagramMp.Keys - keys;
      KeptStep(anagramMp, done, key);
      if |strArr| > 1 {
        strArr := SortWords(strArr);
        var uniqueWords := RemoveDuplicates(strArr);
        result := result[key := uniqueWords];
      }
      keys := keys - {key};
      assert anagramMp.Keys - keys == done + {key};
    }
  }

  /** findAnagrams: the groups of anagrams among the lower-cased words. */
  method FindAnagrams(toLower: string -> string, words: seq<string>) returns (result: map<string, seq<string>>)
    ensures result == AnagramSets(toLower, words)
  {
    var keyMp, anagramMp := GroupWords(toLower, words);
    result := KeepGroups(anagramMp);
  }
}
