/**
 * The command-line side of the small interactive shell: splitting an input
 * line into the commands of a pipeline, splitting a command into words with
 * `$NAME` substitution, and scanning the words for `<` and `>` redirections.
 * Running the commands, the built-ins and opening the redirection files are
 * not part of this model; the environment is a parameter.
 */
module Shell {
  import Text

  // ---------------------------------------------------------------- words

  /** os.Getenv: the value of `name`, or the empty string when it is unset. */
  function Getenv(env: map<string, string>, name: string): string
  {
    if name in env then env[name] else ""
  }

  /** One word after substitution: `$NAME` becomes the value of NAME, anything else stays. */
  function Expand(env: map<string, string>, word: string): string
  {
    if Text.HasPrefix(word, "$") then Getenv(env, word[1..]) else word
  }

  /** Every word substituted in place. */
  function Substitute(env: map<string, string>, words: seq<string>): seq<string>
  {
    seq(|words|, i requires 0 <= i < |words| => Expand(env, words[i]))
  }

  /** parseCommand: the whitespace-separated words of `cmd`, each `$NAME` replaced by its value. */
  method ParseCommand(env: map<string, string>, cmd: string) returns (args: seq<string>)
    ensures args == Substitute(env, Text.Fields(cmd))
  {
    var words := Text.Fields(cmd);
    args := words;
    var i := 0;
    while i < |args|
      invariant 0 <= i <= |args| == |words|
      invariant forall k :: 0 <= k < i ==> args[k] == Expand(env, words[k])
      invariant forall k :: i <= k < |args| ==> args[k] == words[k]
    {
      var arg := args[i];
      if Text.HasPrefix(arg, "$") {
        var varName := arg[1..];
        args := args[i := Getenv(env, varName)];
      }
      i := i + 1;
    }
  }

  /** Words that do not start with `$` come through unchanged, in order. */
  lemma PlainWordsUnchanged(env: map<string, string>, words: seq<string>)
    requires forall i :: 0 <= i < |words| ==> !Text.HasPrefix(words[i], "$")
    ensures Substitute(env, words) == words
  {
  }

  /**
   * Without `$` words the arguments are exactly the runs of non-space
   * runes of the command: nothing but whitespace is lost, and no
   * argument is empty or holds a space.
   */
  lemma ArgumentsAreWords(env: map<string, string>, cmd: string)
    requires forall i :: 0 <= i < |Text.Fields(cmd)| ==> !Text.HasPrefix(Text.Fields(cmd)[i], "$")
    ensures var args := Substitute(env, Text.Fields(cmd));
      Text.Concat(args) == Text.NonSpace(cmd) &&
      forall i :: 0 <= i < |args| ==> args[i] != [] && forall c :: c in args[i] ==> !Text.IsSpace(c)
  {
    PlainWordsUnchanged(env, Text.Fields(cmd));
    Text.FieldsConcat(cmd);
    Text.FieldsAreWords(cmd);
  }

  /**
   * Substitution happens after the split: a value with spaces stays one
   * argument, an unset variable leaves an empty argument in its place, and
   * a value that itself starts with `$` is not substituted again.
   */
  lemma SubstitutionKeepsPositions(env: map<string, string>, words: seq<string>, i: int)
    requires 0 <= i < |words| && Text.HasPrefix(words[i], "$")
    ensures |Substitute(env, words)| == |words|
    ensures words[i][1..] !in env ==> Substitute(env, words)[i] == ""
    ensures words[i][1..] in env ==> Substitute(env, words)[i] == env[words[i][1..]]
    ensures forall j :: 0 <= j < |words| && j != i && words[j] == words[i] ==>
      Substitute(env, words)[j] == Substitute(env, words)[i]
  {
  }

  /** A value is used literally, even when it names another variable. */
  lemma NoSecondSubstitution()
    ensures Substitute(map["A" := "$B", "B" := "x"], ["echo", "$A"]) == ["echo", "$B"]
  {
    var env := map["A" := "$B", "B" := "x"];
    assert Text.HasPrefix("$A", "$") && "$A"[1..] == "A";
    assert "echo"[..1] == "e";
  }

  // ---------------------------------------------------------- redirections

  /** The arguments left after the redirections are taken out, and the files named. */
  datatype Redirection = Redirection(args: seq<string>, inputFile: string, outputFile: string)

  predicate IsOperator(word: string)
  {
    word == "<" || word == ">"
  }

  /**
   * The scan of handleRedirections from state `acc`: an operator followed
   * by a word takes that word as its file and both are consumed; an
   * operator in last position is dropped; any other word is kept.
   */
  function ScanFrom(acc: Redirection, args: seq<string>): Redirection
    decreases |args|
  {
    if args == [] then acc
    else if args[0] == "<" then
      if |args| > 1 then ScanFrom(acc.(inputFile := args[1]), args[2..]) else acc
    else if args[0] == ">" then
      if |args| > 1 then ScanFrom(acc.(outputFile := args[1]), args[2..]) else acc
    else ScanFrom(acc.(args := acc.args + [args[0]]), args[1..])
  }

  function Scan(args: seq<string>): Redirection
  {
    ScanFrom(Redirection([], "", ""), args)
  }

  /** The argument scan of handleRedirections. */
  method ScanRedirections(args: seq<string>) returns (newArgs: seq<string>, inputFile: string, outputFile: string)
    ensures Redirection(newArgs, inputFile, outputFile) == Scan(args)
  {
    newArgs, inputFile, outputFile := [], "", "";
    var i := 0;
    while i < |args|
      invariant 0 <= i <= |args|
      invariant ScanFrom(Redirection(newArgs, inputFile, outputFile), args[i..]) == Scan(args)
    {
      var arg := args[i];
      if arg == "<" {
        if i + 1 < |args| {
          inputFile := args[i + 1];
          i := i + 1;
        }
      } else if arg == ">" {
        if i + 1 < |args| {
          outputFile := args[i + 1];
          i := i + 1;
        }
      } else {
        newArgs := newArgs + [arg];
      }
      i := i + 1;
    }
  }

  /** The words end with an operator that has no file after it. */
  predicate Dangling(args: seq<string>)
    decreases |args|
  {
    if args == [] then false
    else if IsOperator(args[0]) then |args| == 1 || Dangling(args[2..])
    else Dangling(args[1..])
  }

  /** Once the scan of `a` is settled, the scan of `a + b` goes on from its state. */
  lemma {:induction false} ScanAppend(acc: Redirection, a: seq<string>, b: seq<string>)
    requires !Dangling(a)
    ensures ScanFrom(acc, a + b) == ScanFrom(ScanFrom(acc, a), b)
    ensures Dangling(a + b) == Dangling(b)
    decreases |a|
  {
    if a == [] {
      assert a + b == b;
    } else if IsOperator(a[0]) {
      assert (a + b)[2..] == a[2..] + b;
      if a[0] == "<" {
        ScanAppend(acc.(inputFile := a[1]), a[2..], b);
      } else {
        ScanAppend(acc.(outputFile := a[1]), a[2..], b);
      }
    } else {
      assert (a + b)[1..] == a[1..] + b;
      ScanAppend(acc.(args := acc.args + [a[0]]), a[1..], b);
    }
  }

  /** The last `< file` wins; earlier ones are forgotten. */
  lemma LastInputWins(args: seq<string>, file: string)
    requires !Dangling(args)
    ensures Scan(args + ["<", file]) == Scan(args).(inputFile := file)
    ensures !Dangling(args + ["<", file])
  {
    ScanAppend(Redirection([], "", ""), args, ["<", file]);
  }

  /** The last `> file` wins; earlier ones are forgotten. */
  lemma LastOutputWins(args: seq<string>, file: string)
    requires !Dangling(args)
    ensures Scan(args + [">", file]) == Scan(args).(outputFile := file)
    ensures !Dangling(args + [">", file])
  {
    ScanAppend(Redirection([], "", ""), args, [">", file]);
  }

  /** An operator with nothing after it is dropped without naming a file. */
  lemma TrailingOperatorDropped(args: seq<string>, op: string)
    requires !Dangling(args) && IsOperator(op)
    ensures Scan(args + [op]) == Scan(args)
    ensures Dangling(args + [op])
  {
    ScanAppend(Redirection([], "", ""), args, [op]);
  }

  /** Any other word is kept as an argument, after those kept so far. */
  lemma PlainWordKept(args: seq<string>, word: string)
    requires !Dangling(args) && !IsOperator(word)
    ensures Scan(args + [word]) == Scan(args).(args := Scan(args).args + [word])
    ensures !Dangling(args + [word])
  {
    ScanAppend(Redirection([], "", ""), args, [word]);
  }

  /** The word after an operator is its file even when it is itself an operator. */
  lemma TargetMayBeOperator()
    ensures Scan(["cat", "<", ">", "x"]) == Redirection(["cat", "x"], ">", "")
  {
    assert ["cat", "<", ">", "x"][1..] == ["<", ">", "x"];
    assert ["<", ">", "x"][2..] == ["x"];
  }

  predicate NoOperators(words: seq<string>)
  {
    forall i :: 0 <= i < |words| ==> !IsOperator(words[i])
  }

  /** No operator is left among the arguments. */
  lemma {:induction false} NoOperatorKept(acc: Redirection, args: seq<string>)
    requires NoOperators(acc.args)
    ensures NoOperators(ScanFrom(acc, args).args)
    decreases |args|
  {
    if args == [] {
    } else if IsOperator(args[0]) {
      if |args| > 1 {
        if args[0] == "<" {
          NoOperatorKept(acc.(inputFile := args[1]), args[2..]);
        } else {
          NoOperatorKept(acc.(outputFile := args[1]), args[2..]);
        }
      }
    } else {
      var next := acc.(args := acc.args + [args[0]]);
      assert NoOperators(next.args);
      NoOperatorKept(next, args[1..]);
    }
  }

  /** Words without operators pass through untouched and name no files. */
  lemma {:induction false} NoOperatorsUnchanged(acc: Redirection, args: seq<string>)
    requires NoOperators(args)
    ensures ScanFrom(acc, args) == acc.(args := acc.args + args)
    decreases |args|
  {
    if args == [] {
      assert acc.args + args == acc.args;
    } else {
      NoOperatorsUnchanged(acc.(args := acc.args + [args[0]]), args[1..]);
      assert acc.args + [args[0]] + args[1..] == acc.args + args;
    }
  }

  // -------------------------------------------------------------- pipeline

  /** The arguments of one pipeline segment: trimmed, split into words and substituted. */
  function CommandOf(env: map<string, string>, segment: string): seq<string>
  {
    Substitute(env, Text.Fields(Text.TrimSpace(segment)))
  }

  /** The commands of the segments, in order, segments without words skipped. */
  function Commands(env: map<string, string>, segments: seq<string>): (commands: seq<seq<string>>)
    ensures forall i :: 0 <= i < |commands| ==> commands[i] != []
    ensures |commands| <= |segments|
  {
    if segments == [] then []
    else
      var last := CommandOf(env, segments[|segments| - 1]);
      Commands(env, segments[..|segments| - 1]) + (if last == [] then [] else [last])
  }

  /** An input line: trimmed, skipped when empty, else split at every `|` into commands. */
  function Pipeline(env: map<string, string>, line: string): seq<seq<string>>
  {
    var input := Text.TrimSpace(line);
    if input == "" then [] else Commands(env, Text.Split(input, "|"))
  }

  /**
   * The input handling of main and the argument step of executePipeline:
   * the argument lists of the commands that reach execution, in order.
   */
  method ParsePipeline(env: map<string, string>, line: string) returns (commands: seq<seq<string>>)
    ensures commands == Pipeline(env, line)
  {
    commands := [];
    var input := Text.TrimSpace(line);
    if input == "" {
      return;
    }
    var segments := Text.Split(input, "|");
    var i := 0;
    while i < |segments|
      invariant 0 <= i <= |segments|
      invariant commands == Commands(env, segments[..i])
    {
      assert segments[..i + 1][..i] == segments[..i];
      var cmd := Text.TrimSpace(segments[i]);
      var args := ParseCommand(env, cmd);
      if |args| != 0 {
        commands := commands + [args];
      }
      i := i + 1;
    }
    assert segments[..i] == segments;
  }

  /** The commands of consecutive runs of segments follow one another. */
  lemma {:induction false} CommandsAppend(env: map<string, string>, a: seq<string>, b: seq<string>)
    ensures Commands(env, a + b) == Commands(env, a) + Commands(env, b)
    decreases |b|
  {
    if b == [] {
      assert a + b == a;
    } else {
      var front, last := b[..|b| - 1], CommandOf(env, b[|b| - 1]);
      var tail := if last == [] then [] else [last];
      CommandsAppend(env, a, front);
      assert (a + b)[..|a + b| - 1] == a + front && (a + b)[|a + b| - 1] == b[|b| - 1];
      calc {
        Commands(env, a + b);
        Commands(env, a + front) + tail;
        Commands(env, a) + Commands(env, front) + tail;
        Commands(env, a) + (Commands(env, front) + tail);
      }
    }
  }

  /** A segment of nothing but spaces runs nothing. */
  lemma BlankSegmentSkipped(env: map<string, string>, segment: string)
    requires Text.Fields(segment) == []
    ensures Commands(env, [segment]) == []
  {
    Text.FieldsTrimSpace(segment);
  }

  /** The text before the first `|` is the first command, the rest is a pipeline of its own. */
  lemma FirstPipe(env: map<string, string>, x: string, y: string)
    requires '|' !in x
    ensures Commands(env, Text.Split(x + "|" + y, "|"))
         == Commands(env, [x]) + Commands(env, Text.Split(y, "|"))
  {
    Text.SplitRuneFirst(x, '|', y);
    CommandsAppend(env, [x], Text.SplitOn(y, "|"));
  }

  /**
   * A line without `|` is a single command: its words, substituted, or
   * nothing when it has none; leading and trailing spaces do not matter.
   */
  lemma SingleCommand(env: map<string, string>, line: string)
    requires '|' !in line
    ensures Pipeline(env, line)
         == if Text.Fields(line) == [] then [] else [Substitute(env, Text.Fields(line))]
  {
    var input := Text.TrimSpace(line);
    Text.FieldsTrimSpace(line);
    if input != "" {
      Text.TrimSpaceWithin(line, '|');
      Text.ContainsRune(input, '|');
      Text.SplitWithoutSep(input, "|");
      Text.FieldsTrimSpace(input);
      assert Text.Split(input, "|") == [input];
      assert [input][..0] == [];
    }
  }

  /** A line with `n` pipes runs at most `n + 1` commands. */
  lemma CommandCount(env: map<string, string>, line: string)
    ensures |Pipeline(env, line)| <= Text.Count(Text.TrimSpace(line), '|') + 1
  {
    Text.SplitRuneCount(Text.TrimSpace(line), '|');
  }
}
