/** The command interpreter of Parser.java as functions: how a script line
    becomes a command, which branch of `operate_BST` a command takes, and the
    catalog and output the commands leave behind. */
module Commands {
  import opened Wrappers
  import opened Text
  import opened Movies
  import opened Csv
  import opened Seqs

  /** What the parser reaches outside its own code. The files `loadCsv`
      opens, `Double.parseDouble` (None when it throws), and the BST's
      `search` and `toString`. BST.java is not part of this model, so the
      catalog is the sequence of movies inserted so far and the two queries
      are unspecified functions of it. */
  datatype Env = Env(
    files: string -> CsvFile,
    parseDouble: string -> Option<Double>,
    search: (seq<Movie>, Movie) -> bool,
    render: seq<Movie> -> string)

  /** The parser's state: the movies inserted into `mybst`, in insertion
      order, and the lines appended to output.txt. */
  datatype State = State(catalog: seq<Movie>, log: seq<string>)

  const InvalidCommand := "Invalid Command"
  const SearchFailed := "search failed"

  // ----------------------------------------------------------- process

  /** A script line as `process` turns it into a command: trimmed, skipped
      when blank, whitespace runs collapsed to one space, split on spaces. */
  function Tokenize(line: string): Option<seq<string>>
  {
    var t := Trim(line);
    if t == [] then None else Some(Split(Collapse(t), Space))
  }

  // -------------------------------------------------------- operate_BST

  /** The branch `operate_BST` takes. */
  datatype Action = Ignore | LoadCsv(path: string) | Print | Search(title: string) | Invalid

  /** The action is the first token lower-cased; `csv` and `search` need a
      second token, and `search` looks for that token trimmed. */
  function Decide(command: seq<string>): Action
  {
    if |command| == 0 then Ignore
    else
      var action := ToLower(command[0]);
      if action == "csv" then
        if |command| < 2 then Invalid else LoadCsv(command[1])
      else if action == "print" then Print
      else if action == "search" then
        if |command| < 2 then Invalid else Search(Trim(command[1]))
      else Invalid
  }

  /** The line `search` writes: the probe carries the title and rating 0.0. */
  function SearchLine(env: Env, catalog: seq<Movie>, title: string): string
  {
    if env.search(catalog, Movie(title, PositiveZero)) then "found " + title else SearchFailed
  }

  /** The state after `operate_BST(command)`. */
  function Step(env: Env, s: State, command: seq<string>): State
  {
    match Decide(command)
    case Ignore => s
    case Invalid => s.(log := s.log + [InvalidCommand])
    case Print => s.(log := s.log + [env.render(s.catalog)])
    case Search(title) => s.(log := s.log + [SearchLine(env, s.catalog, title)])
    case LoadCsv(path) =>
      var r := Load(env.files(path), path, env.parseDouble);
      State(s.catalog + r.inserted, s.log + [r.message])
  }

  /** The state after one line of the script. */
  function ExecLine(env: Env, s: State, line: string): State
  {
    match Tokenize(line)
    case None => s
    case Some(command) => Step(env, s, command)
  }

  /** The state after the whole script, line by line in order. */
  function Run(env: Env, s: State, script: seq<string>): State
  {
    if script == [] then s
    else ExecLine(env, Run(env, s, script[..|script| - 1]), script[|script| - 1])
  }

  /** Number of script lines that are not blank. */
  function CommandCount(script: seq<string>): nat
  {
    if script == [] then 0
    else CommandCount(script[..|script| - 1]) + if Tokenize(script[|script| - 1]).Some? then 1 else 0
  }

  // ------------------------------------------------------------- lemmas

  /** A blank line gives no command. Any other line gives non-empty tokens
      free of whitespace which, joined by single spaces, are the trimmed line
      with its whitespace runs collapsed. */
  lemma TokenizeLine(line: string)
    ensures Tokenize(line).None? <==> forall i | 0 <= i < |line| :: IsTrimmable(line[i])
    ensures Tokenize(line).Some? ==>
      var tokens := Tokenize(line).value;
      |tokens| > 0 &&
      (forall tok | tok in tokens :: tok != [] && forall j | 0 <= j < |tok| :: !IsSpace(tok[j])) &&
      Join(tokens, ' ') == Collapse(Trim(line))
  {
    var t := Trim(line);
    TrimShape(line);
    if t != [] {
      SplitCollapsed(t);
    }
  }

  /** Every command writes exactly one line and keeps what was written
      before; only the empty token list writes nothing. */
  lemma StepWritesOneLine(env: Env, s: State, command: seq<string>)
    ensures |command| == 0 ==> Step(env, s, command) == s
    ensures |command| > 0 ==>
      |Step(env, s, command).log| == |s.log| + 1 &&
      Step(env, s, command).log[..|s.log|] == s.log
  {
  }

  /** Only `csv` changes the catalog, and only by appending. */
  lemma StepCatalog(env: Env, s: State, command: seq<string>)
    ensures Step(env, s, command).catalog[..|s.catalog|] == s.catalog
    ensures !Decide(command).LoadCsv? ==> Step(env, s, command).catalog == s.catalog
  {
  }

  /** An unknown action, or `csv` or `search` without an argument, writes
      exactly "Invalid Command" and changes nothing else. */
  lemma InvalidCommands(env: Env, s: State, command: seq<string>)
    requires |command| > 0
    requires var a := ToLower(command[0]);
      (a != "csv" && a != "print" && a != "search") ||
      ((a == "csv" || a == "search") && |command| < 2)
    ensures Step(env, s, command) == State(s.catalog, s.log + ["Invalid Command"])
  {
  }

  /** The action is matched without regard to the case of its letters. */
  lemma ActionIgnoresCase(env: Env, s: State, a: string, b: string, args: seq<string>)
    requires ToLower(a) == ToLower(b)
    ensures Step(env, s, [a] + args) == Step(env, s, [b] + args)
  {
  }

  /** `search` looks only at its first argument, trimmed, probes with rating
      0.0, writes "found <title>" or "search failed", and leaves the catalog
      alone. */
  lemma SearchCommand(env: Env, s: State, command: seq<string>)
    requires |command| >= 2 && ToLower(command[0]) == "search"
    ensures var title := Trim(command[1]);
      Step(env, s, command) ==
        State(s.catalog, s.log + [if env.search(s.catalog, Movie(title, PositiveZero))
                                  then "found " + title else "search failed"])
    ensures Step(env, s, command) == Step(env, s, command[..2])
  {
  }

  /** `print` writes the catalog's rendering, ignores any further tokens and
      leaves the catalog alone. */
  lemma PrintCommand(env: Env, s: State, command: seq<string>)
    requires |command| >= 1 && ToLower(command[0]) == "print"
    ensures Step(env, s, command) == State(s.catalog, s.log + [env.render(s.catalog)])
    ensures Step(env, s, command) == Step(env, s, command[..1])
  {
  }

  /** `csv <path>` inserts the kept rows of the file after the header, in
      file order, and writes the summary or the read error; rows read before
      a read error stay inserted. Further tokens are ignored. */
  lemma CsvCommand(env: Env, s: State, command: seq<string>)
    requires |command| >= 2 && ToLower(command[0]) == "csv"
    ensures var file := env.files(command[1]);
      var rows := if file.lines == [] then [] else file.lines[1..];
      Step(env, s, command) ==
        State(s.catalog + Accepted(rows, env.parseDouble),
              s.log + [if file.end.Eof? then "CSV Loaded: " + command[1]
                       else "Error loading CSV: " + file.end.message])
    ensures var file := env.files(command[1]);
      var rows := if file.lines == [] then [] else file.lines[1..];
      |Step(env, s, command).catalog| == |s.catalog| + SomeCount(rows, RowParser(env.parseDouble))
  {
    var file := env.files(command[1]);
    FilterMapLength(if file.lines == [] then [] else file.lines[1..], RowParser(env.parseDouble));
  }

  /** Running `a` then `b` is running `a + b`. */
  lemma {:induction false} RunAppend(env: Env, s: State, a: seq<string>, b: seq<string>)
    ensures Run(env, s, a + b) == Run(env, Run(env, s, a), b)
  {
    if b == [] {
      assert a + b == a;
    } else {
      var b' := b[..|b| - 1];
      assert (a + b)[..|a + b| - 1] == a + b';
      assert (a + b)[|a + b| - 1] == b[|b| - 1];
      RunAppend(env, s, a, b');
    }
  }

  /** One script line writes one output line if it is not blank and none
      if it is, and keeps what was there. */
  lemma ExecLineGrows(env: Env, s: State, line: string)
    ensures |ExecLine(env, s, line).log| == |s.log| + if Tokenize(line).Some? then 1 else 0
    ensures ExecLine(env, s, line).log[..|s.log|] == s.log
    ensures |s.catalog| <= |ExecLine(env, s, line).catalog|
    ensures ExecLine(env, s, line).catalog[..|s.catalog|] == s.catalog
  {
    match Tokenize(line)
    case None =>
    case Some(command) =>
      TokenizeLine(line);
      StepWritesOneLine(env, s, command);
      StepCatalog(env, s, command);
  }

  /** A script writes one output line per non-blank line, and never removes
      a line already written or a movie already inserted. */
  lemma {:induction false} RunLog(env: Env, s: State, script: seq<string>)
    ensures |Run(env, s, script).log| == |s.log| + CommandCount(script)
    ensures Run(env, s, script).log[..|s.log|] == s.log
    ensures |s.catalog| <= |Run(env, s, script).catalog|
    ensures Run(env, s, script).catalog[..|s.catalog|] == s.catalog
  {
    if script != [] {
      var init, last := script[..|script| - 1], script[|script| - 1];
      var mid := Run(env, s, init);
      RunLog(env, s, init);
      ExecLineGrows(env, mid, last);
      var r := ExecLine(env, mid, last);
      assert Run(env, s, script) == r;
      assert r.log[..|s.log|] == r.log[..|mid.log|][..|s.log|];
      assert r.catalog[..|s.catalog|] == r.catalog[..|mid.catalog|][..|s.catalog|];
    }
  }

  /** A script with no `csv` command leaves the catalog as it was. */
  lemma {:induction false} RunWithoutCsv(env: Env, s: State, script: seq<string>)
    requires forall i | 0 <= i < |script| ::
      Tokenize(script[i]).None? || !Decide(Tokenize(script[i]).value).LoadCsv?
    ensures Run(env, s, script).catalog == s.catalog
  {
    if script != [] {
      var init := script[..|script| - 1];
      forall i | 0 <= i < |init|
        ensures Tokenize(init[i]).None? || !Decide(Tokenize(init[i]).value).LoadCsv?
      {
        assert init[i] == script[i];
      }
      RunWithoutCsv(env, s, init);
    }
  }
}
