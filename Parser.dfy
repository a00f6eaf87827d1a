/** The Parser class of Parser.java: the catalog it fills and the output it
    appends to, changed step by step as the script is read. */
module ParserClass {
  import opened Wrappers
  import opened Text
  import opened Movies
  import opened Seqs
  import opened Csv
  import opened Commands

  class Parser {
    /** Files, number parsing and the BST's queries, as seen from here. */
    const env: Env
    /** `mybst`: the movies inserted so far, in insertion order. */
    var catalog: seq<Movie>
    /** output.txt: one entry per `writeToFile` call. */
    var log: seq<string>

    /** Clears the output, then processes the whole script. */
    constructor (env: Env, script: seq<string>)
      ensures this.env == env
      ensures State(catalog, log) == Run(env, State([], []), script)
    {
      this.env := env;
      catalog := [];
      log := [];
      new;
      Process(script);
    }

    /** `process`: each non-blank line, trimmed, collapsed and split on
        spaces, is handed to `OperateBST`. */
    method Process(script: seq<string>)
      modifies this
      ensures State(catalog, log) == Run(env, old(State(catalog, log)), script)
    {
      var i := 0;
      while i < |script|
        invariant 0 <= i <= |script|
        invariant State(catalog, log) == Run(env, old(State(catalog, log)), script[..i])
      {
        assert script[..i + 1][..i] == script[..i];
        var line := Trim(script[i]);
        if line != [] {
          line := Collapse(line);
          var command := Split(line, Space);
          OperateBST(command);
        }
        i := i + 1;
      }
      assert script[..i] == script;
    }

    /** `operate_BST`: dispatch on the lower-cased first token. */
    method OperateBST(command: seq<string>)
      modifies this
      ensures State(catalog, log) == Step(env, old(State(catalog, log)), command)
    {
      if |command| == 0 {
        return;
      }
      var action := ToLower(command[0]);
      if action == "csv" {
        if |command| < 2 {
          log := log + [InvalidCommand];
          return;
        }
        LoadCsv(command[1]);
      } else if action == "print" {
        log := log + [env.render(catalog)];
      } else if action == "search" {
        if |command| < 2 {
          log := log + [InvalidCommand];
          return;
        }
        var title := Trim(command[1]);
        var found := env.search(catalog, Movie(title, PositiveZero));
        log := log + [if found then "found " + title else SearchFailed];
      } else {
        log := log + [InvalidCommand];
      }
    }

    /** The body of `loadCsv`'s loop for one data row: split it, take its
        title and rating, and insert the movie unless the row is skipped. */
    method InsertRow(row: string)
      modifies this`catalog
      ensures catalog == old(catalog) + Kept(row, RowParser(env.parseDouble))
    {
      var cols := Columns(row);
      var title := RowTitle(cols);
      var rating := ParseDoubleSafe(cols, RatingColumn, env.parseDouble);
      if title == [] || IsZero(rating) {
        return;
      }
      catalog := catalog + [Movie(title, rating)];
    }

    /** The loop of `loadCsv`: every data row, in file order, inserted
        unless it is skipped. */
    method InsertRows(rows: seq<string>)
      modifies this`catalog
      ensures catalog == old(catalog) + Accepted(rows, env.parseDouble)
    {
      var i := 0;
      while i < |rows|
        invariant 0 <= i <= |rows|
        invariant catalog == old(catalog) + Accepted(rows[..i], env.parseDouble)
      {
        AcceptedSnoc(rows, i, env.parseDouble);
        InsertRow(rows[i]);
        i := i + 1;
      }
      assert rows[..i] == rows;
    }

    /** `loadCsv`: skip the header, insert every kept row in file order,
        then write the summary, or the error line if a read fails. */
    method LoadCsv(csvPath: string)
      modifies this
      ensures catalog == old(catalog) + Load(env.files(csvPath), csvPath, env.parseDouble).inserted
      ensures log == old(log) + [Load(env.files(csvPath), csvPath, env.parseDouble).message]
    {
      var file := env.files(csvPath);
      // the first read delivers the header, which is skipped
      var rows := if file.lines == [] then [] else file.lines[1..];
      InsertRows(rows);
      match file.end
      case Eof =>
        log := log + ["CSV Loaded: " + csvPath];
      case ReadError(message) =>
        log := log + ["Error loading CSV: " + message];
    }
  }
}
