/** What `loadCsv` makes of a CSV file: the quote-aware split of a line, the
    title and rating columns, the row filter and the rows a load inserts. */
module Csv {
  import opened Wrappers
  import opened Text
  import opened Movies
  import opened Seqs

  /** How the line that follows the last one delivered ends: `readLine`
      returns null there (`Eof`), or it throws an IOException whose message
      is given (`ReadError`). */
  datatype End = Eof | ReadError(message: string)

  /** What a BufferedReader over the file delivers: its lines in order, then
      the end. A file that cannot be opened behaves, for the parser, like
      `CsvFile([], ReadError(m))`: nothing is read and the error is reported. */
  datatype CsvFile = CsvFile(lines: seq<string>, end: End)

  /** Column indices `loadCsv` reads. */
  const TitleColumn: nat := 2
  const RatingColumn: nat := 10

  /** The strings the look-ahead `(?:[^"]*"[^"]*")*[^"]*$` accepts: pairs
      of double quotes, with quote-free text before and between the two of
      each pair, then quote-free text up to the end of the line. */
  ghost predicate LookaheadMatches(t: string)
    decreases |t|
  {
    '"' !in t ||
    exists u, v, w | t == u + "\"" + v + "\"" + w ::
      '"' !in u && '"' !in v && LookaheadMatches(w)
  }

  /** A comma the split pattern matches: one the look-ahead accepts the rest
      of the line after. */
  ghost predicate IsSeparator(line: string, i: nat)
    requires i < |line|
  {
    line[i] == ',' && LookaheadMatches(line[i + 1..])
  }

  /** `line.split(",(?=(?:[^\"]*\"[^\"]*\")*[^\"]*$)")`. */
  function Columns(line: string): seq<string>
  {
    Split(line, UnquotedComma)
  }

  /** The title of a row: column 2 with every double quote removed, then
      trimmed, or empty when the row has fewer than three columns. */
  function RowTitle(cols: seq<string>): string
  {
    if |cols| > TitleColumn then Trim(RemoveAll(cols[TitleColumn], '"')) else []
  }

  /** `parseDoubleSafe(cols, index)`: the parse of the trimmed column, or 0.0
      when the column is missing or `Double.parseDouble` throws (`parse`
      returns None). */
  function ParseDoubleSafe(cols: seq<string>, index: nat, parse: string -> Option<Double>): Double
  {
    if index < |cols| then
      match parse(Trim(cols[index]))
      case Some(d) => d
      case None => PositiveZero
    else PositiveZero
  }

  /** The movie a data row yields, if the row is kept: its title must be
      non-empty and its rating different from 0.0. */
  function ParseRow(line: string, parse: string -> Option<Double>): Option<Movie>
  {
    var cols := Columns(line);
    var title := RowTitle(cols);
    var rating := ParseDoubleSafe(cols, RatingColumn, parse);
    if title == [] || IsZero(rating) then None else Some(Movie(title, rating))
  }

  /** `ParseRow` as a value, to be applied to each data row. */
  function RowParser(parse: string -> Option<Double>): string -> Option<Movie>
  {
    line => ParseRow(line, parse)
  }

  /** The movies the data rows yield, in file order. */
  function Accepted(rows: seq<string>, parse: string -> Option<Double>): seq<Movie>
  {
    FilterMap(rows, RowParser(parse))
  }

  /** Reading one more row appends what that row yields. */
  lemma AcceptedSnoc(rows: seq<string>, i: nat, parse: string -> Option<Double>)
    requires i < |rows|
    ensures Accepted(rows[..i + 1], parse) == Accepted(rows[..i], parse) + Kept(rows[i], RowParser(parse))
  {
    assert rows[..i + 1][..i] == rows[..i];
  }

  /** The effect of one `loadCsv`: the movies inserted, and the one line
      written to the output. */
  datatype LoadResult = LoadResult(inserted: seq<Movie>, message: string)

  /** The first line is the header and is skipped; every later line the
      reader delivers is a data row. The summary names the path; a read error
      replaces it by the error line, and the rows read before it stay. */
  function Load(file: CsvFile, path: string, parse: string -> Option<Double>): LoadResult
  {
    var rows := if file.lines == [] then [] else file.lines[1..];
    LoadResult(Accepted(rows, parse),
               match file.end
               case Eof => "CSV Loaded: " + path
               case ReadError(m) => "Error loading CSV: " + m)
  }

  // ------------------------------------------------------------- lemmas

  /** The look-ahead accepts exactly the strings with an even number of
      double quotes. */
  lemma LookaheadIsParity(t: string)
    ensures LookaheadMatches(t) <==> EvenQuotes(t)
  {
    if LookaheadMatches(t) {
      LookaheadEven(t);
    }
    if EvenQuotes(t) {
      EvenLookahead(t);
    }
  }

  lemma {:induction false} LookaheadEven(t: string)
    requires LookaheadMatches(t)
    ensures EvenQuotes(t)
    decreases |t|
  {
    if '"' !in t {
      CountAbsent(t, '"');
    } else {
      var u, v, w :| t == u + "\"" + v + "\"" + w && '"' !in u && '"' !in v && LookaheadMatches(w);
      CountPair(u, v, w);
      LookaheadEven(w);
    }
  }

  lemma {:induction false} EvenLookahead(t: string)
    requires EvenQuotes(t)
    ensures LookaheadMatches(t)
    decreases |t|
  {
    if '"' in t {
      var u, v, w := FirstPair(t);
      EvenLookahead(w);
      LookaheadPair(u, v, w);
    }
  }

  /** A string with an even, non-zero number of quotes splits at its first
      two quotes, and what follows them again has an even number. */
  lemma FirstPair(t: string) returns (u: string, v: string, w: string)
    requires EvenQuotes(t) && '"' in t
    ensures t == u + "\"" + v + "\"" + w && '"' !in u && '"' !in v && EvenQuotes(w)
  {
    var rest;
    u, rest := FirstQuote(t);
    if '"' !in rest {
      CountAbsent(rest, '"');
      assert false;
    }
    v, w := FirstQuote(rest);
    AppendAssoc(u + "\"", v + "\"", w);
    AppendAssoc(u + "\"", v, "\"");
    ParityAfterPair(t, w);
  }

  /** The text before the first quote of `t`, and the text after it. */
  lemma FirstQuote(t: string) returns (u: string, rest: string)
    requires '"' in t
    ensures t == u + "\"" + rest && '"' !in u
    ensures Count(t, '"') == 1 + Count(rest, '"')
  {
    var i := FirstIndex(t, '"');
    u, rest := t[..i], t[i + 1..];
    CountSplit(t, i);
    assert t == t[..i] + [t[i]] + t[i + 1..];
  }

  /** Two quotes more or less do not change the parity. */
  lemma ParityAfterPair(t: string, w: string)
    requires Count(t, '"') == 2 + Count(w, '"')
    ensures EvenQuotes(t) <==> EvenQuotes(w)
  {
  }

  /** A quote pair in front of accepted text is accepted. */
  lemma LookaheadPair(u: string, v: string, w: string)
    requires '"' !in u && '"' !in v && LookaheadMatches(w)
    ensures LookaheadMatches(u + "\"" + v + "\"" + w)
  {
    var t := u + "\"" + v + "\"" + w;
    assert t[|u|] == '"';
  }

  lemma {:induction false} CountPair(u: string, v: string, w: string)
    requires '"' !in u && '"' !in v
    ensures Count(u + "\"" + v + "\"" + w, '"') == 2 + Count(w, '"')
  {
    CountAbsent(u, '"');
    CountAbsent(v, '"');
    CountAppend(u + "\"" + v + "\"", w, '"');
    CountAppend(u + "\"" + v, "\"", '"');
    CountAppend(u + "\"", v, '"');
    CountAppend(u, "\"", '"');
  }

  /** The first quote of `t` splits its count into that quote and the rest. */
  lemma CountSplit(t: string, i: nat)
    requires i < |t| && t[i] == '"' && '"' !in t[..i]
    ensures Count(t, '"') == 1 + Count(t[i + 1..], '"')
  {
    assert t == t[..i] + ([t[i]] + t[i + 1..]);
    CountAbsent(t[..i], '"');
    CountAppend(t[..i], [t[i]] + t[i + 1..], '"');
    CountAppend([t[i]], t[i + 1..], '"');
  }

  /** The split pattern matches a comma exactly when the parity rule the
      split is computed with puts a delimiter there: its look-ahead accepts
      the rest of the line exactly when that rest holds an even number of
      quotes. */
  lemma SeparatorIsDelimiter(line: string, i: nat)
    requires i < |line|
    ensures IsSeparator(line, i) <==> DelimiterAt(UnquotedComma, line[i..])
  {
    assert line[i..][1..] == line[i + 1..];
    LookaheadIsParity(line[i + 1..]);
  }

  /** A line with no separator comma is a single column, the line itself, even
      when it is empty. */
  lemma {:induction false} NoSeparatorOneColumn(line: string)
    requires forall i | 0 <= i < |line| :: !IsSeparator(line, i)
    ensures Columns(line) == [line]
  {
    NoDelimiterCount(line);
    RawFieldsLength(line, UnquotedComma);
    RawFieldsJoin(line, UnquotedComma);
  }

  lemma {:induction false} NoDelimiterCount(t: string)
    requires forall i | 0 <= i < |t| :: !IsSeparator(t, i)
    ensures DelimiterCount(t, UnquotedComma) == 0
  {
    if t != [] {
      SeparatorIsDelimiter(t, 0);
      forall i | 0 <= i < |t[1..]| ensures !IsSeparator(t[1..], i) {
        assert !IsSeparator(t, i + 1);
        assert t[1..][i + 1..] == t[i + 2..];
      }
      NoDelimiterCount(t[1..]);
    }
  }

  /** When the line has a separator, the columns are the pieces between
      separators with the trailing empty ones dropped: a prefix of the pieces,
      all pieces after it empty, and the last column non-empty. */
  lemma TrailingEmptyColumnsDropped(line: string)
    requires exists i | 0 <= i < |line| :: IsSeparator(line, i)
    ensures var raw := RawFields(line, UnquotedComma);
      var cols := Columns(line);
      Join(raw, ',') == line &&
      |cols| <= |raw| && cols == raw[..|cols|] &&
      (forall k | |cols| <= k < |raw| :: raw[k] == []) &&
      (cols != [] ==> cols[|cols| - 1] != [])
  {
    var i :| 0 <= i < |line| && IsSeparator(line, i);
    SomeDelimiterCount(line, i);
    RawFieldsLength(line, UnquotedComma);
    RawFieldsJoin(line, UnquotedComma);
    var raw := RawFields(line, UnquotedComma);
    assert Columns(line) == DropTrailingEmpty(raw);
  }

  lemma {:induction false} SomeDelimiterCount(t: string, i: nat)
    requires i < |t| && IsSeparator(t, i)
    ensures DelimiterCount(t, UnquotedComma) > 0
  {
    if i == 0 {
      SeparatorIsDelimiter(t, 0);
    } else {
      assert t[1..][i - 1..] == t[i..];
      assert t[1..][i..] == t[i + 1..];
      SomeDelimiterCount(t[1..], i - 1);
    }
  }

  /** The fields a conventional CSV scanner finds: a double quote toggles
      between inside and outside a quoted section, and a comma outside a
      quoted section ends a field. */
  function ToggleFields(t: string, inQuotes: bool): (fs: seq<string>)
    ensures |fs| >= 1
  {
    if t == [] then [[]]
    else if t[0] == ',' && !inQuotes then [[]] + ToggleFields(t[1..], inQuotes)
    else
      var rest := ToggleFields(t[1..], if t[0] == '"' then !inQuotes else inQuotes);
      [[t[0]] + rest[0]] + rest[1..]
  }

  /** Reading from position `i` on, the scanner is inside a quoted section
      exactly when an odd number of quotes remains (given an even total), so
      it splits where the regular expression does. */
  lemma {:induction false} RawFieldsAreToggleFields(t: string, inQuotes: bool)
    requires inQuotes == !EvenQuotes(t)
    ensures RawFields(t, UnquotedComma) == ToggleFields(t, inQuotes)
  {
    if t != [] {
      var next := if t[0] == '"' then !inQuotes else inQuotes;
      assert Count(t, '"') == (if t[0] == '"' then 1 else 0) + Count(t[1..], '"');
      RawFieldsAreToggleFields(t[1..], next);
    }
  }

  /** For a line with balanced quotes the split agrees with the conventional
      scanner of section 2 of RFC 4180 (without its escaped-quote rule); with an
      odd number of quotes it behaves as if the line began inside a quoted
      section. */
  lemma RawFieldsOfBalancedLine(line: string)
    ensures EvenQuotes(line) ==> RawFields(line, UnquotedComma) == ToggleFields(line, false)
    ensures !EvenQuotes(line) ==> RawFields(line, UnquotedComma) == ToggleFields(line, true)
  {
    RawFieldsAreToggleFields(line, !EvenQuotes(line));
  }

  /** The title is free of double quotes and of leading and trailing
      whitespace; a row with fewer than three columns has an empty title; a
      column that is already unquoted and trimmed is the title as it is. */
  lemma RowTitleShape(cols: seq<string>)
    ensures var title := RowTitle(cols);
      '"' !in title &&
      (title != [] ==> !IsTrimmable(title[0]) && !IsTrimmable(title[|title| - 1])) &&
      (|cols| <= TitleColumn ==> title == []) &&
      (|cols| > TitleColumn && '"' !in cols[TitleColumn] && cols[TitleColumn] == Trim(cols[TitleColumn])
       ==> title == cols[TitleColumn])
  {
    if |cols| > TitleColumn {
      RemoveAllShape(cols[TitleColumn], '"');
      TrimShape(RemoveAll(cols[TitleColumn], '"'));
    }
  }

  /** Row acceptance: a row yields a movie exactly when it has a title column
      whose unquoted, trimmed text is non-empty and a rating column whose
      trimmed text parses to a value other than 0.0; the movie carries that
      title and that value. */
  lemma ParseRowAccepts(line: string, parse: string -> Option<Double>)
    ensures var cols := Columns(line);
      ParseRow(line, parse).Some? <==>
        |cols| > TitleColumn && Trim(RemoveAll(cols[TitleColumn], '"')) != [] &&
        |cols| > RatingColumn && parse(Trim(cols[RatingColumn])).Some? &&
        !IsZero(parse(Trim(cols[RatingColumn])).value)
    ensures var cols := Columns(line);
      ParseRow(line, parse).Some? ==>
        ParseRow(line, parse).value ==
          Movie(Trim(RemoveAll(cols[TitleColumn], '"')), parse(Trim(cols[RatingColumn])).value)
  {
  }

  /** Every movie a load inserts has a non-empty title free of double
      quotes and a rating other than 0.0. */
  lemma AcceptedMoviesValid(rows: seq<string>, parse: string -> Option<Double>, m: Movie)
    requires m in Accepted(rows, parse)
    ensures m.title != [] && '"' !in m.title && !IsZero(m.rating)
  {
    FilterMapFrom(rows, RowParser(parse), m);
    var i :| 0 <= i < |rows| && RowParser(parse)(rows[i]) == Some(m);
    assert ParseRow(rows[i], parse) == Some(m);
    RowTitleShape(Columns(rows[i]));
  }

  /** Every kept row's movie is inserted, and every inserted movie comes from
      a kept row. */
  lemma AcceptedMembers(rows: seq<string>, parse: string -> Option<Double>, m: Movie)
    ensures m in Accepted(rows, parse) <==> exists i | 0 <= i < |rows| :: ParseRow(rows[i], parse) == Some(m)
  {
    if m in Accepted(rows, parse) {
      FilterMapFrom(rows, RowParser(parse), m);
      var i :| 0 <= i < |rows| && RowParser(parse)(rows[i]) == Some(m);
      assert ParseRow(rows[i], parse) == Some(m);
    }
    if exists i | 0 <= i < |rows| :: ParseRow(rows[i], parse) == Some(m) {
      var i :| 0 <= i < |rows| && ParseRow(rows[i], parse) == Some(m);
      assert RowParser(parse)(rows[i]) == Some(m);
      FilterMapIncludes(rows, RowParser(parse), i);
    }
  }

  /** The header line never matters: the load inserts what the data rows
      yield, whatever the first line says. */
  lemma HeaderSkipped(header: string, rows: seq<string>, end: End, path: string, parse: string -> Option<Double>)
    ensures Load(CsvFile([header] + rows, end), path, parse).inserted == Accepted(rows, parse)
  {
    assert ([header] + rows)[1..] == rows;
  }

  /** The load writes the summary exactly when the reader reached the end of
      the file, and the error line exactly when a read failed. */
  lemma LoadMessage(file: CsvFile, path: string, parse: string -> Option<Double>)
    ensures Load(file, path, parse).message == "CSV Loaded: " + path <==> file.end == Eof
    ensures file.end.ReadError? ==> Load(file, path, parse).message == "Error loading CSV: " + file.end.message
  {
    if file.end.ReadError? {
      assert Load(file, path, parse).message[0] == 'E';
    }
  }
}
