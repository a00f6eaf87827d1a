# Parser: command interpreter and CSV ingestion

This project models `Parser.java`, the front end of a small horror-movie
catalog. The parser reads a script of commands one line at a time. Each line
is trimmed, skipped when blank, reduced to single spaces and split into
tokens. `operate_BST` then dispatches on the first token, lower-cased:

- `csv <path>` loads a CSV file into the binary search tree `mybst`;
- `print` writes the tree's rendering;
- `search <title>` looks a title up;
- anything else writes `Invalid Command`.

Every command appends one entry to `output.txt`; the one exception, a
failure to close the CSV reader, is listed under "Left out".

`loadCsv` skips the header line and splits every later line on the commas that
lie outside double quotes. It takes the title from column 2, with its quotes
removed and then trimmed. It takes the rating from column 10 through
`parseDoubleSafe`. A row is inserted only when the title is non-empty and the
rating is not 0.0.

The model has five modules:

- `Text` holds the `java.lang.String` operations the parser uses: `trim`,
  `replaceAll("\\s+", " ")`, `split` with its rule for trailing empty
  strings, `replace` and ASCII `toLowerCase`.
- `Seqs` holds a generic filter-map over sequences. It is the shape of a loop
  that inserts what each input line yields.
- `Movies` holds the movie record and a Java `double` as its IEEE 754 bit
  pattern.
- `Csv` and `Commands` hold the behaviour as functions. `Load` is one CSV
  load. `Step` is one `operate_BST` call. `Run` is a whole script.
- `ParserClass` holds the `Parser` class. Its fields are the catalog (the
  movies inserted into `mybst`, in order) and the output log. Its methods
  `Process`, `OperateBST` and `LoadCsv` update those fields with loops and
  branches that follow the source. Each is proved equal to the function
  that specifies it.

What the parser reaches outside its own code is a value of type `Env`. That
covers the files `loadCsv` opens, `Double.parseDouble`, `mybst.search` and
`mybst.toString`. The class holds it as a constant.

Behaviour of the code worth noting, all of it modelled as written:

- A row whose rating is 0.0 is rejected, like a row with an empty title. A
  missing or unparseable rating column becomes 0.0, so it rejects the row too.
- `search` uses only the second token, trimmed. It asks the tree's own
  `search` with a probe rated 0.0 and writes `search failed` on a miss.
- The load summary is `CSV Loaded: <path>`, with no count of movies.
- After a read error, the rows inserted before it stay in the catalog.
- `csv` and `search` ignore the tokens after their argument.

## Model

| member | source | states |
|---|---|---|
| Text.TrimShape | src/Parser.java:32 | `trim` gives the slice of the input left after cutting a prefix and a suffix of units at most U+0020; it is empty exactly when every unit is at most U+0020, and otherwise starts and ends with a unit above U+0020, so the cut prefix and suffix are the longest possible; a string with such ends is unchanged |
| Text.CollapseIsSqueeze | src/Parser.java:36 | `replaceAll("\\s+", " ")` equals a scanner that copies every unit outside `\s`, writes one space at the start of each `\s` run and drops the rest of the run |
| Text.CollapseKeepsNonSpace | src/Parser.java:36 | the units outside `\s` are kept, all of them and in their order |
| Text.CollapseShape | src/Parser.java:36 | after the collapse the only whitespace is single spaces, no two spaces are adjacent, the result is no longer than the input, is empty exactly when the input is, and starts and ends with whitespace exactly when the input does |
| Text.CollapseAtoms | src/Parser.java:36 | a single unit outside `\s` is kept as it is, and a non-empty run of `\s` becomes one space |
| Text.CollapseAppend | src/Parser.java:36 | the collapse of two pieces that do not cut a `\s` run in two is the collapse of the first followed by that of the second |
| Text.SkipSpacesShape | src/Parser.java:36 | a match of `\s+` at the start of a string consumes the longest run of `\s` there, and all of the string exactly when it is all `\s` |
| Text.CollapseKeeps | src/Parser.java:36 | a string whose only whitespace is isolated single spaces is unchanged by the collapse |
| Text.CollapseIdempotent | src/Parser.java:36 | collapsing twice is the same as collapsing once |
| Text.SpaceFieldsHaveNoSpace | src/Parser.java:37 | when every whitespace unit is a space, no piece of the split on spaces contains whitespace |
| Text.SpaceFieldsNonEmpty | src/Parser.java:37 | a non-empty string that neither starts nor ends with a space and has no two adjacent spaces splits into non-empty pieces |
| Text.SplitCollapsed | src/Parser.java:36-37 | the tokens of a trimmed, collapsed line are non-empty, hold no whitespace, and joined with single spaces give back the collapsed line |
| Text.RawFieldsJoin | src/Parser.java:99 | joining the pieces of a split with the delimiter gives back the input: the split loses only the delimiters |
| Text.RawFieldsLength | src/Parser.java:99 | there is one more piece than there are delimiter matches |
| Text.DropTrailingEmpty | src/Parser.java:99 | `split` without its trailing empty strings keeps a prefix of the pieces, drops only empty ones, and ends with a non-empty piece |
| Text.RemoveAllShape | src/Parser.java:102 | `replace("\"", "")` leaves no double quote, shortens the string by the number of quotes, adds no character, leaves a quote-free string unchanged, and maps a single unit to nothing when it is a quote and to itself otherwise |
| Text.RemoveAllAppend | src/Parser.java:102 | the removal works piece by piece: with the single-unit case this says every other unit is kept, in order |
| Text.ToLowerMatchesKeyword | src/Parser.java:50-52 | a lower-case keyword is matched by exactly the tokens that spell it letter by letter in either case |
| Commands.TokenizeLine | src/Parser.java:32-37 | a line that is blank after `trim` gives no command; otherwise the tokens are non-empty, hold no whitespace, and joined with single spaces equal the trimmed line with its whitespace runs collapsed |
| Commands.StepWritesOneLine | src/Parser.java:46-117 | every `operate_BST` call on a non-empty token list appends exactly one output line and keeps the earlier ones; the empty list changes nothing |
| Commands.StepCatalog | src/Parser.java:46-87 | only `csv` changes the catalog, and only by appending to it |
| Commands.InvalidCommands | src/Parser.java:50-85 | an unknown action, or `csv` or `search` without an argument, writes exactly `Invalid Command` and changes nothing else |
| Commands.ActionIgnoresCase | src/Parser.java:50-52 | two actions that agree after lower-casing have the same effect |
| Commands.SearchCommand | src/Parser.java:69-80 | `search` looks only at the second token, trimmed, probes with rating 0.0, writes `found <title>` or `search failed`, and leaves the catalog unchanged |
| Commands.PrintCommand | src/Parser.java:64-67 | `print` writes the tree's rendering, ignores further tokens and leaves the catalog unchanged |
| Commands.CsvCommand | src/Parser.java:54-62 | `csv <path>` appends the movies of the accepted rows after the header, in file order, writes the summary or the read error, and grows the catalog by exactly the number of accepted rows |
| Commands.RunAppend | src/Parser.java:30-40 | running two parts of a script one after the other is running the whole script |
| Commands.ExecLineGrows | src/Parser.java:30-40 | one script line writes one output line when it is not blank and none when it is, and removes nothing from the log or the catalog |
| Commands.RunLog | src/Parser.java:26-43 | a script writes exactly one output line per non-blank line and never removes a written line or an inserted movie |
| Commands.RunWithoutCsv | src/Parser.java:26-43 | a script without a `csv` command leaves the catalog unchanged |
| Csv.LookaheadIsParity | src/Parser.java:99 | the strings the look-ahead `(?:[^"]*"[^"]*")*[^"]*$` accepts, built from pairs of quotes with quote-free text around them, are exactly those with an even number of double quotes |
| Csv.SeparatorIsDelimiter | src/Parser.java:99 | a comma is matched by the split pattern, whose look-ahead accepts the rest of the line, exactly when the split puts a delimiter there |
| Csv.NoSeparatorOneColumn | src/Parser.java:99 | a line with no separating comma is one column, the line itself, even when it is empty |
| Csv.TrailingEmptyColumnsDropped | src/Parser.java:99 | when the line has a separator, the columns are the pieces between separators minus the trailing empty ones |
| Csv.RawFieldsAreToggleFields | src/Parser.java:99 | the split agrees with a scanner in which each double quote toggles between inside and outside a quoted section, started in the state fixed by the parity of quotes still ahead |
| Csv.RawFieldsOfBalancedLine | src/Parser.java:99 | for a line with an even number of quotes the split is the conventional quoted-CSV scan; with an odd number it is that scan started inside quotes |
| Csv.RowTitleShape | src/Parser.java:102 | the title holds no double quote and no leading or trailing whitespace, is empty when the row has fewer than three columns, and is column 2 itself when that column is already unquoted and trimmed |
| Csv.ParseRowAccepts | src/Parser.java:102-131 | a row yields a movie exactly when its unquoted, trimmed title is non-empty and its rating column parses to a value other than 0.0, and the movie carries that title and rating; a missing rating column, or one whose trimmed text does not parse, rejects the row, because the 0.0 fallback of `parseDoubleSafe` counts as zero |
| Csv.AcceptedMoviesValid | src/Parser.java:105-109 | every inserted movie has a non-empty, quote-free title and a rating other than 0.0 |
| Csv.AcceptedMembers | src/Parser.java:96-110 | a movie is inserted exactly when some data row yields it |
| Csv.AcceptedSnoc | src/Parser.java:96-110 | reading one more row appends exactly what that row yields |
| Csv.HeaderSkipped | src/Parser.java:94 | the first line never affects what is inserted |
| Csv.LoadMessage | src/Parser.java:112-117 | the load writes `CSV Loaded: <path>` exactly when the reader reached the end of the file, and `Error loading CSV: <message>` when a read failed |
| Seqs.FilterMap | src/Parser.java:96-110 | a load never inserts more movies than there are data rows |
| Seqs.FilterMapAppend | src/Parser.java:96-110 | the movies of two consecutive blocks of rows are those of the first block followed by those of the second: insertion follows file order |
| Seqs.FilterMapLength | src/Parser.java:96-110 | the number of movies inserted is the number of accepted rows |
| Seqs.FilterMapIncludes | src/Parser.java:96-110 | every accepted row's movie is inserted |
| Seqs.FilterMapFrom | src/Parser.java:96-110 | every inserted movie comes from an accepted row |
| ParserClass.Parser.constructor | src/Parser.java:17-23 | starting from an empty output and an empty tree, the parser ends in the state the script specifies |
| ParserClass.Parser.Process | src/Parser.java:26-43 | the line loop leaves the catalog and the log as `Run` specifies |
| ParserClass.Parser.OperateBST | src/Parser.java:46-87 | the dispatch leaves the catalog and the log as `Step` specifies |
| ParserClass.Parser.InsertRow | src/Parser.java:99-109 | one data row appends its movie when it is accepted and nothing otherwise |
| ParserClass.Parser.InsertRows | src/Parser.java:96-110 | the read loop appends the movies of the accepted rows in file order |
| ParserClass.Parser.LoadCsv | src/Parser.java:90-118 | `loadCsv` appends the movies `Load` specifies and writes its one output line |

## Left out

- File input and output are not modelled. A script is its sequence of lines. A CSV file is the lines its reader delivers, then either the end of the file or a read error with its message. A file that cannot be opened behaves like an empty file ending in a read error. `output.txt` is the sequence of strings passed to `writeToFile`.
- Files are fixed for the whole run: the CSV files form one function from path to contents. The parser itself clears and appends to `output.txt` (src/Parser.java:21, 134-141), so `csv output.txt` would read a file that depends on the log so far. Reading the parser's own output file is not modelled.
- A `print` entry that spans several lines is one entry of the log.
- `clearFile` (src/Parser.java:149-159) is modelled by the constructor's empty log: it truncates `output.txt`. A failure to clear or to write the file, and the working-directory message, are not modelled; they only print to the console.
- `Scanner` line splitting is not modelled. The script is already divided into lines.
- A failure to close the CSV reader is not modelled. `writeToFile("CSV Loaded: ...")` (src/Parser.java:112) runs inside the try block, before the reader is closed, so an IOException from `close` reaches the catch (src/Parser.java:114-116) and the command writes a second line, `Error loading CSV: <message>`. It is the one case where a command writes more than one entry; the model always writes one.
- `src/Proj1.java` is not part of this model. It only checks the argument count and reports a missing script file.
- BST.java and HorrorMovie.java are not part of this model. The catalog is the sequence of inserted movies, and `search` and `toString` are unspecified functions of it. Tree order, duplicate handling and what `search` compares are not modelled.
- `Double.parseDouble` is a parameter that returns a rating or nothing, where nothing stands for the exception. A rating is a bit pattern, and `rating == 0.0` is exact: +0.0 and -0.0 are zero, and NaN is not.
- `toLowerCase` is modelled as ASCII folding. The keywords `csv`, `print` and `search` are matched correctly except under a locale such as Turkish, which maps `I` to a dotless `ı`.
- A read error whose message is null would write `Error loading CSV: null`. The model always has a message.
- A Java string is a sequence of UTF-16 code units; here a string is a sequence of Unicode scalar values, so a character outside the Basic Multilingual Plane is one unit instead of two. This does not change any result: no surrogate is at most U+0020, in `\s`, a double quote, a comma or an ASCII letter.
