# qualdocs core, modelled in Dafny

qualdocs turns the comments that coders attach to quoted passages of
Google Docs into a table of hierarchical codes. A comment's text holds one
or more codes, separated by `<br>`. Each code has up to three levels,
separated by `:`. The last level may list comma-separated siblings.
This project models the part of `qualdocs/core.py` that does this
processing:

- `strip_list` strips every string of a list.
- `process_code` lowercases a code, applies an optional renaming, splits it
  into levels and expands comma-separated siblings into one
  (code, quoted text) pair each.
- `json_to_df` works in four steps:
  - it builds one row per pair for every comment of every document;
  - it re-splits each row's code on `:` to fill the code, subcode and
    sub-subcode columns by position;
  - it turns missing cells into `""`;
  - it sorts the table by its (code, subcode, sub_subcode, name) index.
- `get_code_list` joins the non-empty levels of each row with `:`.
- `get_code_counts` counts how often each joined code occurs.

Modules:

- `Wrappers`: `Option` and `Result`.
- `Strings`: Python's `str.strip`, `lower`, `split`, `join`, `replace`, `find`
  and `<=` on strings, with their laws.
- `Parser`: `strip_list` and `process_code`.
- `Table`: `json_to_df`.
- `Codes`: `get_code_list` and `get_code_counts`.

Each loop of the source is a Dafny `method` with a `for`/`while` loop:

- `StripList`, for `strip_list`;
- `ExpandSiblings`, for the sibling loops of `process_code`;
- `AppendPairs`, for `for result in process_result`;
- `AppendPieces`, for the loop over the `<br>` pieces;
- `BuildRows`, for the document and comment loops;
- `AssignLevels`, for the second pass;
- `GetCodeList`, for `get_code_list`.

`ProcessCode`, `AppendComment` and `JsonToDf` are loop-free methods that
call these in the source's order.

`StripList` is proved element by element: each output is the strip of the
input at the same position. `JsonToDf` is proved to return a sorted
permutation of the specified records, because the order of rows with equal
keys is not specified. Every other method is proved equal to a
specification function, and the properties themselves are proved about
those functions as lemmas.

Python exceptions are the `Failure` side of a `Result`:

- An over-deep code (more than two `:`) makes `process_code` fall off its
  end and return `None`. `json_to_df` then iterates `None` and raises a
  `TypeError`.
- A blank row makes `get_code_list` index an empty string, which raises an
  `IndexError`.

Two behaviours of the code are easy to miss:

- A code without `:` comes back lowercased and not stripped
  (`qualdocs/core.py:177-179`; `Parser.ParseCodeNoColon`).
- The second pass assigns the `:`-pieces untrimmed
  (`qualdocs/core.py:265-273`), so `"top: a"` gets subcode `" a"`
  (`Table.LevelExample`).

## Model

| member | source | states |
|---|---|---|
| Strings.TrimLeftFacts | qualdocs/core.py:141 | the left strip is a suffix of the string that does not start with whitespace, and every dropped character is whitespace |
| Strings.TrimRightFacts | qualdocs/core.py:141 | the right strip is a prefix of the string that does not end with whitespace, and every dropped character is whitespace |
| Strings.StripFacts | qualdocs/core.py:141 | a stripped string has non-space ends, holds only characters of the input, keeps every non-space character, and leaves a string with non-space ends unchanged |
| Strings.StripAvoids | qualdocs/core.py:182 | stripping never introduces a character that was absent |
| Strings.LowerKeepsCount | qualdocs/core.py:165 | lowercasing keeps the number of occurrences of every non-letter, so the count of `:` is the same before and after |
| Strings.LowerNoUpper | qualdocs/core.py:165 | a string without upper-case letters is its own lowercase |
| Strings.SplitJoin | qualdocs/core.py:173 | joining the pieces of a split with the separator gives back the string |
| Strings.SplitOnChar | qualdocs/core.py:173-174 | splitting on a character gives one piece more than the character occurs, and no piece contains it |
| Strings.SplitNoSep | qualdocs/core.py:251 | no piece of a split contains the separator, for separators of any length such as `"<br>"` and `"&#39;"` |
| Strings.JoinAvoids | qualdocs/core.py:164 | joining pieces that avoid a pattern, with a character outside the pattern, does not create the pattern |
| Strings.SplitChars | qualdocs/core.py:173 | every character of a piece occurs in the split string |
| Strings.SplitAbsent | qualdocs/core.py:184 | a string without the separator splits into itself alone |
| Strings.AbsentFirst | qualdocs/core.py:241 | a string lacking a pattern's first character does not contain (`find` does not locate) the pattern |
| Strings.SplitAfterFirst | qualdocs/core.py:173 | the split of `a + c + b`, with `c` not in `a`, is `a` followed by the split of `b` |
| Strings.JoinSplit | qualdocs/core.py:265 | splitting a join of separator-free pieces gives back the pieces |
| Strings.JoinSnoc | qualdocs/core.py:301 | joining one more piece appends the separator and the piece |
| Strings.LexLeTotal | qualdocs/core.py:280 | any two strings are comparable |
| Strings.LexLeAntisymmetric | qualdocs/core.py:280 | strings that compare both ways are equal |
| Strings.LexLeTransitive | qualdocs/core.py:280 | string comparison is transitive |
| Parser.StripList | qualdocs/core.py:139-142 | the output has the input's length and holds the strip of each input string at the same position |
| Parser.Expand | qualdocs/core.py:189-193 | one pair per sibling, in order, whose code is the prefix followed by the stripped sibling and whose text is the given text |
| Parser.ExpandSiblings | qualdocs/core.py:189-193 | the sibling loop builds exactly the expansion of the `,`-split leaf |
| Parser.ProcessCode | qualdocs/core.py:164-211 | the result is the un-escaped, lowercased and renamed code parsed by level count: the whole code for one part or a comma-free leaf, the expansion for a leaf with `,`, and `None` for more than three parts |
| Parser.StrippedLevelsColonFree | qualdocs/core.py:173-182 | no stripped level contains `:` |
| Parser.SiblingsDepth | qualdocs/core.py:189-211 | every expanded pair carries the text and has as many `:` as its prefix |
| Parser.UpperColons | qualdocs/core.py:191-209 | the upper prefix of a two- or three-part code has one `:` per upper level, and the leaf has none |
| Parser.ParseCodeDepth | qualdocs/core.py:173-211 | the result is `None` exactly when the normalized code has more than two `:`; otherwise it holds at least one pair, each with the un-escaped text and the same number of `:` as the normalized code |
| Parser.ParseCodeFailsOnRaw | qualdocs/core.py:165-211 | without renaming, the result is `None` exactly when the raw code has more than two `:` |
| Parser.ParseCodeSingle | qualdocs/core.py:177-204 | the result is the single untouched normalized code exactly when it has one part, or at most three parts with a comma-free leaf |
| Parser.ParseCodeNoColon | qualdocs/core.py:177-179 | a code without `:` comes back lowercased and unstripped as the only pair |
| Parser.SplitOneLevel | qualdocs/core.py:191 | a code rebuilt as `a: b` splits back into `a` and `" " + b` |
| Parser.SplitTwoLevels | qualdocs/core.py:209 | a code rebuilt as `a: b: c` splits back into `a`, `" " + b`, `" " + c` |
| Parser.SiblingLevels | qualdocs/core.py:191-209 | an expanded code is the join of the stripped upper levels and the sibling with ": ", and its `:`-split gives those levels back, each after the first with a leading space |
| Parser.ExpandLevels | qualdocs/core.py:189-211 | every expanded code is the ": "-join of the stripped upper levels and the stripped sibling; its `:`-split gives the first stripped level, then each later level with a leading space |
| Parser.ParseCodeSiblings | qualdocs/core.py:181-211 | a leaf with `,` gives one pair per `,`-piece, in order and at least two; each code is the ": "-join of the stripped upper levels and the stripped piece, each text is the un-escaped text, and a code's `:`-split gives the first stripped level, then each later level (the stripped piece last) with a leading space |
| Parser.UnescapeComplete | qualdocs/core.py:164 | no `&#39;` is left in the text after the replacement |
| Parser.UnescapePlain | qualdocs/core.py:164 | a text without `&` is unchanged by the un-escaping |
| Parser.SiblingsLeaf | qualdocs/core.py:190 | the leaf `b, c` strips to itself, contains `,`, and splits into `b` and `" c"` |
| Parser.ParseTwoSiblings | qualdocs/core.py:181-193 | the levels of `a: b, c` parse to the two pairs `a: b` and `a: c` |
| Parser.ParseCodeTwoSiblings | qualdocs/core.py:164-193 | `process_code` on a lower-case `a: b, c` without renaming gives the pairs `a: b` and `a: c` |
| Parser.ParseCodeExample | qualdocs/core.py:158-160 | the documented usage: "top: subcode1, subcode2" gives ("top: subcode1", text) and ("top: subcode2", text) |
| Table.GatherSnoc | qualdocs/core.py:230-259 | gathering one more item appends that item's rows, or fails if it fails |
| Table.GatherNone | qualdocs/core.py:243-256 | gathering fails exactly when some item fails |
| Table.GatherMember | qualdocs/core.py:245-259 | every gathered row comes from the rows of some item |
| Table.GatherLength | qualdocs/core.py:245-259 | when every item gives at least one row, there are at least as many rows as items |
| Table.PiecesSplit | qualdocs/core.py:241-251 | the `<br>` test and split together equal a plain `split("<br>")` |
| Table.PieceRowsShape | qualdocs/core.py:243-248 | one code piece fails exactly when its normalized form has more than two `:`; otherwise it gives at least one row, each with the comment's text, id, author and the document name |
| Table.CommentRowsShape | qualdocs/core.py:234-259 | a comment fails exactly when one of its `<br>` pieces is malformed; otherwise it gives at least one row per piece, each carrying the comment's data |
| Table.TableRowsShape | qualdocs/core.py:228-259 | the first pass fails exactly when some comment of some document is malformed; otherwise every row comes from a comment of a document |
| Table.AppendPairs | qualdocs/core.py:245-248 | appending the pairs adds one row per pair after the existing rows, with no subcode and no sub-subcode |
| Table.PieceStep | qualdocs/core.py:243-248 | processing one piece fails exactly when `process_code` returns `None`, and otherwise appends its rows |
| Table.AppendPieces | qualdocs/core.py:251-259 | the loop over the `<br>` pieces appends their rows in order, or fails |
| Table.AppendComment | qualdocs/core.py:234-259 | one comment's rows are appended, in order, or the comment fails |
| Table.BuildRows | qualdocs/core.py:228-259 | the nested document and comment loops build exactly the first-pass table, or fail with it |
| Table.FillStep | qualdocs/core.py:267-276 | assigning one more piece fills the column for its position |
| Table.AssignLevels | qualdocs/core.py:261-276 | the second pass fills every row's three columns by position, and fails (the assertion) exactly as the level function does |
| Table.LevelRowsFails | qualdocs/core.py:274-275 | the second pass fails exactly when some row's code has more than two `:` |
| Table.LevelRowsLossless | qualdocs/core.py:261-276 | on first-pass rows the second pass succeeds with the same rows, each row's levels are the `:`-pieces of its code and join back into it, subcode and sub-subcode are present exactly for one or two `:`, and no other cell changes |
| Table.LevelsOfFill | qualdocs/core.py:267-276 | one to three pieces assigned to an unfilled row become its levels |
| Table.LevelExample | qualdocs/core.py:265-273 | `"top: a"` becomes code `"top"` and subcode `" a"` with its leading space |
| Table.KeyLeTotal | qualdocs/core.py:280 | any two rows are ordered by the index |
| Table.KeyLeTransitive | qualdocs/core.py:280 | the index order is transitive |
| Table.Insert | qualdocs/core.py:280 | inserting a row adds exactly that row |
| Table.SortTable | qualdocs/core.py:280 | sorting keeps exactly the rows (a permutation) |
| Table.InsertSorted | qualdocs/core.py:280 | inserting into a sorted table keeps it sorted |
| Table.SortTableSorted | qualdocs/core.py:280 | the sorted table is sorted by (code, subcode, sub_subcode, name) |
| Table.RecordOfRow | qualdocs/core.py:261-278 | a leveled row with missing cells replaced by "" keeps the comment's text, id, author and document name, and its levels are colon-free |
| Table.FirstPassReady | qualdocs/core.py:228-259 | every first-pass row has at most two `:`, no subcode or sub-subcode yet, and comes from a comment |
| Table.RecordsShape | qualdocs/core.py:228-278 | the unsorted table fails exactly on a malformed comment, and otherwise has one record per first-pass row, each from a comment |
| Table.JsonToDf | qualdocs/core.py:215-282 | `json_to_df` raises a TypeError exactly on a malformed comment, never reaches the assertion, and otherwise returns a sorted permutation of the finished rows |
| Codes.NonEmptyMembers | qualdocs/core.py:299-301 | exactly the non-empty levels are kept |
| Codes.NonEmptySnoc | qualdocs/core.py:299-301 | looking at one more level keeps it exactly when it is not empty |
| Codes.TerminatedSnoc | qualdocs/core.py:301 | each kept level adds itself and `:` |
| Codes.TerminatedJoin | qualdocs/core.py:301-305 | the `:`-terminated concatenation is the `:`-join plus one trailing `:` |
| Codes.BlankNoLevels | qualdocs/core.py:299-304 | a row is blank exactly when it keeps no level |
| Codes.ConcatStep | qualdocs/core.py:299-301 | one step of the inner loop extends the concatenation by the next non-empty level |
| Codes.ConcatTrim | qualdocs/core.py:298-305 | the concatenation is empty exactly for a blank row; otherwise it ends in `:`, and dropping that `:` gives the row's joined code |
| Codes.GetCodeList | qualdocs/core.py:295-310 | an IndexError exactly when some row is blank; otherwise one entry per row, in order, each the `:`-join of the row's non-empty levels |
| Codes.CodeStringNoTrailingColon | qualdocs/core.py:303-305 | for a non-blank row with colon-free levels, the entry is non-empty and does not end in `:` |
| Codes.CodeStringSplit | qualdocs/core.py:299-305 | for a non-blank row with colon-free levels, splitting the entry on `:` gives back its non-empty levels |
| Codes.CellsOfLevels | qualdocs/core.py:278-299 | the non-empty level cells of a finished row are the non-empty levels of the leveled row it came from, and the row is blank exactly when it has no non-empty level |
| Codes.NonEmptyKeeps | qualdocs/core.py:299-301 | levels that are all non-empty are all kept |
| Codes.CodeStringRoundTrip | qualdocs/core.py:261-305 | a first-pass row always levels; it is blank exactly when every `:`-piece of its code is empty; when no piece is empty its entry is its code again |
| Codes.NoneNonEmpty | qualdocs/core.py:299-304 | no level is kept exactly when all levels are empty |
| Codes.TallyCounts | qualdocs/core.py:327 | the Counter's keys are the entries, each mapped to its number of occurrences |
| Codes.DistinctFacts | qualdocs/core.py:327 | the distinct entries are the entries, without repeats |
| Codes.SumIgnores | qualdocs/core.py:327 | changing the count of a key outside a list of keys leaves their sum unchanged |
| Codes.SumBump | qualdocs/core.py:327 | counting one more occurrence of a listed key adds one to the sum |
| Codes.TallyTotal | qualdocs/core.py:327 | the counts of the distinct entries sum to the number of entries |
| Codes.GetCodeCountsCounts | qualdocs/core.py:312-327 | the intended counts, `Codes.GetCodeCounts`: an IndexError exactly on a blank row; otherwise keyed by the rows' entries, each counted as often as rows give it, with counts summing to the number of rows |
| Codes.GetCodeCountsAsWritten | qualdocs/core.py:325-327 | `get_code_counts` as written raises exactly when the intended one does, and every call that does not raise returns None |
| Codes.ExampleEntries | qualdocs/core.py:295-310 | rows ("top", " sub", "") twice and ("top", "", "") give entries "top: sub", "top: sub", "top" |
| Codes.ExampleTally | qualdocs/core.py:327 | those entries count as {"top: sub": 2, "top": 1} |
| Codes.CountsDiscarded | qualdocs/core.py:325-327 | on that table the intended counts are {"top: sub": 2, "top": 1} while the function as written returns None |

## Left out

- `get_service`, `get_credentials`, `get_json_dict` and `is_interactive`: they talk to the Google APIs, the file system and the terminal. `qualdocs/get_credentials.py` and `setup.py` are not part of this model.
- `get_file_ids`: it makes one Drive `files().list` call and keeps the names in which the search string is found past position 0. The Drive API is not part of this model.
- `code_replace_dict`: the regular-expression substitution of whole words is an opaque string-to-string function, applied after lowercasing. The model does not capture which words it replaces, nor that the substitution can raise: an empty dictionary compiles to a pattern that matches the empty word and looks up the key `''`, a KeyError, and a key that is not a valid regular expression makes `re.compile` raise.
- `Parser.ProcessCode`: `str.lower` is modelled for ASCII letters only. Python lowercases all of Unicode.
- Missing JSON keys (`quotedFileContent`, `htmlContent`, `id`, `author`) would raise a `KeyError`. The model takes the comments as already-extracted records.
- The input dictionary is a sequence of (name, comments) documents in the dictionary's iteration order.
- `Table.JsonToDf`: pandas' `sort_index` is modelled as some sorted permutation of the rows. The relative order of rows with equal index keys is not stated.
- pandas internals: the chained `codes_df.ix[row][col] = value` assignment is assumed to write through to the table, and `DataFrame.append` to add one row at the end. NaN is a missing cell (`None`) until `replace`.
- The table's index columns are plain fields of each record. The model does not build a `MultiIndex`.
- `get_code_list` reads `row[0][0:3]`, the first three index levels. The model reads them as the record's code, subcode and sub-subcode.

## Findings

| source | as written | input that shows it | evidently intended | confidence | as-written member | corrected member |
|---|---|---|---|---|---|---|
| qualdocs/core.py:325-327 | `get_code_counts` builds a Counter of the code list but has no return statement, so it returns None | a table with rows ("top", " sub", "") twice and ("top", "", "") | return the Counter {"top: sub": 2, "top": 1}, as its docstring says | not executed | Codes.CountsDiscarded | Codes.GetCodeCountsCounts |
