# Aroga record pages: section extraction and clean-up

This is a model of the data path in the two Flask services of the repository.
A billing page lists "Paid Records", "Refused Records" and "In Hold Records"
sections, and each section has a table after its heading. `app.py` reads the
page with BeautifulSoup; `final_GCP.py` reads the rendered page with Selenium.
The path has three steps, and both files follow it:

- extract one frame per section, tagged with its record type in a
  "Record_Type" column;
- stop with "No valid tables found." when there is no section, and otherwise
  concatenate the frames into the raw workbook;
- clean the raw workbook. Spill-over rows, whose first cell is not a
  sequence number, become the comment of the record above them. Missing
  comments read "Not Assigned", and footnote markers such as "[3]" are
  removed. In `app.py` the columns are also renamed and the three money
  columns are converted to numbers.

How the files are organised:

- `text.dfy` holds character predicates, `strip`, `lower` and `capitalize`.
- `heading.dfy` holds the heading search, the case-insensitive pattern
  `(Paid|Refused|In Hold)\s+Records`.
- `frames.dfy` holds the data model. A frame has column labels and rows of
  cells. A cell is `None` for a missing pandas value. The file also holds
  `pd.DataFrame(rows, columns=headers)` with the added tag column, and
  `pd.concat(..., ignore_index=True)`.
- `document.dfy` is the parsed page: one flat sequence of nodes in document
  order. Each node is a text string, an element, or a table with its header
  cells and rows.
- `soup_extractor.dfy` holds `app.py`'s `extract_all_tables`.
- `browser_extractor.dfy` holds `final_GCP.py`'s `extract_all_tables`.
- `repair.dfy` holds the spill-over loop.
- `comments.dfy` holds the comment clean-up.
- `currency.dfy` holds the money columns and Python's `float()` on text.
- `normalizer.dfy` holds `process_and_clean_data` of both files.
- `pipeline.dfy` holds `process_html_file` of both files.

The methods are the source's loops written as `while` loops. Each one is
proved equal to a function, and the lemmas are about those functions.

The model follows the code in five places where the documented design of the
system says something else:

- A missing amount is not read as 0. It becomes the text "nan" first, so it
  is read as NaN.
- Columns without a new name are kept by the rename, not dropped.
- The In Hold tag is "In hold", because `capitalize` lowers the rest of the
  word.
- One pass of marker removal is not idempotent.
- In `app.py` a failing clean-up does not fail the run. That clean-up catches
  its own errors.

## Model

| member | source | states |
|---|---|---|
| Text.Strip | app.py:45 | `strip` removes exactly a leading and a trailing run of whitespace (space, `\t` to `\r`, and `\x1c` to `\x1f`). The result is a slice of the text and has no whitespace at either end |
| Text.Capitalize | app.py:36 | `capitalize` upper-cases the first character and lower-cases the others, keeping the length |
| Text.CapitalizeIgnoresCase | app.py:36 | texts equal up to case capitalize to the same text, so the tag does not depend on the heading's case |
| Text.LowerChar | app.py:27 | an upper-case ASCII letter is lowered, and every other character is kept |
| Text.UpperChar | app.py:36 | a lower-case ASCII letter is raised, and every other character is kept |
| Text.Lower | app.py:27 | lowering works character by character and keeps the length |
| Text.StripUnchanged | app.py:45 | a text with no whitespace at either end is its own strip |
| Text.ContentEnd | final_GCP.py:30 | trailing whitespace is dropped up to the last non-space character |
| Text.SpaceRun | app.py:101 | the `\s*` run starting at a position stays inside the text |
| Text.SpaceRunSpec | app.py:101 | the `\s*` run is all whitespace and stops at the end or at a non-space |
| Text.DigitRun | app.py:101 | the `\d+` run starting at a position stays inside the text |
| Text.DigitRunSpec | app.py:101 | the digit run is all digits and stops at the end or at a non-digit |
| Text.DigitRunOver | app.py:101 | a run of digits that ends at the end or at a non-digit is exactly the digit run |
| Text.SpaceRunOver | final_GCP.py:31 | a run of whitespace that ends at the end or at a non-space is exactly the `\s+` run |
| Heading.MatchAt | app.py:34 | an alternative is reported at a position only if it matches there: the word, one or more whitespace characters and "records", ignoring case. None is reported only when no alternative matches there |
| Heading.SearchFrom | app.py:34 | `re.search` from a position reports a match at or after that position, and the alternative that matches there |
| Heading.RecordType | app.py:34-36 | a tag exists exactly when the pattern occurs somewhere in the text |
| Heading.CapitalizedWord | app.py:36 | the capitalized group of each alternative is "Paid", "Refused" or "In hold" |
| Heading.TagIsCanonical | app.py:34-36 | whenever the pattern occurs, the tag is the canonical name of the matched alternative, one of the three tags |
| Heading.PatternAcceptsAnyCaseAndSpacing | app.py:27 | a heading made of the word in any case, any non-empty run of whitespace and "records" in any case matches, and it gives one of the three tags. When no match starts before it, the tag is that word's tag |
| Heading.FirstMatchingAlternative | final_GCP.py:31 | when an alternative matches at the start, the search reports that alternative there |
| Heading.NeedsWhitespace | app.py:27 | "PaidRecords" is no heading: `\s+` needs at least one whitespace character |
| Heading.Search | app.py:34 | `re.search` reports the leftmost match: its alternative matches there and no match starts earlier. There is no match exactly when no alternative matches anywhere |
| Heading.SearchFromLeftmost | app.py:34 | no match starts between the start position and the reported one, and none at all when nothing is reported |
| Heading.NoMatchAnywhere | app.py:34 | when no position reports a match, no alternative matches anywhere |
| Heading.HeadingAt | app.py:27 | the word in any case, whitespace and "records" in any case, placed after any prefix, make that alternative match there |
| Heading.AltMatchesFrom | app.py:27 | the word, a run of whitespace of any positive length and "records" make the alternative match |
| Heading.CapitalizedAs | app.py:36 | a text whose first letter raises and whose other letters lower to a target capitalizes to that target |
| Frames.IndexOf | app.py:121-123 | the position of a label is its first occurrence |
| Frames.MaxWidth | app.py:51 | the width pandas infers is that of the longest row: no row is longer, and one row has exactly that width |
| Frames.Pad | app.py:51 | a short row is filled with missing values up to the frame width, keeping its own cells |
| Frames.SetColumn | app.py:52 | `df[name] = value` sets every cell of an existing column, or appends a new column, and keeps the other cells and the row count |
| Frames.MakeSection | app.py:51-52 | pandas refuses the table exactly when the header count differs from the longest row. Otherwise the frame has one row per data row, the headers plus "Record_Type", the data cells, and the tag in every row |
| Frames.AddNew | app.py:148 | the union of labels keeps the existing labels in place, adds the others, and stays duplicate-free |
| Frames.UnionFrom | app.py:148 | the combined labels are exactly those of some frame, with the earlier frames' labels first |
| Frames.Realign | app.py:148 | a row placed under the combined labels holds its own value under each of its frame's labels and a missing value elsewhere |
| Frames.RealignAll | app.py:148 | each row of a frame is realigned for the concatenation |
| Frames.ConcatRowsLength | app.py:148 | the concatenation has as many rows as all frames together, each as wide as the combined labels |
| Frames.ConcatRowsAt | app.py:148 | row `k` of frame `i` is at position `RowsBefore(i) + k`, realigned |
| Frames.ConcatWellFormed | app.py:148 | concatenating well-formed frames gives a well-formed frame with as many rows as all of them together |
| Frames.ConcatRowAt | app.py:148 | row `k` of section `i` is the raw frame's row `RowsBefore(i) + k`: its own cells under its labels and missing values under the others |
| Frames.ConcatColumns | app.py:148 | the combined labels are distinct, are those of some frame, and begin with the first frame's labels |
| Frames.AddNewDistinct | app.py:148 | adding distinct, new labels appends them in order |
| Frames.Concat | app.py:148 | `pd.concat` of rectangular frames is rectangular and has as many rows as all of them together |
| Frames.ConcatRowsCons | app.py:148 | the concatenated rows are the first frame's realigned rows followed by those of the rest |
| Frames.RowsBeforeShift | app.py:148 | the row offset of frame `i` is the first frame's row count plus the offset in the rest |
| Document.NextTable | app.py:37 | `find_next("table")` / `following::table[1]` gives the first table after a position, and none exactly when no table follows |
| Document.DataRowsSpec | app.py:44-47 | the data rows are exactly the non-empty table rows |
| Document.DataRowsAppend | app.py:44-47 | the row filter distributes over concatenation |
| Document.CollectDataRows | app.py:41-47 | the row loop collects exactly the non-empty rows, in order |
| Document.HeadingsShareNextTable | final_GCP.py:38 | two headings with no table between them read the same table |
| Document.DataRows | app.py:44-47 | the row filter never adds rows, and every kept row has at least one cell |
| Document.MadeSectionTagged | app.py:50-52 | a frame pandas builds from data rows under one of the three tags is a tagged section |
| Document.MadeSectionOf | app.py:49-52 | a frame pandas builds from data rows has one row per data row. Each header cell is that row's own text, or missing past the row's end, and every "Record_Type" cell holds the tag |
| Document.TaggedWithTag | app.py:36-52 | a section that carries one of the three tags in every row is a tagged section |
| SoupExtractor.Outcomes | app.py:29-53 | each node's outcome is what the loop body does for that node |
| SoupExtractor.ErrorPersists | app.py:51 | once pandas refuses a table, the extraction fails with that error whatever follows |
| SoupExtractor.ReadSection | app.py:30-53 | the loop body yields the section of a heading string with a parent, a match, a following table and data rows, and nothing otherwise |
| SoupExtractor.ExtractAllTables | app.py:23-55 | the loop gives exactly the extraction function |
| SoupExtractor.NoSectionsIsEmpty | app.py:37-39 | when no heading has a table after it, the result is the empty list |
| SoupExtractor.CollectNothing | app.py:31-39 | nodes that yield nothing contribute nothing |
| SoupExtractor.ExtractFailsIff | app.py:51 | the extraction fails exactly when some heading's table is refused by pandas |
| SoupExtractor.CollectFailsIff | app.py:51 | a run of outcomes fails exactly when one of them is an error |
| SoupExtractor.SectionIsTagged | app.py:34-53 | the section of the heading at `i` holds that heading's own record type, one of the three tags, in every row's "Record_Type" |
| SoupExtractor.ExtractedSectionsTagged | app.py:53-55 | every extracted section is tagged |
| SoupExtractor.CollectKeeps | app.py:53 | any property of every kept frame holds of every frame in the result |
| SoupExtractor.SectionAt | app.py:29-53 | a heading contributes something exactly when it is a matching string with a parent, a table follows it, and that table has data rows. A frame it contributes holds the table's data rows under its headers, padded with missing cells, and the heading's record type in every "Record_Type" cell |
| SoupExtractor.SectionPosition | app.py:29-53 | the section of the heading at `i` is frame number `CountOk(outs, i)` of the result |
| SoupExtractor.Collect | app.py:51-53 | the collected frames never outnumber the outcomes. An error is the error of one of the outcomes |
| SoupExtractor.Extract | app.py:23-55 | there are never more frames than nodes. An error is the one pandas raised for some heading |
| SoupExtractor.Tabulate | app.py:29 | the outcome list has one entry per node |
| SoupExtractor.TabulateAt | app.py:29 | entry `i` of the outcome list is the outcome of node `i` |
| SoupExtractor.CollectInOrder | app.py:53 | when nothing is refused, the frames are exactly the frames among the outcomes, in order: the frame of outcome `i` is number `CountOk(i)` |
| SoupExtractor.CountOkMonotone | app.py:53 | frame positions grow with outcome positions, strictly past a frame |
| SoupExtractor.CollectFrom | app.py:53 | each collected frame is the frame of some outcome |
| SoupExtractor.SectionsInHeadingOrder | app.py:29-53 | sections of earlier headings come earlier in the result, each frame being its heading's section |
| SoupExtractor.ExtractFrom | app.py:29-55 | every extracted frame is the section of some heading, and carries that heading's record type in every row |
| BrowserExtractor.Outcomes | final_GCP.py:29-57 | each element's outcome is what the `try` block does for it |
| BrowserExtractor.ReadSection | final_GCP.py:30-57 | the loop body yields the section of a candidate whose stripped text matches and has a table after it with data rows that pandas accepts, and nothing otherwise |
| BrowserExtractor.ExtractAllTables | final_GCP.py:22-59 | the loop gives exactly the extraction function |
| BrowserExtractor.ExtractFailsIff | final_GCP.py:26 | the wait for a table fails, with a timeout, exactly when the page has no table at all |
| BrowserExtractor.HeaderTagIsCanonical | final_GCP.py:30-34 | the tag is that of the stripped text, exists exactly when the pattern occurs in it, and is one of the three tags |
| BrowserExtractor.GroupIsStripped | final_GCP.py:34 | the captured word has no surrounding whitespace, so the extra `strip()` changes nothing |
| BrowserExtractor.KeptInOrder | final_GCP.py:53 | the kept frames are the non-empty outcomes in order, each at the index counted before it |
| BrowserExtractor.CountKeptMonotone | final_GCP.py:53 | the number of frames kept grows with the position, strictly past a kept one |
| BrowserExtractor.SectionsInHeadingOrder | final_GCP.py:29-53 | sections of earlier headings come earlier in the result, each frame being its heading's section |
| BrowserExtractor.SectionIsTagged | final_GCP.py:34-53 | the section of the candidate at `i` holds that element's own record type, one of the three tags, in every row's "Record_Type" |
| BrowserExtractor.SectionPosition | final_GCP.py:29-57 | the section of the candidate at `i` is frame number `CountKept(outs, i)` of the result |
| BrowserExtractor.ExtractFrom | final_GCP.py:29-59 | every extracted frame is the section of some candidate, and carries that element's record type in every row |
| BrowserExtractor.ExtractedSectionsTagged | final_GCP.py:59 | every extracted section is tagged |
| BrowserExtractor.KeptFrom | final_GCP.py:55-57 | every frame in the result is the section of some heading: skipped headings add nothing |
| BrowserExtractor.HeaderTag | final_GCP.py:30-34 | a tag exists exactly when the pattern occurs in the stripped element text |
| BrowserExtractor.SectionAt | final_GCP.py:29-57 | an element contributes a frame exactly when it is a candidate, its stripped text matches, a table follows it, that table has data rows, and pandas accepts the header count. The frame holds the table's data rows under its headers, padded with missing cells, and the element's record type in every "Record_Type" cell |
| BrowserExtractor.Kept | final_GCP.py:53 | the kept frames never outnumber the outcomes, and each is one of them |
| BrowserExtractor.Extract | final_GCP.py:22-59 | there are never more frames than elements. The only error is the timeout, and it happens only on a page without any table |
| Repair.Annotate | app.py:95-97 | the comment cell of the record is set to the text of the spill-over row's first cell, and the other cells are kept |
| Repair.RepairRows | app.py:85-97 | the `iterrows` loop emits exactly the repaired rows |
| Repair.Primaries | app.py:90-92 | the records never outnumber the rows |
| Repair.RepairKeepsRecords | app.py:88-97 | there is one output row per record. Each keeps its record's width and every cell outside the comment column |
| Repair.ContinuationRun | app.py:93-97 | the spill-over run after a position ends at the next record or at the end |
| Repair.LeadingContinuationDropped | app.py:94 | spill-over rows before the first record are dropped |
| Repair.GroupRepair | app.py:88-97 | a record followed by spill-over rows becomes one row, commented with the last of them |
| Repair.RecordFirstNonEmpty | app.py:90-92 | rows starting with a record give a non-empty result |
| Repair.PrimariesNonEmpty | app.py:90 | rows starting with a record have a record |
| Repair.StepAppend | app.py:97 | a spill-over row only changes the last emitted row |
| Repair.RepairAppend | app.py:88-97 | the repair of rows split at a record is the repair of the parts |
| Repair.RepairIsGroups | app.py:88-97 | the loop's result equals the group-by-record reading: each record with the last of its spill-over rows as comment |
| Repair.RecordsOnlyUnchanged | app.py:90-92 | a frame of records only is left as it is |
| Repair.RepairIdempotent | app.py:88-97 | repairing twice is repairing once, when the comment column is not the first |
| Repair.PrimariesAre | app.py:90 | every kept row is a record |
| Repair.FirstText | app.py:89 | the text of the first cell is its value, or "nan" when it is missing |
| Repair.IsPrimary | app.py:90 | a row is a record exactly when its first cell is present and all digits |
| Repair.Step | app.py:88-97 | a turn of the loop adds one row for a record and none for a spill-over row |
| Repair.Repair | app.py:88-97 | the loop emits one row per record |
| Repair.RecordsKept | app.py:88-97 | each emitted row has its record's width and keeps every cell of its record outside the comment column |
| Repair.StepKeeps | app.py:88-97 | one turn of the loop keeps that correspondence with the records read so far |
| Repair.Groups | app.py:88-97 | the group reading has at most one row per input row. Each group row is a record when the comment column is not the first |
| Repair.AnnotateLast | app.py:95-97 | a later spill-over row overrides the comment that an earlier one set |
| Comments.DefaultComment | app.py:100 | "nan" and missing comments become "Not Assigned", and every other comment is kept |
| Comments.MarkerAt | app.py:101 | a marker match starts with "[" at the position, and covers at least three characters of the text |
| Comments.StripFrom | app.py:101 | the substitution never lengthens the text |
| Comments.StripFromUnchanged | app.py:101 | text without markers passes unchanged |
| Comments.StripFromShortens | app.py:101 | a marker in the text makes it shorter |
| Comments.StripUnchangedIff | app.py:101 | the substitution changes a comment exactly when a marker occurs in it |
| Comments.NoBracketUnchanged | app.py:101 | a comment without "[" is unchanged |
| Comments.StripNotIdempotent | app.py:101 | "[[1]2]" becomes "[2]", which one more pass would empty |
| Comments.StripsMarkerAndSpaces | app.py:101 | "[2.5]  ok" becomes "ok": the fraction and the trailing spaces go with the marker |
| Comments.UnclosedFractionKept | app.py:101 | "[1.]" is no marker and is kept |
| Comments.StripMarkers | app.py:101 | the substitution never lengthens a text and changes it exactly when a marker occurs in it |
| Comments.CleanComment | app.py:100-101 | a missing comment reads "Not Assigned". Any other comment does not grow, and it is unchanged exactly when it holds no marker |
| Comments.BracketEnd | app.py:101 | a bracketed number starts with "[" at the position and spans at least three characters |
| Comments.MarkerAtSpec | app.py:101 | a reported marker is a match of the pattern that takes all the whitespace after the bracket. When none is reported, no text at the position matches |
| Comments.MarkerAtComplete | app.py:101 | any match of the pattern at a position is reported there, with its length when all the whitespace is taken |
| Comments.MarkerAtShift | app.py:101 | whether a marker starts at a position does not depend on the text before it |
| Comments.StripFromShift | app.py:101 | the substitution from a position on depends only on the text from any earlier point on |
| Comments.StripFromKeeps | app.py:101 | characters where no marker starts are kept |
| Comments.RemovesFirstMarker | app.py:101 | the substitution reads left to right: the text before the first marker is kept, the marker and all the whitespace after it are removed, and the rest is substituted |
| Comments.MatchFromParts | app.py:101 | a bracketed number followed by whitespace matches the pattern |
| Comments.PartsOfMatch | app.py:101 | every match of the pattern is a bracketed number followed by whitespace |
| Comments.BracketEndSound | app.py:101 | what `BracketEnd` measures is a bracketed number |
| Comments.NotAssignedHasNoMarker | app.py:100-101 | "Not Assigned" holds no marker |
| Currency.ColumnCells | app.py:123 | the column's cells are read row by row, missing past a row's end |
| Currency.Parsed | app.py:127 | each cell is converted on its own |
| Currency.Gather | app.py:127 | a converted column has one number per row |
| Currency.RemoveMoneySigns | app.py:125 | no "$" or "," remains and the text does not grow |
| Currency.GatherSpec | app.py:127 | success gives every cell's number; failure names the text of the first cell `float` refuses |
| Currency.ConvertColumnOk | app.py:122-128 | a converted column holds, for each row, the number its cleaned text denotes |
| Currency.ConvertColumnFailsIff | app.py:127 | the conversion fails exactly when some cell's cleaned text is no float |
| Currency.ConvertColumnFirstError | app.py:127 | the error reports the first refused cell's cleaned text |
| Currency.NatDigits | app.py:127 | the decimal numeral of `n` is digits only and has the value `n` |
| Currency.ExponentRoundTrip | app.py:127 | `float` reads back a written exponent |
| Currency.DecimalRoundTrip | app.py:127 | `float` reads back a written mantissa and exponent |
| Currency.ParseFormat | app.py:127 | `float` reads back every number written by `Format`: NaN, both infinities and every finite value |
| Currency.ParseFormatNaN | app.py:127 | "nan" reads as NaN |
| Currency.ParseFormatInf | app.py:127 | "inf" and "-inf" read as the infinities |
| Currency.ParseFormatFinite | app.py:127 | a written finite value reads back as itself |
| Currency.NoSignsUnchanged | app.py:125 | text without "$" or "," is unchanged |
| Currency.RemoveMoneySignsIdempotent | app.py:125 | removing the signs twice is removing them once |
| Currency.RemoveMoneySignsAppend | app.py:125 | the removal distributes over concatenation |
| Currency.DollarText | app.py:125 | "$1,234.50" loses its signs |
| Currency.DecimalWithCents | app.py:127 | "1234.50" reads as 123450 times 10 to the power -2 |
| Currency.DollarAmount | app.py:122-128 | "$1,234.50" converts to 1234.50 |
| Currency.WordIsRefused | app.py:127 | a word starting with a letter other than i or n (which could begin inf or nan) makes the conversion fail |
| Currency.ParseDecimal | app.py:127 | `float` of an unsigned decimal gives a finite number with the given sign, and fails on the empty text |
| Currency.ParseFloat | app.py:127 | `float` fails on text that is empty once stripped. The sign of a number it reads is negative exactly when the stripped text starts with "-" |
| Currency.AmountText | app.py:124-126 | the text handed to `float` is never empty and holds no "$" or ",". A missing value gives "nan" and an empty one gives "0" |
| Currency.CleanAmount | app.py:124-127 | a missing amount reads as NaN, not 0, and an empty amount reads as 0 |
| Currency.Texts | app.py:124-126 | each cell's text is cleaned on its own |
| Currency.ConvertColumn | app.py:122-128 | a converted column has one number per row. A failure names that column |
| Currency.ReadAsDecimal | app.py:127 | a text that starts with a digit, after an optional "-", and does not end in whitespace is read as a decimal |
| Currency.IntegerWithExponent | app.py:127 | digits followed by "e" and an exponent read as the digits' value times the power of ten |
| Currency.FiniteText | app.py:127 | a written finite number is an optional "-", then a text that starts and ends with a digit |
| Currency.ReadsZero | app.py:126-127 | "0" reads as zero |
| Currency.NoSpecialStart | app.py:127 | only a text starting with "i" or "n", in any case, can spell "inf", "infinity" or "nan" |
| Currency.SignedPlain | app.py:127 | a text without surrounding whitespace that spells no special value is read as a decimal after its sign |
| Currency.UnsignedPlain | app.py:127 | an unsigned text without surrounding whitespace that spells no special value is read as a decimal with no minus sign |
| Normalizer.WithComments | app.py:81-82 | when "Comments" is absent, it is appended as the last label and every row gets a missing value there; otherwise the frame is unchanged. The frame stays rectangular |
| Normalizer.FirstColumnAsText | app.py:84 | the first cell of each row becomes its text, "nan" for a missing value, and the rest of the row is kept |
| Normalizer.CleanCommentCells | app.py:100-101 | each comment cell is replaced by its cleaned text, and the other cells are kept |
| Normalizer.Prepared | app.py:81-84 | the prepared frame is rectangular, has the "Comments" column and the same number of rows. Its first cells are the text of the original first cells, its other cells are the original ones, and an added comment cell is missing |
| Normalizer.CleanFrame | final_GCP.py:106-127 | the clean-up steps give exactly the clean-up function |
| Normalizer.Rename | app.py:104-117 | each label is replaced by its new name, if it has one; the rows are unchanged |
| Normalizer.CleanAppFrame | app.py:81-128 | the clean-up of `app.py`, with the rename and the money columns, gives exactly its function |
| Normalizer.PreparedFirstText | app.py:84-90 | preparing the frame does not change what the record test sees |
| Normalizer.CleanFailsIff | final_GCP.py:110-124 | the clean-up fails exactly when no row is a record; the error is then the missing "Comments" column of the empty frame |
| Normalizer.PrimariesEmptyIff | app.py:90 | there are no records exactly when no row's first cell is digits |
| Normalizer.CleanShape | final_GCP.py:106-127 | the cleaned frame keeps the labels. It is rectangular with one row per record, every non-comment cell is the record's own, and every comment is set |
| Normalizer.PrimariesRectangular | app.py:92 | the records keep the frame's width |
| Normalizer.CleanIsGroups | final_GCP.py:113-126 | the cleaned rows are the groups of each record with its spill-over, with cleaned comments |
| Normalizer.UnmappedLabelsKept | app.py:104-117 | a label without a new name is kept |
| Normalizer.ConvertCurrencySpec | app.py:119-128 | every converted column is one of the three money columns present in the frame, holding its conversion. The step succeeds exactly when each money column present converts |
| Normalizer.CleanAppFailsIff | app.py:81-128 | `app.py`'s clean-up fails exactly when there is no record, or a present money column holds a cell `float` refuses |
| Normalizer.CleanRecords | final_GCP.py:106-127 | the only clean-up error is the missing "Comments" column of an empty repair. A cleaned frame has rows and keeps the labels, with "Comments" appended when it was absent |
| Normalizer.Present | app.py:120-121 | the listed columns the frame has are exactly those in both lists |
| Normalizer.AmountColumns | app.py:120-128 | the converted columns are named in order |
| Normalizer.ConvertCurrency | app.py:119-128 | the conversion converts at most the listed columns, and an error is a refused value of one of them |
| Normalizer.ConvertCurrencyColumns | app.py:119-121 | a successful conversion has one entry per listed column the frame has, in the listed order |
| Normalizer.ConvertCurrencyCons | app.py:120-128 | the first listed column contributes its entry, if the frame has it, in front of the rest |
| Normalizer.CleanApp | app.py:81-128 | `app.py`'s clean-up fails only with the "no record" error or a refused money value. On success its rows are those of the shared part, and each label is that part's label renamed. The amounts are, in order, the conversions of the money columns the renamed frame has |
| Pipeline.SectionsRectangular | app.py:144-148 | tagged sections are all rectangular |
| Pipeline.ProcessHtmlFile | app.py:138-156 | the run in `app.py` is the run function: fetch, extract, stop when there are no tables, concatenate, clean |
| Pipeline.ProcessRenderedPage | final_GCP.py:62-85 | the run in `final_GCP.py` is the run function |
| Pipeline.NoTablesStopsEarly | app.py:145-146 | in both files the run stops with "No valid tables found." exactly when the extraction gives no section |
| Pipeline.RealignedTag | app.py:148 | a section row, realigned on the raw labels, keeps its own "Record_Type" cell |
| Pipeline.RawRowsTagged | app.py:148-149 | row `k` of section `i` is raw row `RowsBefore(fs, i) + k`, and it holds the tag it has in its section, one of the three |
| Pipeline.RawRowsTaggedWith | app.py:148-149 | the raw rows of a section tagged with one record type hold that type |
| Pipeline.AppRowTaggedByHeading | app.py:34-52 | in `app.py`, row `k` of the section under the heading at `i` is a row of the raw workbook that holds that heading's record type |
| Pipeline.GcpRowTaggedByHeading | final_GCP.py:34-52 | in `final_GCP.py`, row `k` of the section of the candidate at `i` is a row of the concatenated sections (the raw workbook, which a finished run reports) that holds that element's record type |
| Pipeline.AppCleanFailureIsSilent | app.py:152-153 | in `app.py` the run succeeds with the raw frame even when the clean-up fails, and then there is no cleaned frame |
| Pipeline.GcpCleanFailureFails | final_GCP.py:74-83 | in `final_GCP.py` a page with sections fails exactly when no row of the concatenated sections is a record, and then with the "no record" error. Otherwise it finishes |
| Pipeline.AppRun | app.py:138-156 | the run reports a failed fetch exactly for a status other than 200, and an error is the extraction's. It finishes exactly when the fetch and the extraction succeed with some section. The raw frame is then the concatenation of the extracted sections, and the cleaned result is the clean-up's when that succeeds and absent otherwise |
| Pipeline.GcpRun | final_GCP.py:62-85 | the run never reports a fetch. An error is the extraction's or the "no record" error of the clean-up. A finished run follows an extraction with some section. Its raw frame is the concatenation of those sections, and its cleaned frame is what the clean-up of that raw frame gives |

## Left out

- Flask routes (`/`, `/process`, `/upload`), the HTTP fetch, headless Chrome, the two-second pause and `driver.quit()`: the page comes in as a parsed `Document` and, for `app.py`, an HTTP status.
- HTML parsing and rendering: `Document` is a flat sequence of nodes in document order. A heading string sits where its parent starts, and an element sits where it ends, which is what `find_next` and `following::` read. Because an element sits at its end, a candidate element nested inside another candidate comes before it in the model, while `find_elements` returns the outer one first. The sections of two such nested candidates therefore come out in the opposite order. Likewise, a heading string sits at its parent's start, and so before every heading string inside that parent's earlier children. For `<div><p>Refused Records</p>Paid Records</div>`, `find_all` yields the "Refused" heading and then the "Paid" one, but the model yields "Paid" and then "Refused", and their sections come out in that order. Nested tables and headings placed inside a table are not modelled. On a parsed page every string has a parent, at least the document itself, so `hasParent` is always true there; the flag only keeps the `if not parent` branch of `app.py` visible.
- Cell text extraction (`get_text(strip=True)`, `.text.strip()`): cells are given as the text these calls return.
- `final_GCP.py` reads `contains(text(), 'Records')` on an element's first text child only, as XPath 1.0 does. A table element as a heading candidate is not modelled.
- Uploads to Azure Blob storage and Google Cloud Storage, and the Excel files: writing the raw workbook and reading it back is taken as the identity on frames. Missing values stay missing, and no type inference from the workbook is applied.
- Log output of `print` and the text of the "Error: ..." messages: errors are the `Error` datatype.
- Floating-point arithmetic: `float()` gives the exact decimal value, `mantissa × 10^exponent`, and NaN and the infinities. Rounding to binary64 and overflow are not modelled.
- Unicode: `str.isdigit`, `\d`, `\s`, `strip` and case folding are ASCII only. Whitespace is the ASCII part of Python's set: space, `\t` to `\r`, and `\x1c` to `\x1f`; non-ASCII whitespace such as U+00A0 and U+2028 is not modelled. `float()`'s underscores between digits are not modelled.
- Duplicate column labels: frames are assumed to have distinct labels when they are concatenated and renamed. pandas raises an error on a reindex with duplicate labels.
- The `/upload` route of `app.py` repeats `process_html_file` without the fetch, and is not modelled separately.
- Repair.RepairIdempotent: proved only when "Comments" is not the first column. When it is the first column, the comment overwrites the record's sequence number and a second pass sees no record.
