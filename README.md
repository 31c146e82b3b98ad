# A verified model of four small Python scripts

This project models the logic of four scripts of a small Python repository
and proves properties of the model in Dafny:

- **todo.py**: a console to-do list. The task list lives in memory and is
  written to `tasks.txt` after every change. The model is the class
  `Todo.TodoApp`, which has a `tasks` sequence and a `file` field, with
  methods for load, save, add, view and remove.
- **webscrap.py**: a news headline scraper. The HTTP request and the HTML
  selection are inputs: for each CSS selector, the texts of the elements
  it matched. The model covers:
  - the length filter;
  - both deduplications: the seen-set loop and `list(dict.fromkeys(...))`;
  - the 15-headline cut;
  - the body of the saved file.
- **Final_project_pdf_to-audio.py**: a PDF-to-audiobook converter. The
  model covers page assembly with page numbers, `clean_text` (two regular
  expression substitutions and a strip), the word count, and the update
  of `current_text` in the class `PdfText.AudiobookConverter`.
- **CSV_analysis.py**: a pandas sales analysis, modelled in module
  `Sales`. It covers:
  - the derived `Total_Sales` column;
  - `groupby` tables with keys in pandas' sorted order;
  - the partition of the totals among the groups;
  - the descending sort;
  - `head(n)`, including negative `n`;
  - `idxmax` as the first maximum;
  - the summary report;
  - `analyze_product`;
  - the monthly sums.

Module `Text` holds the few Python string operations the scripts share. It
defines CPython's whitespace table, which `str.isspace`, `str.strip`,
`str.split` and `\s` in regular expressions all use. It also holds
`str.strip`, splitting a file into lines, `str(n)` for naturals, and `c * n`.

Inputs that the model cannot compute become parameters:

- user input, where `int(...)` raising `ValueError` is `None`;
- the file content, where a missing file is `None`;
- the selector output of the scraper, where a request or parse exception is `None`;
- the page texts of the PDF;
- the membership test of the regular-expression class `\w` (parameter `isWord`);
- the timestamp of the headline file;
- the sales records.

## Model

| member | source | states |
|---|---|---|
| Text.StripLeftSpec | todo.py:10 | the leading-whitespace cut keeps a suffix, drops only whitespace, and leaves no whitespace in front |
| Text.StripRightSpec | todo.py:10 | the trailing-whitespace cut keeps a prefix, drops only whitespace, and leaves no whitespace at the end |
| Text.StripSlice | todo.py:10 | `strip()` keeps a contiguous slice of the input and drops only whitespace on either side of it |
| Text.StripSpec | todo.py:10 | `strip()` leaves no whitespace at either end, and is empty exactly for a blank string |
| Text.StripKeepsCharacters | Final_project_pdf_to-audio.py:121 | every character `strip()` keeps comes from the input |
| Text.NoEndSpaceIsStripped | todo.py:10 | a non-empty string with no whitespace at either end is unchanged by `strip()` |
| Text.StripIdempotent | todo.py:10 | stripping twice is stripping once |
| Text.SplitLines | todo.py:9 | `SplitLines` (iterating over the file): reading a file yields at least one piece, and no piece holds a line terminator |
| Text.SplitLinesLine | todo.py:9 | text without terminators followed by any terminator (`\n` or `\r`) splits off as exactly one line, whatever follows |
| Text.SplitLinesPiece | todo.py:9 | text without terminators is a single line; with `SplitLinesLine` this fixes the pieces of every file |
| Text.NatToString | todo.py:41 | `str(n)` is a non-empty digit string without a leading zero (except for 0) |
| Text.NatToStringRoundTrip | todo.py:40-41 | reading `str(n)` back as digits gives `n`, so the printed numbers are distinct |
| Text.Repeat | todo.py:42 | `Repeat` is `c * n`: `"-" * 25` is 25 copies of the character |
| Text.RepeatAppend | todo.py:42 | a general fact about Python's `c * n`, not a model of a line of its own: `c * (m + n)` is `c * m` followed by `c * n` |
| Todo.SerializeSnoc | todo.py:19-21 | saving one more task appends that task and `"\n"` to the file |
| Todo.LoadedAppend | todo.py:9-12 | loading is compositional over the lines of the file, in file order |
| Todo.LoadedWellFormed | todo.py:9-12 | loaded tasks are non-empty and already stripped; there are no more than lines |
| Todo.LoadedFromLines | todo.py:9-12 | every loaded task is the strip of some line, and every non-blank line yields its strip |
| Todo.LoadedSnoc | todo.py:10-12 | one more line contributes its strip exactly when that is non-empty |
| Todo.LoadStep | todo.py:10-12 | one pass of the loading loop appends the stripped line exactly when it is non-empty |
| Todo.ReloadIsLoadedTasks | todo.py:8-21 | `Loaded` of `Serialize`: writing the tasks and reading the file back yields the tasks stripped, with the blank ones dropped, when no task holds a line break |
| Todo.SaveLoadRoundTrip | todo.py:8-21 | save then load gives back the same list when every task is non-empty, stripped and free of line breaks |
| Todo.LoadedOfReloadable | todo.py:9-12 | loading lines that are all reloadable tasks yields exactly those tasks |
| Todo.BlankTaskLostOnReload | todo.py:26-27 | a whitespace-only task passes `add_task` but is gone after a reload |
| Todo.TodoApp.constructor | todo.py:3 | a run starts with an empty list and the file as found |
| Todo.TodoApp.LoadTasks | todo.py:5-15 | a missing file changes nothing; otherwise the loaded tasks are appended in file order and the count is the new length |
| Todo.TodoApp.AppendLoaded | todo.py:9-12 | the loading loop appends the loaded tasks of the lines to the list, in file order, and changes nothing else |
| Todo.TodoApp.SaveTasks | todo.py:17-21 | the file becomes each task followed by `"\n"`, in list order |
| Todo.TodoApp.AddTask | todo.py:23-31 | non-empty input is appended at the end and the file rewritten; empty input changes nothing |
| Todo.TodoApp.ViewTasks | todo.py:33-42 | an empty list prints "No tasks found!"; otherwise a heading, then tasks numbered 1..len in order, then a rule of 25 dashes |
| Todo.TodoApp.RemoveTask | todo.py:44-60 | an empty list, non-numeric input or a number out of 1..len each change nothing; a removal happens exactly when the list is non-empty and k is in 1..len, and it removes exactly the k-th task, keeps the others in order, and rewrites the file |
| Todo.RestartAfterAdd | todo.py:5-28 | after adding a reloadable task, a new run that loads the file holds exactly the old list plus that task |
| Headlines.FlattenSnoc | webscrap.py:39-41 | one more selector appends its element texts after the earlier ones |
| Headlines.KeepLongAppend | webscrap.py:41-44 | the filter is applied text by text, in order |
| Headlines.KeepLongSpec | webscrap.py:43-44 | a text is kept exactly when it is a candidate longer than the minimum |
| Headlines.UniqueSnoc | webscrap.py:49-52 | one more headline is appended to the deduplicated list exactly when it is new |
| Headlines.UniqueMembers | webscrap.py:47-52 | the deduplicated list holds exactly the input texts and is no longer than the input |
| Headlines.UniqueOrder | webscrap.py:47-52 | `Unique` (the reference deduplication) has no repeats, and is in the order of first occurrence |
| Headlines.DedupKeepingOrder | webscrap.py:46-52 | the seen-set loop gives the reference deduplication, and the same list as `dict.fromkeys`; the result has no repeats and holds every input text and nothing else |
| Headlines.FromKeysIntoUnique | webscrap.py:142 | filling a dict with more keys extends the order as deduplication of the whole key list does |
| Headlines.FromKeysStep | webscrap.py:142 | assigning one more key to the dict keeps the key order when the key is already present and appends it otherwise |
| Headlines.FromKeysIsUnique | webscrap.py:142 | `FromKeys` (`list(dict.fromkeys(xs))`) equals the seen-set deduplication of `xs` |
| Headlines.CollectCandidates | webscrap.py:39-44 | the nested loops collect the long-enough texts of all selectors, in selector then element order |
| Headlines.Take | webscrap.py:54 | `[:15]` is the prefix of length min(15, len) |
| Headlines.ScrapeBbcHeadlines | webscrap.py:6-61 | an exception gives `[]`; otherwise the first 15 distinct candidates longer than 10 characters; at most 15, no repeats, each one a candidate |
| Headlines.ScrapeGenericNews | webscrap.py:112-146 | an exception gives `[]`; otherwise the distinct candidates longer than 5 characters, with no repeats and with every such candidate present |
| Headlines.EntriesAppend | webscrap.py:74-75 | the numbered entries continue their numbering across a split of the list |
| Headlines.EntriesAt | webscrap.py:74-75 | headline k (0-based) is written as entry `k+1. headline` followed by a blank line, between the earlier and the later entries |
| Headlines.EntriesStep | webscrap.py:74-75 | one pass of the writing loop appends entry `i+1` for headline `i` |
| Headlines.SaveHeadlinesToFile | webscrap.py:68-77 | the written content is the header, the numbered entries in order, and the trailer giving the count |
| PdfText.CollapseSpec | Final_project_pdf_to-audio.py:118 | `CollapseWhitespace` (`re.sub(r'\s+', ' ', ...)`): the only whitespace left is `' '` and no two spaces are adjacent; it starts with a space exactly when the input starts with whitespace; all other characters are kept in order; it is never longer than the input |
| PdfText.CollapseKeepsCollapsed | Final_project_pdf_to-audio.py:118 | a text whose only whitespace is single plain spaces is left alone by collapsing |
| PdfText.CollapseIdempotent | Final_project_pdf_to-audio.py:118 | collapsing twice is collapsing once |
| PdfText.CollapseSpaceRun | Final_project_pdf_to-audio.py:118 | a whitespace run followed by a non-space becomes one space |
| PdfText.CollapsedSpacesArePlain | Final_project_pdf_to-audio.py:118 | no whitespace character but the plain space survives collapsing |
| PdfText.DeleteDisallowedSpec | Final_project_pdf_to-audio.py:120 | `DeleteDisallowed` (the second `re.sub`) keeps exactly the characters of the class `[\w\s.,!?;:()\-]` and adds none |
| PdfText.DeleteAppend | Final_project_pdf_to-audio.py:120 | the deletion works character by character: it distributes over concatenation, so every allowed occurrence is kept, in order |
| PdfText.DeleteKeepsAllowed | Final_project_pdf_to-audio.py:120 | a text made only of allowed characters is left alone |
| PdfText.CleanTextSpec | Final_project_pdf_to-audio.py:116-121 | `CleanText` (`clean_text`): every output character is a word character, a plain space or one of `. , ! ? ; : ( ) -`; no whitespace but `' '`; no space at either end; never longer than the input |
| PdfText.CleanTextNotIdempotent | Final_project_pdf_to-audio.py:116-121 | a disallowed character between two spaces leaves a double space, which a second cleaning collapses, so cleaning is not idempotent |
| PdfText.CollapseDoubleSpace | Final_project_pdf_to-audio.py:118 | the second step behind `CleanTextNotIdempotent`: `a  b` (two spaces between non-space characters) collapses to `a b` |
| PdfText.DeleteBetweenSpaces | Final_project_pdf_to-audio.py:120 | the first step behind `CleanTextNotIdempotent`: deleting the disallowed `x` from `a x b` leaves both spaces, `a  b` |
| PdfText.WordPrefix | Final_project_pdf_to-audio.py:109 | the first word of `split()` is the longest prefix without whitespace |
| PdfText.WordsAreWords | Final_project_pdf_to-audio.py:109 | every word of `split()` is non-empty and holds no whitespace |
| PdfText.WordsCoverText | Final_project_pdf_to-audio.py:109 | the words of `Words` (`split()`) together are the text without its whitespace |
| PdfText.WordCountIsTokenCount | Final_project_pdf_to-audio.py:109 | `len(text.split())` equals the number of token starts, the non-whitespace characters that open the text or follow whitespace |
| PdfText.AssembleAppend | Final_project_pdf_to-audio.py:93-96 | assembly is page by page, in order, and page numbers run on across pages with no text |
| PdfText.AssembleAt | Final_project_pdf_to-audio.py:93-96 | a page k (0-based) with text appears as `"Page k+1:\n" + text + "\n\n"` between the earlier and the later pages |
| PdfText.AssembleStep | Final_project_pdf_to-audio.py:93-96 | one pass of the page loop appends the page's block exactly when the page has non-blank text, numbered by its position |
| PdfText.AssembledBlankIff | Final_project_pdf_to-audio.py:95-98 | `Assemble` (the page loop's text) is blank exactly when no page has non-blank text |
| PdfText.AudiobookConverter.constructor | Final_project_pdf_to-audio.py:12 | the current text starts empty |
| PdfText.AudiobookConverter.ExtractText | Final_project_pdf_to-audio.py:84-114 | an unreadable PDF, or one whose assembled text is blank, fails and keeps the current text; otherwise the current text becomes the cleaned text and the reported count is its number of words |
| Sales.WithTotals | CSV_analysis.py:21-22 | every row gets `Total_Sales = Units_Sold * Price_Per_Unit`, with its other columns unchanged |
| Sales.CreateSampleData | CSV_analysis.py:10-22 | the sample table has 500 rows, each with 1..19 units at a price of 50..499 and a total equal to units times price |
| Sales.SampleTotalsBounded | CSV_analysis.py:17-22 | every generated sale's total lies in 50..9481 |
| Sales.WhereSpec | CSV_analysis.py:213 | `Where` (the boolean filter) keeps exactly the rows with the key and adds none |
| Sales.WhereAppend | CSV_analysis.py:213 | the filter works row by row: it distributes over concatenation, so every matching row is kept, in order |
| Sales.WhereKeepsMatching | CSV_analysis.py:213 | rows that all have the key are all kept |
| Sales.SumByIsFilteredTotal | CSV_analysis.py:58-61 | a group's sum is the column total over exactly the rows with that key |
| Sales.InsertKey | CSV_analysis.py:58 | adding a key to a sorted key list keeps it strictly sorted and adds just that key |
| Sales.GroupKeys | CSV_analysis.py:58 | the group keys are strictly sorted, which is pandas' default order |
| Sales.GroupKeysSpec | CSV_analysis.py:58 | the group keys are exactly the keys that occur |
| Sales.GroupBySpec | CSV_analysis.py:58-94 | `GroupBy`: the category and the region tables have one row per key that occurs, in sorted order, each holding the sales and the units over exactly that key's rows |
| Sales.GroupByKeysOccur | CSV_analysis.py:58-94 | every group row's key is the key of at least one record, so `groupby` invents no group |
| Sales.KeysSumSnoc | CSV_analysis.py:169-170 | one more row adds its value to the sums over distinct keys exactly when its key is one of them |
| Sales.KeysSumCovers | CSV_analysis.py:169-170 | for distinct keys covering every row's key, the group sums add up to the column total |
| Sales.GroupTotalsAddUp | CSV_analysis.py:169-170 | for every dimension, the group sums of sales and units add up to the overall totals |
| Sales.GroupByDistinct | CSV_analysis.py:58 | a group table has no key twice |
| Sales.InsertDescendingDistinct | CSV_analysis.py:150 | inserting a row with a new key keeps the keys distinct |
| Sales.SortDescendingDistinct | CSV_analysis.py:150 | sorting a table with distinct keys keeps them distinct |
| Sales.InsertDescendingSorted | CSV_analysis.py:150 | inserting into a table sorted by descending sales keeps it sorted |
| Sales.InsertDescendingBounded | CSV_analysis.py:150 | inserting into a table bounded by some sum keeps it bounded by that sum when the new row is |
| Sales.InsertDescendingPerm | CSV_analysis.py:150 | inserting adds exactly the new row |
| Sales.SortDescendingSpec | CSV_analysis.py:150 | `SortDescending` (`sort_values(ascending=False)`) gives non-increasing sales and the same rows |
| Sales.SortedRows | CSV_analysis.py:150 | sorting keeps the number of rows and exactly the same rows |
| Sales.TopPerformersSpec | CSV_analysis.py:144-150 | `TopPerformers`: the salesperson table, sorted best first, holds exactly the salesperson rows |
| Sales.Head | CSV_analysis.py:225 | `head(n)` is a prefix: n rows (or all) for `n >= 0`, all but the last `-n` for `n < 0` |
| Sales.PrefixDominates | CSV_analysis.py:225 | in a table sorted best first, no row outside a prefix sold more than a row in it |
| Sales.TopProductsSpec | CSV_analysis.py:223-228 | `TopProducts` (`top_products`): in non-increasing order; min(n, number of products) of them for `n >= 0`; each is a product row; no product left out sold more than one listed |
| Sales.TopProductsRows | CSV_analysis.py:225 | the top products list no product twice, repeat no row of the product table, and are all of its rows when `n` reaches the number of products |
| Sales.BestIndex | CSV_analysis.py:179-181 | `idxmax` picks a row with the largest sales, and every earlier row sold strictly less |
| Sales.BestSpec | CSV_analysis.py:179-181 | `Best` (`idxmax` of a group table): a best key exists exactly when there are rows; it occurs; its group sum is at least every other key's; every key before it in sorted order has a strictly smaller sum |
| Sales.SummaryReportSpec | CSV_analysis.py:165-185 | `SummaryReport` (`summary_report`): the report's totals equal the sums of every group table; the transaction count is the number of rows; best category, region and salesperson exist exactly when there are rows |
| Sales.AnalyzeProductSpec | CSV_analysis.py:211-221 | `AnalyzeProduct` (`analyze_product`): "no data" exactly when no row is for the product; otherwise the figures are those of the product's row in the product table |
| Sales.MonthlyTrendsSpec | CSV_analysis.py:117-122 | `MonthlyTrends`: one entry per month that occurs and none for any other month, in strictly increasing string order (alphabetical, not calendar), each the sales of exactly that month's rows |

## Left out

- The Tk GUI is left out. That covers the widgets, the speed slider, message boxes, the progress bar, the status line text and `select_pdf`. The statuses are an `ExtractStatus` value instead.
- Text-to-speech is left out: `play_audio`, `stop_audio`, `save_audio` and the `is_playing` flag. They are foreign calls, and the flag is shared with a daemon thread.
- The PDF library is left out. Pages are an input, and so is whether the file opened.
- The regular-expression class `\w` is the parameter `isWord`. It is not a Unicode table.
- `requests`, BeautifulSoup and the headers are left out. The selector output is an input.
- The scrapers' console output and `main` are left out.
- `datetime.now()` is left out. The timestamp is a parameter.
- Headlines.SaveHeadlinesToFile: the file write is modelled as the returned content, and the `except`/`return False` path is not modelled. That path only arises from I/O failure.
- Text.SplitLines: a Python text file yields each line with its terminator, and `\r\n` is one terminator. The model splits at each CR or LF and drops them. Every caller strips each line and skips blank ones, so they see the same tasks.
- The `input()` prompts and the menu loop of todo.py are left out. Input is a parameter, and a failed `int(...)` is `None`.
- Todo.TodoApp.ViewTasks returns the printed lines instead of printing them. `RemoveTask` computes the listing and discards it.
- pandas I/O is left out: `read_csv`, `to_csv`, the choice in `load_data` between file and sample, and the parse error.
- Dates are left out: the `Date` column, `month_name` and the date range. The month is an input column.
- The random draws are left out. `IsSampleDraw` keeps their count and bounds.
- `basic_analysis` prints `shape`, the date range, `head()` and `describe()`. It is left out, because it is display and floating point.
- The `mean` in `summary_report` is left out, because it is floating point.
- Charts are left out: every matplotlib call and `plt.show()`.
- `.round(2)` is left out. It is the identity on these integer sums.
- Sales.SortDescending: pandas' `sort_values` does not promise an order for equal sums. The model inserts stably. The properties proved do not depend on that choice: non-increasing order, the same rows, and dominance of the top rows.
- Sales.Total: pandas sums in 64-bit integers and the model's sums are unbounded. 500 sample rows of at most 9481 each cannot overflow.
- image-resizer_task7.py is not part of this model. It is file and image-library I/O.

On an empty table `idxmax` raises `ValueError`; the model's totals are 0 there and each best key is `None`.
