# searchnotes — a Dafny model

`searchnotes.py` is a small command-line search engine for PDF notes. It
collects the PDFs under a folder and its direct subfolders. It extracts the
text of every page once and keeps the page records in a page store. It also
keeps a list of processed PDFs, so a PDF is not indexed twice. For every
query typed at the prompt it:

- turns the query into a set of lower-case search terms;
- scores every stored page (`get_hits`: occurrences of each term among the
  page's space-separated, lower-cased chunks, plus a bonus of 10 for each
  term present);
- highlights the terms in every page that scores;
- renders each scoring page as a Markdown block and files it in a results
  dictionary under that text;
- writes the results, best first, to a Markdown file, or reports that
  nothing was found.

The model has one module per concern:

| module | file | models |
|---|---|---|
| `Text` | text.dfy | the `str` operations the program relies on: `lower`/`upper`, `split`/`join` on one character, `strip`, `replace`, `title`, `str(n)` |
| `Paths` | paths.dfy | `os.path.basename` and `os.path.join` with Windows separators |
| `Discovery` | discovery.dfy | `read_all_pdfs` and `retrieve_pdfs` |
| `Terms` | terms.dfy | `get_search_terms` and the reading of the command line in `start` |
| `Scoring` | scoring.dfy | `get_hits` |
| `Highlight` | highlight.dfy | the case-insensitive `re.sub` that marks every term |
| `Index` | index.dfy | `load_page_data` and the record names it builds |
| `Ranking` | ranking.dfy | the results dict, `sort_results` and `display_results` |
| `Query` | query.dfy | one round of the loop in `start` |

Design decisions:

- **The results dict.** It is a sequence of entries with distinct keys. An
  assignment overwrites an existing key in place and appends a new one
  (`Ranking.Put`), as a Python dict does.
- **The term set.** It is enumerated once into a duplicate-free sequence
  (`Query.Enumerate`). The scoring and the highlighting both walk that
  sequence. The score does not depend on the order
  (`Scoring.HitsDependOnlyOnTermSet`); the highlighting may, as in Python.
- **State-changing code.** Code that changes state step by step is written
  as methods with loops, proved against fold functions:
  - `Discovery.RetrievePdfs` against `Gather`;
  - `Index.LoadPageData` against `Merge`;
  - `Query.QueryPages` and `Query.Highlighted` against `Filings`/`Assign`
    and `HighlightAll`.
- **Sorting.** `sorted(..., reverse=True)` is modelled as a stable
  insertion sort on the hit count.

## Model

| member | source | states |
|---|---|---|
| Discovery.ReadAllPdfsSpec | searchnotes.py:11-13 | a path is listed exactly when some directory entry ends in ".pdf" and the path is that entry joined onto the folder; every listed path ends in ".pdf"; listing distributes over concatenated directory listings; there are no more paths than names, and each listed ".pdf" entry gives exactly one path while any other entry gives none |
| Discovery.SubfoldersSpec | searchnotes.py:27 | a folder is a subfolder exactly when it joins the root with a listed name and is a directory; there are no more subfolders than names; the subfolders of concatenated listings are concatenated, and a single name gives its path when that is a directory and nothing otherwise, so subfolders come once per listed directory, in listing order |
| Discovery.GatherSpec | searchnotes.py:30-31 | a path is gathered from the subfolders exactly when it is some subfolder joined with one of its entries ending in ".pdf"; every gathered path ends in ".pdf" |
| Discovery.RetrievePdfs | searchnotes.py:21-33 | a missing root gives no PDFs; otherwise the root's PDFs come first, then each subfolder's in listing order; a path is returned exactly when it joins the root or one of its subfolders with one of that folder's entries ending in ".pdf"; every result ends in ".pdf" |
| Paths.BasenameSpec | searchnotes.py:85 | the basename is a suffix of the path without separators, preceded by a separator or the start of the path |
| Paths.JoinBasename | searchnotes.py:13 | joining a file name without separators onto a folder gives a path that ends in that name and whose basename is that name. |
| Text.SplitJoin | searchnotes.py:44 | joining the fields of `split(sep)` with sep gives back the text, and no field contains sep |
| Text.SplitAround | searchnotes.py:139 | splitting around one separator splits both sides independently (the basis of reading the page number back from a record name) |
| Text.JoinHasParts | searchnotes.py:117 | the joined text starts with the first part and contains every part |
| Text.ReplaceCharSpec | searchnotes.py:85 | replacing a character by text without it removes every occurrence; text without it is unchanged; a one-character replacement keeps the length, puts that character at every position of an occurrence and leaves every other character in place |
| Text.StripPadded | searchnotes.py:124 | strip removes exactly the surrounding white space of a text that begins and ends with non-space |
| Text.NatToStringDigits | searchnotes.py:85 | `str(n)` is a non-empty string of decimal digits, without a leading zero unless n is 0, whose value is n |
| Text.TitleSpec | searchnotes.py:85 | `title()` keeps length, case-insensitive content and which characters are letters; a letter is upper case exactly when it starts the text or follows a non-letter |
| Text.TitleKeepsUncased | searchnotes.py:85 | `title()` leaves every non-letter as it was |
| Terms.StripPunctuationSpec | searchnotes.py:37 | the stripped query keeps each word or space character as often as it occurs and no other character; it equals the query exactly when the query holds only such characters |
| Terms.StripPunctuationAppend | searchnotes.py:37 | stripping a concatenation is the concatenation of the stripped parts, so the kept characters stay in the order they occur |
| Terms.StripPunctuationIdempotent | searchnotes.py:37 | stripping twice is stripping once |
| Terms.SearchTermsSpec | searchnotes.py:35-40 | a string is a term exactly when it is not a stop word and some token lower-cases to it; terms are lower case; no tokens give no terms; there are no more terms than tokens |
| Terms.QuitPadded | searchnotes.py:124-126 | "Quit" surrounded by any white space ends the program |
| Scoring.GetHitsZeroOrEleven | searchnotes.py:42-45 | the score is 0 exactly when no term equals a chunk of the page, and otherwise at least 11 |
| Scoring.GetHitsClosedForm | searchnotes.py:42-45 | for distinct terms the score is the number of chunks equal to a term plus 10 per term that occurs |
| Scoring.HitsDependOnlyOnTermSet | searchnotes.py:45 | the score does not depend on the order in which the term set is enumerated |
| Scoring.CatCatDog | searchnotes.py:42-45 | the page "cat cat dog" with terms cat, dog scores (2+10)+(1+10) = 23 |
| Highlight.ReplaceIsSubstitution | searchnotes.py:138 | the case-insensitive replacement cuts the text into passed-over characters and matches that spell the text; every match equals the term up to case; no match starts at a passed-over character; the result is the cut with every match replaced |
| Highlight.MatchCountOccurs | searchnotes.py:138 | the scan finds a match exactly when the term occurs in the text, ignoring case |
| Highlight.ReplaceLength | searchnotes.py:138 | a replacement at least as long as the term never shortens the text, and lengthens it when there is a match |
| Highlight.HighlightChangesIffOccurs | searchnotes.py:138 | highlighting a non-empty term changes the text exactly when the term occurs in it, ignoring case |
| Highlight.HighlightAllSpec | searchnotes.py:137-138 | highlighting all terms never shortens the page, and leaves it as it was when no (non-empty) term occurs |
| Index.DisplayNameSpec | searchnotes.py:85 | the display name holds no underscore and equals, up to case, the basename without its last four characters (the ".pdf" of a discovered path) with underscores turned into spaces |
| Index.PageAnchorOfPageName | searchnotes.py:139 | the page anchor read back from the record name of page n is `str(n)` |
| Index.LoadPageData | searchnotes.py:71-92 | the loop computes the fold `Merge` over the PDFs and only appends to both lists |
| Index.RecordsSpec | searchnotes.py:83-86 | a new PDF gets one record per page, in page order, each holding that page's text and the PDF's path, named "... - pg: i+1" with anchor i+1 |
| Index.MergeAppendsOnly | searchnotes.py:80-86 | the processed list and the page list only grow, by appending |
| Index.MergeProcessedPaths | searchnotes.py:77-80 | afterwards the processed paths are the earlier ones plus every PDF of the run |
| Index.MergeSkipsProcessed | searchnotes.py:77-79 | a run over already processed PDFs changes nothing |
| Index.MergeIdempotent | searchnotes.py:75-86 | loading the same PDFs a second time changes nothing |
| Index.MergeKeepsDistinct | searchnotes.py:77-80 | a processed list without duplicates stays without duplicates, even when a PDF is listed twice |
| Index.AppendedPaths | searchnotes.py:77-86 | every appended record belongs to a PDF that is processed after the run and was not before it |
| Index.AppendedRecordsOfPath | searchnotes.py:75-86 | the records appended for a path are exactly its pages' records, in page order, when it is new in the run, and none otherwise |
| Ranking.PutMembers | searchnotes.py:140 | after `results[k] = v` the dict holds (k, v), otherwise only earlier entries, and keeps every entry with another key |
| Ranking.PutDistinct | searchnotes.py:140 | assignment keeps keys unique |
| Ranking.PutExisting | searchnotes.py:140 | assigning an existing key replaces its value where it stands |
| Ranking.PutNew | searchnotes.py:140 | assigning a new key appends it |
| Ranking.PutKeySet | searchnotes.py:140 | the keys after an assignment are the earlier keys plus k |
| Ranking.AssignKeys | searchnotes.py:131-140 | a series of assignments gives a dict with unique keys, namely the keys written |
| Ranking.AssignLastWins | searchnotes.py:140 | the last write to each key is in the dict |
| Ranking.AssignSound | searchnotes.py:140 | every entry of the dict is the last write to its key |
| Ranking.AssignEmpty | searchnotes.py:131-140 | the dict is empty exactly when nothing was written |
| Ranking.SortDescSpec | searchnotes.py:108 | sorting by hits, descending, gives a non-increasing permutation that keeps entries with equal hits in their original order (stability) |
| Ranking.SortResultsSpec | searchnotes.py:105-108 | num = -1 selects every result, num >= 0 the first min(num, len) of the sorted list; the keys are returned in non-increasing hit order, without duplicates, drawn from the results; every result left out scores no more than every one selected; the sort is stable |
| Ranking.DisplayResultsSpec | searchnotes.py:110-117 | nothing is written exactly when there are no results; otherwise the file starts with "# Top Results" and contains every result key |
| Query.Render | searchnotes.py:139 | a rendered result starts with the Markdown link prefix and ends with a blank line and the highlighted page |
| Query.Highlighted | searchnotes.py:137-138 | the term loop computes `HighlightAll`, never shortens the page and leaves a page without occurrences unchanged |
| Query.QueryPages | searchnotes.py:131-140 | the page loop computes `QueryResults`; its keys are unique and every hit count is positive |
| Query.FilingsSpec | searchnotes.py:134-140 | a write is made exactly for each page with a positive score, under that page's result text with its score |
| Query.FilingsEmpty | searchnotes.py:136 | no write is made exactly when no page scores |
| Query.QueryResultsWellFormed | searchnotes.py:131-140 | the results have unique keys and positive hit counts |
| Query.QueryResultsSpec | searchnotes.py:134-140 | only scoring pages produce results; every scoring page's text is a key; each entry is the last write to its key |
| Query.QueryResultsEmpty | searchnotes.py:134-142 | the results are empty exactly when no term equals a chunk of any page; no terms give no results |
| Query.Enumerate | searchnotes.py:137 | the term set is enumerated once, without duplicates, covering every term |
| Query.SearchOnce | searchnotes.py:124-142 | "q"/"quit" (after lower-casing and stripping) stops; otherwise the display is `display_results` of the results for an enumeration of the query's terms, and "no results" is shown exactly when no term equals a chunk of any page |

## Left out

- `get_pages` (PyPDF2 text extraction) is the parameter `pagesOf`. Unreadable or malformed PDFs, which raise in the source, are not modelled.
- `word_tokenize` and the NLTK English stop-word list are the parameters `tokenize` and `stopWords`, because they belong to a natural-language library.
- File-system access is parameters or left out:
  - `os.listdir`, `os.path.isdir` and `os.path.exists` are parameters of `RetrievePdfs`;
  - `os.listdir` is a total function here: the error it raises when the root exists but is not a directory, or when a folder cannot be read, is not modelled;
  - `os.makedirs` is left out;
  - `os.path.abspath` is the parameter `absPath`.
- The JSON files are the inputs and outputs of `LoadPageData`. `check_data`, `get_processed`, `get_page_data` and `process_pdfs` only create, read or write those files, print, or clear the screen, so they are left out.
- `print`, `input`, `os.system('cls')` and the writing of `results.md` are I/O. `DisplayResults` returns the file content instead of writing it, and `SearchOnce` models one pass of the `while True` loop, with the input line as a parameter.
- Characters are ASCII for `lower`, `upper`, `title`, `strip` and the regex classes `\w` and `\s`. Unicode case mapping and Unicode white space are not modelled.
- `os.path` is the Windows flavour: both separators count. Drive prefixes such as `C:` get no special treatment.
- Highlight.ReplaceCI: a term is matched as a literal string, not as a regular expression. The two agree only for terms without regex metacharacters. The model does not state that the tokenizer yields only such terms: `tokenize` is unconstrained, so for a term such as "a.b" the model matches the literal text while `re.sub` would treat "." as a wildcard.
- Highlight.HighlightAllSpec: terms are applied one after the other, so a later term may also match inside the marker text an earlier term inserted (for example "mark" or "style"). The model does this too; the lemma only states the length bound and the unchanged case, not where the markers end up.
- Query.Highlighted: `start()` writes the highlighted text back into the page record. The model highlights a copy, because the page store is reloaded before every query and the change is never read again.
- Query.Render: the contract states only the prefix and the suffix of the rendered block. The middle (path with %20, page anchor, hit count) is given by its definition and by Index.PageAnchorOfPageName.
- Query.SearchOnce: the iteration order of the Python term set is not fixed. The contract says the display belongs to some duplicate-free enumeration of the terms.
