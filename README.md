# citelink in Dafny

citelink rewrites a research paper's PDF so that its in-text citation links no
longer jump to the bibliography. Each one opens a Google "I'm feeling lucky"
search for the cited work instead. The repository ships the same console
program twice:

- `cite_link_changer.cs`
- `pdf_link_changer.cs`, a second copy without the length cap, the
  reserved-character stripping, the null check on action dictionaries and the
  ".pdf" retry on the file-name argument.

This project models both copies at once. The four differences are predicates
of `Variants.Variant`, and everything else is written once.

Modules:

- `Variants`: the two copies and the four places where they differ.
- `CitationText`: the pure string pipeline, from the text found at a
  citation's anchor to the search URL. It covers:
  - the `\d{4}` delimiter;
  - the 400-character cap;
  - the chain of `Replace` calls;
  - the URL concatenation.
- `PageResolution`: the backward scan that turns a destination's page
  object into a page number, proved against a specification function and
  compared with a forward scan.
- `LinkRewriting`: the walk over pages and annotations that rewrites
  action dictionaries in place.
  - An action dictionary is a class whose `entries` map the walk updates with
    `Put`.
  - `Processed` states, as a function of an action's entries, what the walk
    makes of them.
  - The walk is proved to leave every reachable action dictionary in the
    state `Processed` gives, including dictionaries shared by several
    annotations.
- `FileSelection`: choosing the input PDF (from the command-line argument,
  or the newest PDF whose name does not start with "output") and probing
  for a free output name (`output.pdf`, `output_1.pdf`, ...).

Where the program would throw, the model has a precondition instead:

- an action without an `/S` entry;
- a citation naming an unknown destination;
- in `pdf_link_changer.cs`, an annotation without an action dictionary.

The walker's `requires` clauses name these cases. Several behaviours of the
code are easy to misread, and the model follows the code in each:

- When the destination's page object is not among the document's pages, the
  page number stays 0 and is still passed to text extraction (`CitationUrl`).
  Nothing skips the link.
- The 400-character cap applies whenever the text before the first
  four-digit run is longer than 400 characters, whether or not a run exists.
- Only the left curly quote U+201C is removed; the right one, U+201D, is kept.
- `\d{4}` matches the first four digits of any longer run of digits.
- The backward page scan returns the *last* page equal to the target. This
  agrees with a forward scan exactly when the target occurs at most once
  (`ScanDirectionAgrees`, `ScanDirectionMatters`).

## Model

| member | source | states |
|---|---|---|
| CitationText.BeforeDigitRun | cite_link_changer.cs:166 | The first element of the `\d{4}` split is a prefix of the text. No four-digit run starts inside it, and it contains none. It is the whole text or ends exactly where the first run starts. |
| CitationText.BeforeDigitRunUnique | cite_link_changer.cs:166 | Those properties determine the split result uniquely. |
| CitationText.Delimit | cite_link_changer.cs:166-171 | The cut-off text is a prefix holding no four-digit run and capped at 400 characters in cite_link_changer.cs. It stops early only at the first run or at the cap. Text with no run (and, in the capped copy, at most 400 characters) is kept whole. pdf_link_changer.cs:163 is the uncapped case. |
| CitationText.DelimitExample | cite_link_changer.cs:165-171 | For "Smith, J. 2019. A Great Paper." the citation text is "Smith, J. ". |
| CitationText.StrippedChars | cite_link_changer.cs:177-180 | The characters removed one `Replace` at a time, in the source's order. cite_link_changer.cs removes CR, LF, `(`, `)`, U+201C (not U+201D), `"`, `_`, `*`, `-` and `\|`; pdf_link_changer.cs:168 removes only CR and LF. A definition; `Sanitize` and its lemmas state what removing them achieves. |
| CitationText.RemoveEach | cite_link_changer.cs:177-180 | The chain of single-character `Replace(c, "")` calls, applied in list order. A definition; `RemoveEachStrips` proves it equals one removal of the whole set. |
| CitationText.Strip | cite_link_changer.cs:177 | `Replace(c, "")` keeps exactly the characters not removed and never lengthens the text. |
| CitationText.StripTwice | cite_link_changer.cs:177-180 | Two removals in a row equal one removal of both character sets. |
| CitationText.RemoveEachStrips | cite_link_changer.cs:177-180 | The chain of single-character `Replace` calls removes exactly the listed characters. |
| CitationText.StripNothing | cite_link_changer.cs:177 | Removing characters a text does not contain leaves it unchanged. |
| CitationText.RemoveDoubleDots | cite_link_changer.cs:180 | After `Replace("..", "")` no two dots are adjacent. No new characters appear, and a leading non-dot character stays first. |
| CitationText.RemoveDoubleDotsNothing | cite_link_changer.cs:180 | A text without ".." is left unchanged. |
| CitationText.RemoveDoubleDotsKeepsOthers | cite_link_changer.cs:180 | Only dots are removed: the text minus its dots is the same before and after. |
| CitationText.RemoveDoubleDotsSplit | cite_link_changer.cs:180 | When the text is cut right after a character other than '.', `Replace("..", "")` works on each piece separately and the results are concatenated. |
| CitationText.LeadingDotRunHalves | cite_link_changer.cs:180 | A run of k dots at the start of the text, followed by a non-dot or the end, comes out as k mod 2 dots. |
| CitationText.DotRunHalves | cite_link_changer.cs:180 | A maximal run of k dots anywhere in the text comes out as k mod 2 dots, with the text before and after processed on its own. |
| CitationText.SpacesToPlus | cite_link_changer.cs:182 | `Replace(" ", "+")` keeps the length and maps each space to '+', leaving every other character in place. |
| CitationText.SpacesToPlusKeepsNoDoubleDot | cite_link_changer.cs:182 | Turning spaces into '+' creates no "..". |
| CitationText.StripSpacesToPlus | cite_link_changer.cs:177-182 | Removing characters other than ' ' and '+' commutes with turning spaces into '+'. |
| CitationText.StripQuery | cite_link_changer.cs:177-180 | The query before the last `Replace` holds only characters of the input, none of the removed characters, and (in cite_link_changer.cs) no "..". |
| CitationText.Sanitize | cite_link_changer.cs:177-182 | The query holds no CR, LF or space and none of the removed characters. In cite_link_changer.cs it holds no "..". pdf_link_changer.cs:168-170 is the light variant. |
| CitationText.SanitizeIdempotent | cite_link_changer.cs:177-182 | Sanitizing a sanitized query changes nothing. |
| CitationText.SanitizeKeepsOthers | cite_link_changer.cs:177-182 | Ignoring dots, the query is the input with the listed characters removed and spaces turned into '+', in order. In pdf_link_changer.cs the query is exactly that, dots included. |
| CitationText.SanitizeCleanText | cite_link_changer.cs:177-182 | Text without any removed character (and without "..") only has its spaces turned into '+'. |
| CitationText.SearchUrl | cite_link_changer.cs:184 | The URL is the search prefix, then the query, then "&btnI"; the query can be read back from it. |
| PageResolution.LastPageNumber | cite_link_changer.cs:127-136 | The result is 0 exactly when the target is not a page. Otherwise it is the 1-based number of the last page equal to the target. |
| PageResolution.ResolvePage | cite_link_changer.cs:127-136 | The backward loop with its early `break` returns `LastPageNumber`. |
| PageResolution.FirstPageNumber | cite_link_changer.cs:123-128 | A forward scan as reference: 0 when absent, else the first matching page's 1-based number. |
| PageResolution.ScanDirectionAgrees | cite_link_changer.cs:123-136 | The backward and forward scans agree if and only if the target page object occurs at most once. |
| PageResolution.ScanDirectionMatters | cite_link_changer.cs:127-136 | With the target twice among two pages, the backward scan gives 2 and the forward one gives 1. |
| LinkRewriting.ActionDictionary.Put | cite_link_changer.cs:192-193 | `Put` sets one key of the action dictionary and leaves the others alone. |
| LinkRewriting.IsCitationLink | cite_link_changer.cs:106-114 | The condition the skip chain tests: /S is GoTo, and /D is a string starting with "cite" (ordinal prefix test). A definition; `ProcessedAction` and `ProcessAction` state what happens when it holds and when it does not. |
| LinkRewriting.CitationRegion | cite_link_changer.cs:139-152 | The extraction rectangle: lower-left (left, top) from the destination, upper-right x the width of page 1, upper-right y 0. A definition passed to the extractor unchanged. |
| LinkRewriting.CitationUrl | cite_link_changer.cs:117-184 | A citation's new URL starts with the Google search prefix and ends with "&btnI". |
| LinkRewriting.Redirect | cite_link_changer.cs:192-193 | The two `Put` calls: the result has the old keys plus /S and /URI, /S is the name URI, /URI holds the URL, and every other entry is kept. |
| LinkRewriting.Processed | cite_link_changer.cs:106-193 | What one visit makes of an action's entries: `Redirect` to `CitationUrl` for a citation link, unchanged otherwise. The specification function of the walk; its properties are in `ProcessedAction` and `ProcessedIdempotent`. |
| LinkRewriting.CitationUrlIsClean | cite_link_changer.cs:158-184 | Whatever text extraction returns, the query inside the URL has no space or line break and is a fixed point of the sanitizer. |
| LinkRewriting.ProcessedAction | cite_link_changer.cs:106-193 | A GoTo action to a destination named "cite..." becomes a URI action whose URI is that citation's search URL. It gains only the /URI key, and every other entry, /D included, is unchanged. Any other action is untouched. The result is no longer a citation link. |
| LinkRewriting.ProcessedIdempotent | cite_link_changer.cs:98-193 | Rewriting an already rewritten action changes nothing more, so an action shared by several annotations is rewritten once. |
| LinkRewriting.ProcessAction | cite_link_changer.cs:104-193 | The in-place rewrite (skip chain, backward page scan, extraction, delimiter, sanitizer, URL, two `Put` calls) leaves the dictionary's entries equal to `Processed` of the old ones. pdf_link_changer.cs:97-181 is the same. |
| LinkRewriting.ChangePageLinks | cite_link_changer.cs:96-104 | The annotation loop of one page leaves every action of that page as `Processed` of its entries before the loop. It changes nothing else. A missing annotation array or a null action is skipped; pdf_link_changer.cs requires actions present. |
| LinkRewriting.ChangeCitationLinks | cite_link_changer.cs:90-198 | The walk over pages 1..N leaves every action dictionary reachable from an annotation as `Processed` of its entries before the walk, and changes nothing else. |
| FileSelection.PdfFiles | cite_link_changer.cs:28 | The files listed are exactly those of the directory whose name ends in ".pdf". |
| FileSelection.Decimal | cite_link_changer.cs:84 | The counter's spelling is a non-empty string of ASCII digits with no leading zero (except "0" itself); it has one digit exactly when the number is below 10. |
| FileSelection.DecimalRoundTrip | cite_link_changer.cs:84 | Reading the spelling back with an independent left-to-right digit fold (`DecimalValue`) gives the number. |
| FileSelection.DecimalInjective | cite_link_changer.cs:84 | Different counters have different spellings. |
| FileSelection.OutputCandidate | cite_link_changer.cs:80-84 | The n-th probed name: output.pdf, then output_n.pdf. Every candidate ends in ".pdf" and starts with "output", so input selection never picks an output by itself. |
| FileSelection.OutputCandidateInjective | cite_link_changer.cs:80-86 | The probe never tries the same output name twice. |
| FileSelection.ProbeOutputName | cite_link_changer.cs:80-86 | The output name is not an existing file. It is the n-th candidate of the sequence output.pdf, output_1.pdf, ..., and every earlier candidate exists. The loop terminates. |
| FileSelection.OrderByNewest | cite_link_changer.cs:59-60 | The files are ordered by last write time, newest first, and the result is a permutation of the input. |
| FileSelection.IsOutputName | cite_link_changer.cs:66 | A name starting with "output" (ordinal prefix test). A definition used by `NewestInput` and `OutputCandidate`. |
| FileSelection.NewestInput | cite_link_changer.cs:58-71 | The chosen file is a newest PDF whose name does not start with "output". When every name starts with "output", the result is the empty name. |
| FileSelection.SelectInput | cite_link_changer.cs:28-72 | With no PDF in the directory, the program stops. With an argument, it picks that file if it exists. Otherwise cite_link_changer.cs tries the argument with ".pdf" appended, and the program stops with "not found" if that fails too; pdf_link_changer.cs:38-47 stops at once. With no argument, it picks the newest non-output PDF. A non-empty selection always names a file of the directory. |

## Left out

- The iTextSharp object model is reduced to what the program reads. Pages are page objects compared by equality. Annotations carry an optional action dictionary, whose values are names, strings or other objects. A named destination is reduced to a page object and an anchor; the array shape `[page, /XYZ, left, top, ...]` and its casts are not modelled.
- Text extraction (`GetTextFromPage` with a region filter) is a function parameter `TextExtractor`. Its behaviour for page number 0, which the code passes when no page matched, is therefore not modelled.
- Coordinates and the page width are `real` values passed through unchanged; 32-bit float rounding is not modelled.
- The content-stream decode at pdf_link_changer.cs:130-132 is not modelled. Its value is never used, but the `(PRStream)` cast throws when the target page's /Contents is an array, and `GetStreamBytes` fails when /Contents is missing. In those cases pdf_link_changer.cs aborts, while the model rewrites the link.
- Console output, opening the PDF, the stamper, closing files, and deleting and renaming the input (cite_link_changer.cs:73-77, 88, 199-205) are I/O and are not modelled.
- Exceptions the code does not handle are preconditions of the walker rather than error results:
  - a missing /S entry;
  - an unknown destination;
  - a null action in pdf_link_changer.cs;
  - an annotation entry that is not a dictionary.
- `Directory.GetFiles` with a pattern is modelled as a name lookup, so wildcards in the argument are not modelled. `*.pdf` is a case-sensitive suffix test. File names stand for full paths, and `Path.GetFileName` is the identity.
- ProbeOutputName: `count_file` is an unbounded integer; 32-bit overflow after 2^31 existing output files is not modelled.
- OrderByNewest: the contract states that the result is sorted newest first and is a permutation of the input. It does not state that files with equal write times keep their listing order, though LINQ's `OrderByDescending` is stable and the function is a stable insertion sort.
- NewestInput: the contract states that the result is a newest non-output PDF, but not which one among files with equal write times. The model uses a stable sort (`OrderByNewest`) as LINQ does, but does not state that tie order.
- Delimit: `Substring(0, 400)` counts UTF-16 code units, while the model counts Unicode scalar values. `\d` matches only ASCII digits in the model, while .NET's also matches other Unicode decimal digits.
- IsOutputName: `StartsWith("output")` is an ordinal prefix test here; .NET's default comparison is culture-sensitive.
- IsCitationLink: `StartsWith("cite")` (cite_link_changer.cs:114, pdf_link_changer.cs:105) is an ordinal prefix test here as well, not .NET's culture-sensitive one.
- A `PdfString`'s `ToString()` is taken to be its text.
