# Medicine lookup by barcode (medicament.ma) — Dafny model

The service answers `/scan?code=…` by fetching the barcode page of
medicament.ma for the code and reading a medicine record off it. This project
models what happens once the page has been fetched and parsed, and the check
of the `code` parameter before it:

- `Strings` — the Python string operations the extractor uses, over
  `seq<char>`: the `in` substring test, `str.replace` (one left-to-right pass),
  `str.strip` (with Python's whitespace set), `str.split` on one character and
  its inverse `join`.
- `Extraction` — the parsed page is plain data (`Page`: the raw response
  text, the text of the first `h1` if any, the texts of the `p` elements).
  `ExtractPage` is the specification of the answer: `NotFound` when the page
  holds "Aucun médicament trouvé" or has no `h1`, otherwise a `Medicine`
  record of five strings (code, commercial name, DCI, dosage, form).
  `ScanParagraphs` is the paragraph loop, updating the DCI and the dosage one
  paragraph at a time (last write wins, `elif` for the dosage), and
  `ExtractMedicine` the whole post-parse body; both are proved against the
  specification functions. `Lookup` puts the URL and the fetch in front,
  the network being a parameter `fetch` from URL to `Fetch`.
- `Scan` — the endpoint's own logic: a missing or empty `code` gets a 400
  answer; otherwise the stripped code is looked up.

Three consequences of `app.py` that the model keeps: the page is answered as
"not found" when the no-result text occurs anywhere in it, even with an `h1`;
whitespace inside the DCI and the dosage is left as it is, only the ends are
stripped; and a form candidate that starts with a digit is kept.

## Model

| member | source | states |
|---|---|---|
| `Strings.ContainsAt` | app.py:38 | the substring test holds exactly when the pattern occurs at some position of the text |
| `Strings.ContainsChar` | app.py:46 | testing for the one-character string "," is membership of the comma |
| `Strings.ReplaceAbsent` | app.py:40 | replacing a pattern that does not occur returns the text unchanged |
| `Strings.ReplaceChars` | app.py:40 | every character of a replacement's result comes from the text or from the replacement string |
| `Strings.Without` | app.py:40 | reference deletion of a character: the result lacks it and keeps every other character of the input |
| `Strings.WithoutConcat` | app.py:40 | deleting a character from a concatenation deletes it from each part |
| `Strings.WithoutAbsent` | app.py:40 | deleting a character that does not occur leaves the text unchanged |
| `Strings.ReplaceCharDeletes` | app.py:40 | `replace(":", "")` is exactly the deletion of every colon |
| `Strings.ReplaceUnmatchedHead` | app.py:40 | characters at which the pattern does not start are copied to the result as they are |
| `Strings.ReplaceIsOnePass` | app.py:40 | replace makes one pass: removing "Composition" from "CompCompositionosition" leaves "Composition" |
| `Strings.StripSlice` | app.py:40 | `strip` returns a slice of its input, everything cut off is whitespace, and the slice has no whitespace at either end |
| `Strings.StripShape` | app.py:42 | the stripped text has no whitespace at its ends and holds only characters of the input |
| `Strings.StripLeadingSpace` | app.py:40 | `strip` of whitespace followed by a stripped text gives exactly that text |
| `Strings.AllSpaceStripsToEmpty` | app.py:73 | a text made only of whitespace strips to the empty string |
| `Strings.StripStripped` | app.py:47 | stripping a text without whitespace at its ends leaves it unchanged |
| `Strings.Split` | app.py:47 | `split` always yields at least one piece |
| `Strings.JoinSplit` | app.py:47 | joining the pieces of a split with the separator gives back the text |
| `Strings.SplitPiecesFree` | app.py:47 | no piece of a split holds the separator |
| `Strings.LastPieceIsTail` | app.py:47 | `split(",")[-1]` is the suffix after the last comma, holds no comma, and is the whole text when there is no comma |
| `Extraction.LookupUrl` | app.py:11 | the lookup URL is the fixed barcode-query prefix followed by the code unchanged |
| `Extraction.LookupFetchesCodeUrl` | app.py:11-25 | a lookup gives a record exactly when the code's URL was fetched and is a medicine page, and the record carries the code looked up; "not found" exactly for a fetched page that is not a medicine page; a fetch failure is reported with its message |
| `Extraction.CleanLabelled` | app.py:40-42 | a cleaned paragraph is the paragraph with the keyword occurrences and then every colon deleted (the reference `Without`) and its ends stripped; it holds no colon, has no whitespace at its ends, and holds only characters of the paragraph |
| `Extraction.CleanLabelledParagraph` | app.py:40-42 | a paragraph "label, spaces and colons, value" cleans to exactly the value, inner whitespace kept, when the value has no colon, no copy of the label and no whitespace at its ends |
| `Extraction.DciOfTypicalParagraph` | app.py:36-40 | a page whose one paragraph reads "Composition : x" has the DCI `x` |
| `Extraction.LastIndexWhere` | app.py:36-42 | the index found is the last one whose paragraph matches; none is found only when no paragraph matches |
| `Extraction.ScanParagraphs` | app.py:32-42 | the loop ends with the DCI of the last "Composition" paragraph and the dosage of the last "Dosage" paragraph without "Composition", "" for each when there is none |
| `Extraction.ParagraphStep` | app.py:38-42 | one more paragraph overwrites the DCI exactly when it contains "Composition", and the dosage exactly when it contains "Dosage" and not "Composition" |
| `Extraction.DciIsLastComposition` | app.py:36-40 | the DCI is the cleaned text of the last paragraph containing "Composition" |
| `Extraction.DciEmptyWithoutComposition` | app.py:32 | with no paragraph containing "Composition" the DCI is "" |
| `Extraction.DosageIsLastDosageOnly` | app.py:41-42 | the dosage is the cleaned text of the last paragraph containing "Dosage" but not "Composition" |
| `Extraction.DosageEmptyWithoutDosage` | app.py:33 | with no such paragraph the dosage is "" |
| `Extraction.BothLabelsSetOnlyDci` | app.py:38-42 | a paragraph naming both "Composition" and "Dosage" sets the DCI and leaves the dosage as it was |
| `Extraction.ExtractMedicine` | app.py:24-57 | the post-parse body answers exactly as the specification `ExtractPage` |
| `Extraction.NotFoundExactly` | app.py:24-25 | the answer is "not found" exactly when the page holds "Aucun médicament trouvé" or has no `h1`, and a record otherwise |
| `Extraction.RecordFields` | app.py:51-57 | a record holds the given code unchanged and the `h1` text as its name; DCI and dosage hold no colon and no whitespace at their ends; the form holds no comma |
| `Extraction.FormAfterLastComma` | app.py:45-47 | the form is "" for a name without a comma, else the stripped text after the name's last comma |
| `Extraction.FormShape` | app.py:45-47 | the form holds no comma and has no whitespace at its ends |
| `Extraction.FormOfTail` | app.py:46-49 | whatever precedes the last comma, the form is the stripped text after it, with no rule on how it starts |
| `Extraction.FormKeepsDigitLeading` | app.py:48-49 | a name ending "… de 1,5 ML" gives the form "5 ML": a digit-leading candidate is kept |
| `Scan.ScanRejectsMissingCode` | app.py:69-70 | the answer is a 400 error exactly when the code parameter is absent or empty |
| `Scan.ScanLooksUpStrippedCode` | app.py:72-75 | otherwise the stripped parameter is looked up; it is a slice of the parameter without whitespace at its ends and is the code of any record returned |
| `Scan.BlankCodeIsLookedUp` | app.py:69-75 | the emptiness test comes before stripping, so every non-empty parameter made only of whitespace passes it and the empty code is looked up |

## Left out

- HTTP fetching (`requests.get`, the User-Agent header, the 15-second timeout): the network is the parameter `fetch`; a status other than 200, a timeout, a connection error and any other exception all become `FetchFailed` with an opaque message, so the four error texts of `extraire_medicament` are not modelled.
- HTML parsing and `get_text(strip=True)`: the page arrives as the raw text, the text of the first `h1` and the `p` texts, already stripped by the parser.
- The Flask application, CORS, the `/` index route, `jsonify` and the `PORT` environment lookup: framework plumbing with no logic of its own.
- The texts of the error answers other than the 400 message: the model answers `NotFound` and `Unavailable(message)` instead of `{"erreur": …}` dictionaries.
