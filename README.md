# Numerador Esportivo Web — a Dafny model of its labelling logic

Numerador Esportivo Web is a small web app for tagging photographs of a
sports event with the athletes' bib numbers. It has two tabs. In the
*manual* tab the operator walks through the uploaded images and types a
number for each. The app keeps one label per image in upload order, a
display order over the images, a cursor into that order and a "reversed"
flag. The operator can step back and forth, copy the previous image's
label and reverse the order. The export is a `name;label` CSV of the
labelled images in display order. In the *OCR* tab every image goes to a
text-recognition service. The app pulls the runs of digits out of the
returned text and builds one `name;runs` row per image, in upload order.
Rows without digits are kept.

This project models both pieces of logic and proves their properties:

- `wrappers.dfy`, module `Wrappers`: the `Option` type.
- `text.dfy`, module `Text`: the digit class, the `name;value` row, and
  `sep.join(parts)`. Joining is proved to be undone by a split, in both
  directions.
- `manual.dfy`, module `Manual`: the session as a class `ManualSession`.
  Its fields `labels`, `order`, `index` and `reversed` stand for
  `numeros`, `ordem`, `manual_index` and `invertido`. Each button is a
  method whose contract states the whole new state. The object invariant
  `Valid()` says four things: there is at least one image, `order` is a
  permutation of `0..n-1`, the cursor is in bounds, and no label is longer
  than 16 characters. The export is a family of functions with lemmas:
  order, soundness, completeness, behaviour under reversal, the
  no-download case, and the file's lines.
- `ocr.dfy`, module `Ocr`: `re.findall(r'\d+', text)` as a greedy scan,
  `DigitRuns`. The scan is characterised exactly. `DigitRuns` and `Gaps`
  cut the text into maximal digit runs and the non-digit text between
  them, and they spell the text back out. That cut is the only one with
  these properties. On top of this sit the row that is built per image,
  the loop over the uploads (a method with loop invariants), and the CSV
  download.

The recognition service is abstract. An upload reaches the model as its
file name and an `Option<string>`. The option holds the description of
the first text annotation, or nothing when the service returned no
annotation.

## Model

| member | source | states |
|---|---|---|
| `Text.DigitClass` | app.py:118 | the characters `\d` matches are exactly the ten ASCII digits `0` to `9` (the Unicode digits Python also accepts are not modelled, see "## Left out") |
| `Text.Line` | app.py:121 | when the name holds no `;`, splitting the row at `;` gives the name as the first field followed by the fields of the value, so a CSV reader recovers both |
| `Text.Join` | app.py:126 | `sep.join(parts)` of a non-empty list is as long as the parts together plus one separator between each two; its inverse is `Split` (see `Text.SplitJoin` and `Text.JoinSplit`) |
| `Text.SplitJoin` | app.py:79 | splitting `sep.join(parts)` at `sep` gives back `parts` exactly, when there is at least one part and no part contains `sep` |
| `Text.JoinSplit` | app.py:126 | joining the pieces of any split gives back the original string |
| `Text.JoinAvoids` | app.py:121 | a character that is neither the separator nor in any part does not occur in the joined string |
| `Manual.Identity` | app.py:36 | `list(range(n))` has length `n` and holds `i` at position `i` |
| `Manual.Reverse` | app.py:69 | `list(reversed(s))` has the length of `s` and holds `s[n-1-k]` at position `k` |
| `Manual.ReverseInvolutive` | app.py:68-71 | reversing twice gives the original order back |
| `Manual.IdentityIsPermutation` | app.py:36 | the initial display order is a permutation of the upload positions |
| `Manual.ReversePermutation` | app.py:69 | reversing a permutation of `0..n-1` gives a permutation of `0..n-1` |
| `Manual.PermutationCovers` | app.py:39-48 | every upload position occurs in a permutation of `0..n-1` (pigeonhole), so every image can be put on display |
| `Manual.ManualSession.constructor` | app.py:33-37 | after the first upload of `n > 0` files: `n` empty labels, order = identity, cursor 0, flag false; the invariant holds |
| `Manual.ManualSession.Displayed` | app.py:47-48 | the image on display, `ordem[idx]`, is a valid upload position reached through the order |
| `Manual.ManualSession.Edit` | app.py:50-54 | the typed value (at most 16 characters) is written to `labels[order[index]]` and nowhere else; order, cursor and flag are unchanged; the invariant is kept |
| `Manual.ManualSession.Previous` | app.py:58-59 | the cursor goes down by one when it is above 0 and stays put otherwise; labels, order and flag are unchanged |
| `Manual.ManualSession.CopyPrevious` | app.py:61-62 | when the cursor is above 0, `labels[order[index]]` takes the value of `labels[order[index-1]]` and no other label changes; at 0 nothing changes; order, cursor and flag are unchanged |
| `Manual.ManualSession.Next` | app.py:65-66 | the cursor goes up by one when it is below `n-1` and stays put otherwise; labels, order and flag are unchanged |
| `Manual.ManualSession.ReverseOrder` | app.py:68-71 | the order becomes its reverse, the flag flips and the cursor returns to 0; labels are unchanged; the order stays a permutation |
| `Manual.RevisitKeepsLabel` | app.py:50-66 | after typing a value, stepping to the next image and back, the value is on display again at the same cursor |
| `Manual.ReverseTwice` | app.py:68-71 | two reversals restore the order, the flag and the labels and leave the cursor at 0 |
| `Manual.ManualLines` | app.py:77 | the export has at most one row per entry of the order |
| `Manual.ManualLinesAppend` | app.py:77 | the rows for a concatenated order are the rows of the first part followed by the rows of the second, so rows follow the display order |
| `Manual.ManualLinesEmpty` | app.py:77-78 | there are no rows exactly when every label reached through the order is empty |
| `Manual.ManualLinesSound` | app.py:77 | every row is `name;label` of some image in the order whose label is not empty |
| `Manual.ManualLinesComplete` | app.py:77 | every image in the order with a non-empty label has its `name;label` row |
| `Manual.ManualExportCovers` | app.py:77 | with the session's permutation, every labelled image appears in the export, wherever it is in the order |
| `Manual.ManualLinesReverse` | app.py:69 | with the order reversed, the export holds the same rows in the opposite order |
| `Manual.ManualCsv` | app.py:77-80 | no download is offered exactly when there is no non-empty label in the order; otherwise the file is the rows joined by newlines |
| `Manual.ManualCsvRows` | app.py:79 | when no name or label contains a newline, the lines of the downloaded file are exactly the export's rows |
| `Manual.ManualCsvExample` | app.py:77-79 | images `a.jpg`, `b.jpg`, `c.jpg` with labels `""`, `42`, `7` in upload order give the file `b.jpg;42` newline `c.jpg;7` |
| `Ocr.LeadingDigits` | app.py:118 | the run of digits at the front of a text is all digits and is followed by a non-digit or by the end |
| `Ocr.DigitRuns` | app.py:118 | every run `findall` returns is non-empty and all digits |
| `Ocr.Gaps` | app.py:118 | there is one more gap than there are runs, and no gap holds a digit |
| `Ocr.Tokenize` | app.py:118 | gaps and runs alternate to spell the text exactly, in text order; runs are separated by at least one non-digit, so each run is maximal |
| `Ocr.TokenizationUnique` | app.py:118 | any cut of a text into non-empty digit runs separated by non-empty non-digit gaps is the one `DigitRuns` finds |
| `Ocr.RunsSpellDigits` | app.py:118 | the runs put together equal the text with every non-digit removed |
| `Ocr.NoRunsIffNoDigits` | app.py:117-120 | there are no runs exactly when the text holds no digit |
| `Ocr.DigitRunsExample` | app.py:118 | `Bib #042 Lane3` gives the runs `042` and `3` |
| `Ocr.Numbers` | app.py:115-120 | `numeros` holds non-empty digit runs, and it is empty exactly when there is no annotation or the annotation holds no digit |
| `Ocr.OcrLineShape` | app.py:121 | both branches of the row agree with `name;` followed by the runs joined by single spaces, so a row without runs is exactly `name;` |
| `Ocr.OcrLineFields` | app.py:121 | the row starts with the name and `;`; its value is empty without runs and otherwise splits at spaces into the runs |
| `Ocr.OcrLineSingle` | app.py:121 | a row holds no newline when the file name holds none |
| `Ocr.RunOcr` | app.py:106-122 | the loop produces exactly one row per upload, in upload order, the row of that upload |
| `Ocr.OcrCsv` | app.py:125-126 | the OCR download exists exactly when there is at least one row |
| `Ocr.OcrCsvRows` | app.py:126 | when no file name holds a newline, the downloaded file has exactly one line per image, in upload order, rows without runs included |

## Left out

- Credential bootstrap (app.py:5-10, app.py:19): it writes a key file and sets an environment variable. Line 19 also sets the variable again unconditionally, whatever lines 5-10 chose.
- The recognition service: creating the client and calling `text_detection` (app.py:105, app.py:113-114) are network calls into a vendor SDK. The model receives the first annotation's description as an `Option<string>` instead.
- Errors raised by the recognition service: the code has no handler, so an exception ends the script run of Streamlit and no download appears. The model covers the successful run only.
- Streamlit rendering and widgets: images, columns, the focus callback, the info text, the buttons, the selectbox, the download widget itself, and `st.experimental_rerun`. Each button press is modelled as one state transition. Streamlit's re-run on every interaction is not modelled. The same goes for how a widget carrying the `key` argument keeps its own value across re-runs.
- Manual.ManualSession.Edit: the 16-character limit is enforced by the text widget (`max_chars=16`). The model states it as a precondition of the edit and keeps it as an invariant.
- Reading the uploads' bytes and decoding them as images (app.py:47, app.py:112, app.py:123).
- The progress animation `esporte_svg` (app.py:85-98, app.py:110-111, app.py:124): it is cosmetic, and it scales with floating-point division.
- Manual.ManualSession.constructor: the session is set up only when `manual_index` is missing (app.py:33). A later upload of a different number of files is not detected by the code. The model starts from the first upload, and `Next` takes the number of uploads to be the number of labels (`len(uploaded_files)` at app.py:65).
- The OCR download is behind a button (app.py:125). The model states only the condition on the rows.
- `\d` in Python matches every Unicode decimal digit. The model matches the ASCII digits `0` to `9` only.
