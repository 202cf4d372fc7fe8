# ArquivosAlelo redaction engine — a verified Dafny model

`process_files_and_zip` (app.py) takes a roster of employees (NOME and
MATRICULA) and one voucher PDF. For each roster line, in roster order, it
opens a fresh copy of the PDF and visits every page:

- A page belongs to the employee when the registration number occurs in the
  page text as a whole word, i.e. when the pattern `\b{matricula}\b` matches.
- On such a page it highlights the library's search hits for the number,
  then every text block whose own text matches the same pattern.
- It blacks out every block that carries none of the fixed header labels
  (`fixed_info`) and touches none of the highlighted regions.
- The matching pages are copied in ascending order into a new PDF.
- The new PDF is named `NOME + suffix + ".pdf"` and saved with AES-256,
  print-only permission and a fixed owner password.
- The PDF is written to a zip archive, and a ledger row (MATRICULA, NOME) is
  appended.

The suffix is chosen once per run: `_VRHO` when "home" appears, in any case,
in the text of the whole document, and `_AL` otherwise. After the last
record, the ledger is written as `dados_selecionados.xlsx`. A missing input
or an empty PDF stops the run before any record is processed.

The model keeps the imperative shape of the code. Two parts are classes
updated in place:

- `WorkingCopy`: the per-record PDF copy, whose pages collect annotations.
- `ZipWriter`: the archive, whose member list grows.

The loops over pages, hits, blocks, marked pages and roster lines are
methods with loop invariants. Each method is proved equal to a pure
specification function:

| method | specification function |
|---|---|
| `MarkPage` | `PageAnnots` |
| `MarkAllPages` | `MatchedPages` |
| `MarkAndSave` | `RecordOutput` |
| `ProcessFilesAndZip` | `Process` |

The properties the application relies on are lemmas about those functions.

Modules, one file each:

- `Geometry` (geometry.dfy): integer rectangles and PyMuPDF's `Rect.intersects`.
- `Matching` (matching.dfy):
  - Python's `\b` word boundary and `re.search` for `\b{id}\b`;
  - the substring test `info in block_text`;
  - the case-insensitive search for "home";
  - `"\n".join`.
- `Annotation` (annotation.dfy): the per-page decisions, the working copy,
  and the page-marking methods.
- `Extraction` (extraction.dfy): page selection and the per-record output.
- `Batch` (batch.dfy): the input checks, the suffix, the record loop, the
  ledger and the archive.
- `Scenarios` (scenarios.dfy): concrete runs on small documents.

## Model

| member | source | states |
|---|---|---|
| Geometry.Intersection | app.py:98 | The common rectangle of two rectangles lies inside both of them. |
| Geometry.IntersectsIsStrictOverlap | app.py:98 | `rect.intersects(block_rect)` holds exactly when the two rectangles overlap strictly on both axes. The test is symmetric. |
| Geometry.IntersectsSelf | app.py:79-98 | A rectangle intersects itself exactly when it is non-empty. |
| Matching.SearchFrom | app.py:66 | Finds the leftmost whole-word match at or after a start position, or reports that there is none. |
| Matching.Search | app.py:65-66 | `re.search(rf'\b{id}\b', text)` succeeds exactly when the text contains the identifier as a whole word. The position found is the leftmost match. |
| Matching.WholeWordIsDelimitedToken | app.py:65-66 | Applies to a non-empty identifier made of word characters. An occurrence matches `\b…\b` exactly when it is neither preceded nor followed by a word character. |
| Matching.PartOfLongerTokenIsNoMatch | app.py:65-66 | An occurrence glued to a word character on either side (as "45" inside "4567") is not a match. |
| Matching.JoinLinesHoldsEachText | app.py:50 | Every page text occurs, unchanged, in the text joined with "\n". |
| Matching.ContainsIgnoreCaseAcrossBreak | app.py:50-51 | Take a pattern without line breaks and two texts joined by one line break. The joined text matches exactly when one of the two texts does. |
| Matching.JoinLinesContainsIgnoreCase | app.py:50-51 | Joining page texts with "\n" neither creates nor hides a case-insensitive match: the joined text matches exactly when some page does. |
| Annotation.MatchingBlockRects | app.py:74-80 | The rectangle of every block whose text matches is collected. Every collected rectangle belongs to a matching block. |
| Annotation.RedactedBlocks | app.py:88-101 | A block is blacked out exactly when it carries no fixed label and intersects no highlight. |
| Annotation.PageAnnotsShape | app.py:64-101 | A page that does not match receives no annotation. A matching page receives one highlight per highlight region, in order, followed only by black rectangles. Those lie exactly over the blocks that are neither protected nor touching a highlight. |
| Annotation.ProtectedBlockNeverRedacted | app.py:88-95 | A block containing one of the `fixed_info` labels is never blacked out. |
| Annotation.MatchingBlockNeverRedacted | app.py:74-98 | A non-empty block whose text matches the identifier is highlighted and never blacked out. |
| Annotation.WorkingCopy.constructor | app.py:57 | A fresh copy of the document holds the source pages and no annotation. |
| Annotation.WorkingCopy.AddHighlightAnnot | app.py:84-86 | Appends one highlight to one page. No other page changes. |
| Annotation.WorkingCopy.AddRectAnnot | app.py:99-101 | Appends one black rectangle to one page. No other page changes. |
| Annotation.CollectHighlightRects | app.py:67-80 | The loops over search hits and blocks collect exactly the hits, then the matching block rectangles. |
| Annotation.ApplyHighlights | app.py:82-86 | Appends one highlight per region, in order, to the given page only. |
| Annotation.ApplyBlackouts | app.py:88-101 | Skips protected blocks and appends a black rectangle over every other block that intersects no highlight, in block order. Only the given page changes. |
| Annotation.MarkPage | app.py:60-103 | Reports whether the page matches. Appends exactly that page's specified annotations to it and to no other page. |
| Extraction.MatchedPages | app.py:58-103 | The selected page indices are in range and strictly increasing. They are exactly the pages whose text matches the identifier. |
| Extraction.CopiedPagesAreMatches | app.py:105-110 | The copied pages are the matching pages, each once, in document order. Each carries its own page and that record's annotations. |
| Extraction.RecordOutputSpec | app.py:105-119 | A record yields a PDF exactly when some page matches. The PDF is named `nome + sufixo + ".pdf"` and saved with the fixed protection. It holds exactly the matching pages, in strictly increasing order, each with its annotations. |
| Extraction.MarkAllPages | app.py:58-103 | The page loop on a fresh copy collects exactly the matching page indices. It leaves every page carrying its specified annotations. |
| Extraction.InsertPages | app.py:108-110 | Copying the marked pages out of the annotated copy gives those pages, in the order given, with their annotations. |
| Extraction.MarkAndSave | app.py:56-124 | One record's processing gives the output that is a function of the source, the suffix and that record alone. So no record's annotations reach another record's output. |
| Batch.SuffixSpec | app.py:50-51 | The suffix is `_VRHO` or `_AL`. It is `_VRHO` exactly when some page's text contains "home" in any case. |
| Batch.Producers | app.py:105-122 | A record is among the producers exactly when it is in the roster and matched at least one page. |
| Batch.AppendRecord | app.py:121-127 | One step of the record loop, by unfolding the definitions of the PDF and ledger lists: one more roster line appends its PDF when it has one, and its ledger row exactly when some page matched. It yields a PDF exactly when some page matched. |
| Batch.LedgerMatchesOutputs | app.py:105-127 | Ledger rows and PDF members pair up one to one in roster order: the k-th row and the k-th PDF come from the same record. |
| Batch.UnmatchedRecordContributesNothing | app.py:103-127 | A record whose number matches no page yields no PDF, and no ledger row carries its number. |
| Batch.ProcessSpec | app.py:22-139 | A run fails with `MissingFiles` exactly when an input is absent, and with `EmptyPdf` exactly when the PDF has no bytes. Otherwise the archive ends with the ledger, which has one row per preceding PDF. Every PDF is protected and named after its row's NOME and the suffix. |
| Batch.ZipWriter.constructor | app.py:55 | A new archive has no members. |
| Batch.ZipWriter.WriteStr | app.py:121 | Writing appends exactly one member at the end. |
| Batch.ProcessFilesAndZip | app.py:22-139 | The run, with its record loop, yields exactly the specified result: the error, or every member in writing order. |
| Scenarios.NoHomeSuffix | app.py:50-51 | A document with no letter 'h' or 'H' gets the `_AL` suffix. |
| Scenarios.HomeOfficeSuffix | app.py:50-51 | A document whose first page says "Home Office" gets the `_VRHO` suffix, whatever follows. |
| Scenarios.OnlySecondPageMatches | app.py:60-66 | Of the pages "AL", "ID 123" and "ID 1234", only the second holds "123" as a whole word. |
| Scenarios.FoundOnOnePage | app.py:22-139 | For Ana with "123", found on the second page only, the archive holds `Ana_AL.pdf` with exactly that page, then a ledger with the row ("123", "Ana"). |
| Scenarios.NoMatchInsideLongerNumber | app.py:65-66 | "45" does not match the page "4567". |
| Scenarios.InsideLongerNumber | app.py:22-139 | For Bea with "45" and the page "4567", the archive holds only an empty ledger. |
| Scenarios.SharedNumberRows | app.py:105-127 | Two records with the same number, matched by the first page only, give two PDFs of that page and two ledger rows, in roster order. |
| Scenarios.SharedNumber | app.py:126-127 | Two roster lines with the number "99" each get their own protected copy of the page, and each gets a ledger row. |
| Scenarios.VoucherHighlights | app.py:67-80 | On the example voucher page, the highlights are the search hit, then the block holding the number. |
| Scenarios.VoucherProtection | app.py:39-40 | Of the example blocks, only the "CPF" block carries a fixed label. |
| Scenarios.VoucherRedaction | app.py:88-101 | On the example page only the amount block is blacked out. The labelled block is skipped, and the number's block touches a highlight. |
| Scenarios.RedactOnePage | app.py:64-101 | The example voucher page receives two highlights, then one black rectangle over the amount block. |

## Behaviour worth knowing

- An empty roster is not an error. The record loop (app.py:126-127) then
  runs no step, and the archive holds only an empty ledger (app.py:129-133).
- The `try` at app.py:31-137 has a `finally` and no `except`, so any
  exception aborts the whole run and no archive is returned. Such exceptions
  can come from several places:
  - pandas, for a missing `COMPROVANTES` sheet or a missing NOME or
    MATRICULA column (app.py:33-36);
  - the regular-expression engine, for an identifier that is not a valid
    pattern (app.py:65-66, 79);
  - the PDF library.
- On a matching page, only the regions in `highlight_rects` are highlighted
  (app.py:83-86): the search hits and the blocks whose own text matches. A
  block that merely touches a highlight and carries no label gets no
  annotation.
- Every output is saved with the same fixed protection (app.py:113-118):
  AES-256, printing as the only permission, and the owner password
  "senha_segura".
- A block carrying a label is never given a black rectangle of its own
  (app.py:94-95). Its area can still be covered by the black rectangle of
  another, overlapping block.

## Left out

- The Streamlit interface, session reset, page-reload script, download button
  and `get_downloads_folder` (app.py:11-20, 141-187) are user-interface
  plumbing.
- Reading the roster with pandas (sheet `COMPROVANTES`, column stripping,
  `astype(str)`) is library I/O. The roster is a sequence of (name,
  identifier) pairs.
- Writing the ledger as an Excel file is library I/O. The ledger is a
  sequence of (MATRICULA, NOME) rows.
- The PDF library's text extraction, `get_text("blocks")` and `search_for`
  are inputs of the model: each page carries its text, its blocks, and a
  map from a search string to its hit rectangles (no entry means no hits).
  How the library finds these is not modelled.
- Annotation colours, `update()` and rendering are not modelled. An
  annotation is recorded as a highlight or a black rectangle over a region.
- `insert_pdf` and `save` are modelled as copying a page together with its
  recorded annotations. The PDF bytes are not modelled.
- AES-256 encryption is a foreign cryptographic call. The model records only
  the protection settings every output is saved with.
- The zip archive's byte format is not modelled. The archive is an ordered
  list of (name, content) members.
- Regular-expression metacharacters in the identifier are not modelled. The
  code interpolates the identifier into the pattern without escaping it, and
  the model reads the identifier literally, which is exact for identifiers
  without metacharacters.
- An identifier that is not a valid pattern (an unbalanced parenthesis, for
  instance) makes `re.search` raise and aborts the whole run. The model,
  which reads the identifier literally, does not capture this abort.
- Errors raised while the roster is read (a missing sheet or column) are
  not modelled, because the roster is an input of the model.
- Annotation.RedactedBlocks: a block with an empty rectangle intersects
  nothing, so the model records a black rectangle over it unless it carries a
  label. Whether the PDF library accepts or rejects an empty rectangle in
  `add_rect_annot` is not modelled.
- Matching.IsWordChar: Python's `\w` is exact for code points up to U+00FF
  (ASCII letters and digits, underscore, Latin-1 letters and numeric signs).
  Higher code points count as non-word characters.
- Matching.Lower: case folding covers only ASCII letters. That is all that
  the search for "home" needs.
- Geometry.Rect: coordinates are integers rather than floating point.
  Infinite rectangles are not modelled.
- `pdf_name` (app.py:46) is read but never used, so no file-name rule is
  modelled.
- The `finally` block that closes the input buffer (app.py:135-137) and
  `pdf.close()` are resource handling with no effect on the result.
- The per-record step writes its PDF to the archive and its row to the
  ledger inside the closure. The model has `MarkAndSave` return the member,
  and the record loop writes it and the row at once, in the same order.
