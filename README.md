# AttendanceQRCodes: a Dafny model of the email intake and QR batch pipeline

AttendanceQRCodes is a small Flask application. An organiser enters volunteer
email addresses by hand, uploads them in a CSV file, or both. The `/generate`
route collects the addresses and removes duplicates while keeping their order.
It then renders one QR image per address into the `volunteers` directory and
shows which addresses succeeded and which failed. `/download_all` zips every
image in that directory and then clears it. `/clear` deletes the images.

The model has five modules:

- `Text`: the string operations the pipeline uses, stated like Python's.
  - `Strip` is `str.strip()`, with the whitespace of `str.isspace`.
  - `Split` is `str.split(sep)`, generalised to a set of separators.
  - `ReplaceChar` is `str.replace` of one character.
  - `EndsWith` and an ASCII `Lower`.
- `Seqs`: order-preserving deduplication (`Dedup`), first occurrences and
  subsequences, for sequences of any element type. The pipeline uses them
  on lists of emails.
- `EmailExtractor`:
  - `allowed_file`;
  - the tokenising of the manual-entry field (`ManualTokens`, and the loop
    `ParseManualEmails`);
  - the CSV scan (`CsvEmails`, and the nested loop `ExtractEmailsFromCsv`);
  - the dedup loop (`DedupEmails`).
- `Storage`: the `volunteers` directory as a class whose field is the set of
  entry names, with `Save`, `Clear` (clear_files) and `DownloadAll`
  (download_all).
- `Batch`: the per-email generation step, the batch loop and the whole
  `/generate` request.
  - The batch is specified by the function `RunBatch` and implemented by the
    method `GenerateBatch`.
  - The request is a pure `Respond` function, implemented by the method
    `GenerateQrCodes`.

Whether rendering and saving the image for an email succeeds is a parameter,
`render: string -> bool`. It stands for the qrcode library and the file write.
A successful render adds `<email>.png` to the directory. A failed one adds
nothing.

The operations of app.py are these functions. The lemmas and methods in the
table below state what they promise.

- `EmailExtractor.AllowedFile` is `allowed_file` (app.py:57-58).
- `EmailExtractor.ManualTokens` is the manual-field parse (app.py:89-95).
  `EmailExtractor.KeepEmails` is its per-piece strip and '@' test
  (app.py:93-95).
- `EmailExtractor.CsvEmails` is `extract_emails_from_csv` (app.py:60-78).
  `EmailExtractor.Candidates` is its test and strip of each cell
  (app.py:71-73). `EmailExtractor.Cells` is its row-by-row reading order
  (app.py:68-69).
- `Seqs.Dedup` is the dedup loop (app.py:110-113).
  `Batch.RequestEmails` is the merged, deduplicated list (app.py:104-113).
- `Batch.UploadedEmails` is the upload branch (app.py:98-107).
- `Batch.RunBatch` is the generation loop (app.py:120-128).
- `Batch.Respond` is the route's answer (app.py:115-140).
  `Batch.RequestFiles` is the files the request writes.
- `Text.Strip` is `str.strip()` (app.py:72, 89, 93).
  `Text.Split` is `str.split` (app.py:92).
- `Storage.IsPng` is `filename.endswith('.png')` (app.py:153, 177).
  `Storage.Cleared` is what clear_files leaves (app.py:174-178).

## Model

| member | source | states |
|---|---|---|
| EmailExtractor.LastIndexOf | app.py:58 | The result is absent exactly when the dot does not occur. Otherwise it is the position of the last dot: no dot follows it. |
| EmailExtractor.AllowedFileEndsInCsv | app.py:57-58 | A name is allowed exactly when it has at least four characters, its fourth character from the end is '.', and its last three characters lower-case to "csv". |
| EmailExtractor.AllowedFileAcceptsCsv | app.py:57-58 | "volunteers.csv" is allowed. |
| EmailExtractor.AllowedFileAcceptsUpperCase | app.py:57-58 | "a.b.CSV" is allowed: only the text after the last dot counts, and case is ignored. |
| EmailExtractor.AllowedFileRejects | app.py:57-58 | "csv" (no dot), "x.txt" and "list.csv.txt" are rejected. |
| EmailExtractor.KeepEmailsWellFormed | app.py:93-95 | Every kept token is non-empty, has no leading or trailing whitespace, and contains '@'. |
| EmailExtractor.ManualTokensWellFormed | app.py:89-95 | Every token of the manual field is non-empty, stripped, and contains '@'. |
| EmailExtractor.ParseManualEmails | app.py:89-95 | The loop returns exactly the manual-field tokens `ManualTokens`. |
| EmailExtractor.KeepEmailsSnoc | app.py:92-95 | Adding a piece at the end appends that piece's token, if it has one, after the earlier tokens. |
| EmailExtractor.KeepEmailsConcat | app.py:92-95 | The tokens of two runs of pieces are the tokens of the first run followed by those of the second. |
| EmailExtractor.KeepEmailsOfSpace | app.py:93-94 | Pieces made only of whitespace yield no token. |
| EmailExtractor.LeadingSpaceNoToken | app.py:89 | Whitespace in front of the text changes no token, for any set of separators. |
| EmailExtractor.TrailingSpaceNoToken | app.py:89 | Whitespace after the text changes no token, for any set of separators. |
| EmailExtractor.ManualTokensBySeparators | app.py:89-95 | Stripping the field, replacing commas by newlines and splitting on newlines gives the same tokens as splitting the raw field on both commas and newlines. Comma and newline are interchangeable separators. |
| EmailExtractor.ManualTokensJoin | app.py:92 | The tokens of `x + "," + y` are the tokens of `x` followed by the tokens of `y`. |
| EmailExtractor.KeepEmailsInOrder | app.py:92-95 | The kept tokens are a subsequence of the stripped pieces, in input order. |
| EmailExtractor.ManualTokensInOrder | app.py:92-95 | The manual tokens keep the order in which they appear in the field. |
| EmailExtractor.ManualTokensKeepRepeats | app.py:92-95 | The manual field does not deduplicate: a field entered twice, with a comma between, gives every token twice. |
| EmailExtractor.CellsMembership | app.py:68-69 | A value occurs among the flattened cells exactly when some row holds it at some column. |
| EmailExtractor.CandidateKeepsAt | app.py:71-72 | A cell that passes the '@'-and-'.' test still has both characters after stripping. |
| EmailExtractor.CandidatesMembership | app.py:69-73 | A value is a candidate exactly when it is the non-empty stripped text of a cell that passes the test. |
| EmailExtractor.CsvEmails | app.py:60-78 | The extracted emails have no duplicates. An undecodable file yields the empty list. |
| EmailExtractor.CandidatesSnoc | app.py:71-73 | A cell adds its stripped text when it passes the test and the stripped text is non-empty; otherwise it adds nothing. |
| EmailExtractor.CellsSnoc | app.py:68-69 | One more row appends that row's cells, in column order. |
| EmailExtractor.CandidateStep | app.py:71-74 | One cell appends its email to the deduplicated list exactly when the cell qualifies and the email is new; otherwise the list is unchanged. |
| EmailExtractor.ExtractEmailsFromCsv | app.py:60-78 | The nested loop over rows and cells returns exactly `CsvEmails`. An undecodable file gives the empty list. |
| EmailExtractor.CsvEmailsFromCells | app.py:68-74 | Sound and complete: an email is extracted exactly when some cell passes the test and has that email as its stripped text. |
| EmailExtractor.CsvEmailsInOrder | app.py:68-74 | The extracted emails are in the order of their first qualifying cell, reading row by row. |
| EmailExtractor.DedupEmails | app.py:110-113 | The dedup loop returns exactly `Dedup` of its input. |
| Seqs.FirstIndex | app.py:112 | The result is the first position of the value: it holds the value and no earlier position does. |
| Seqs.FirstIndexUnique | app.py:112 | Any position that holds the value and has no earlier occurrence is the first index. |
| Seqs.FirstIndexPrefix | app.py:112 | A value that occurs in a prefix has the same first index in the prefix as in the whole list. |
| Seqs.Dedup | app.py:110-113 | The result has no duplicates and has the same members as the input. |
| Seqs.DedupSnoc | app.py:111-113 | Appending an email that was already seen leaves the result unchanged; appending a new one appends it. |
| Seqs.DedupOrder | app.py:110-113 | The result lists the distinct emails in order of their first occurrence in the input. |
| Seqs.DedupNoDup | app.py:110-113 | A list without duplicates is returned unchanged. |
| Seqs.DedupIdempotent | app.py:110-113 | Deduplicating twice is the same as deduplicating once. |
| Seqs.DedupUnique | app.py:110-113 | `Dedup` is the only list that has no duplicates, has the input's members, and is in first-occurrence order. |
| Seqs.DedupPrefix | app.py:104-113 | Deduplicating a list extended at the end extends the earlier result. |
| Seqs.DedupConcat | app.py:104-113 | `Dedup(a + b)` starts with `Dedup(a)`. Every later entry comes from `b` and is not in `a`. |
| Seqs.NoDupSnoc | app.py:73 | Appending keeps a list duplicate-free exactly when the new value was absent. |
| Text.TrimStartSuffix | app.py:72 | Stripping the front removes a whitespace-only prefix. What remains is a suffix that is empty or starts with a non-space. |
| Text.TrimEndPrefix | app.py:72 | Stripping the back removes a whitespace-only suffix. What remains is a prefix that is empty or ends with a non-space. |
| Text.StripInfix | app.py:72 | `strip()` returns a contiguous slice of its input. Only whitespace lies on either side of it, and the slice has no whitespace at either end. |
| Text.StripSurround | app.py:89 | Every text is its stripped part with whitespace-only text on either side. |
| Text.StripIsTrimmed | app.py:72 | The stripped text has no leading or trailing whitespace. |
| Text.StripTrimmed | app.py:93 | Stripping text that has no whitespace at either end leaves it unchanged. |
| Text.StripIdempotent | app.py:89-93 | Stripping twice is the same as stripping once. |
| Text.StripKeepsNonSpace | app.py:71-72 | A non-space character occurs in the stripped text exactly when it occurs in the original. |
| Text.TrimStartSnoc | app.py:72 | Appending a character after text stripped at the front gives that text plus the character. The exception is a whitespace character after text that stripped to nothing. |
| Text.StripConsSpace | app.py:72 | A leading whitespace character does not change the stripped text. |
| Text.StripSnocSpace | app.py:72 | A trailing whitespace character does not change the stripped text. |
| Text.StripPrependSpace | app.py:89 | Whitespace in front does not change the stripped text. |
| Text.StripAppendSpace | app.py:89 | Whitespace at the end does not change the stripped text. |
| Text.StripAllSpace | app.py:89-90 | Text made only of whitespace strips to the empty string. |
| Text.Split | app.py:92 | Splitting always gives at least one piece. |
| Text.SplitPiecesFree | app.py:92 | No piece contains a separator. |
| Text.JoinSplit | app.py:92 | Joining the pieces with the separator gives back the original text. |
| Text.SplitCons | app.py:92 | A leading separator starts a new empty piece. Any other leading character joins the first piece. |
| Text.SplitAtSeparator | app.py:92 | A separator between `x` and `y` divides the pieces into those of `x` followed by those of `y`. |
| Text.SplitConcat | app.py:92 | The pieces of `x + y` are those of `x` and those of `y`, with the last piece of `x` glued to the first piece of `y`. |
| Text.SplitAllSpace | app.py:92-93 | Whitespace-only text splits into whitespace-only pieces. |
| Text.SplitAfterSpace | app.py:89-92 | Whitespace in front of `u` only adds whitespace-only pieces, plus a whitespace prefix on the first piece of `u`. |
| Text.SplitBeforeSpace | app.py:89-92 | Whitespace after `u` only adds a whitespace suffix on the last piece of `u`, plus whitespace-only pieces. |
| Text.SplitReplaced | app.py:92 | Replacing every `a` by `b` and splitting on `b` is the same as splitting on `a` and `b`. |
| Storage.Cleared | app.py:174-178 | What clearing leaves: a subset of the entries with no ".png" name, holding every entry that is not an image. |
| Storage.ClearedIdempotent | app.py:174-178 | Clearing twice leaves the same as clearing once. |
| Storage.ClearedKeepsOthers | app.py:174-178 | Adding image files and then clearing leaves the same as clearing alone. |
| Storage.ClearedNoImages | app.py:174-178 | A directory without images, such as an empty one, is left as it is. |
| Storage.Directory.Save | app.py:51 | Saving an image adds exactly its name to the directory. |
| Storage.Directory.Clear | app.py:174-178 | Every ".png" entry is removed, whatever the listing order, and nothing else is. |
| Storage.Directory.DownloadAll | app.py:149-156 | The archive holds each ".png" entry exactly once, under its own name, and no other entry. The directory is then cleared. |
| Batch.QrFileIsPng | app.py:50 | The file generated for an email is a ".png", so clear_files and download_all pick it up. |
| Batch.EmailsOf | app.py:126 | The emails of the generated pairs, position by position. |
| Batch.GenerateQrCode | app.py:22-55 | On success it returns "volunteers/<email>.png" and the directory gains "<email>.png". On failure it returns None and the directory is unchanged. |
| Batch.RunBatch | app.py:120-128 | The sizes of the two lists add up to the number of emails. |
| Batch.RunBatchPartition | app.py:123-128 | An email is among the generated exactly when it renders, and among the failed exactly when it does not. Each email of the batch is in exactly one list. Every generated path is "volunteers/<email>.png". |
| Batch.RunBatchInOrder | app.py:123-128 | Both lists keep the order of the batch. |
| Batch.RunBatchNoDup | app.py:110-128 | A batch without duplicates produces lists without duplicates. |
| Batch.NothingGenerated | app.py:133-140 | No image is generated exactly when no email of the batch renders. |
| Batch.GenerateBatch | app.py:119-128 | The loop returns `RunBatch`. The directory gains exactly the files of the generated emails. |
| Batch.RequestEmails | app.py:104-113 | The merged list of the request has no duplicates. |
| Batch.GenerateQrCodes | app.py:85-140 | The route's answer is `Respond`: read error, no valid emails, none generated, or the results with both lists. The directory gains exactly the request's files. |
| Batch.NoValidEmailsIff | app.py:115-117 | "No valid email addresses" is answered exactly when the manual field gives no token and the upload gives no email. |
| Batch.RejectedWritesNothing | app.py:105-117 | A request rejected for a read error or for want of emails writes no file. In particular, no image is attempted. |
| Batch.DisallowedUploadIgnored | app.py:98-100 | An upload whose name is not allowed is treated as no upload at all. |
| Batch.ManualEmailsFirst | app.py:88-113 | The deduplicated manual emails come first. Every later entry comes from the CSV and was not entered by hand. |
| Batch.MergeOverlap | app.py:104-113 | For any three distinct emails, manual [a, b] merged with CSV [b, c] gives [a, b, c]: the shared email is kept once, where the manual list has it. |
| Batch.MergeExample | app.py:104-113 | Manual ["a@x.com", "b@y.com"] merged with CSV ["b@y.com", "c@x.com"] gives ["a@x.com", "b@y.com", "c@x.com"]. |
| Batch.ResultsIff | app.py:130-140 | For a readable request, the results page is shown exactly when some email of the request renders. |
| Batch.ClearRemovesRequestFiles | app.py:50-51 | Every file a request writes is removed again by a later clear. |

## Left out

- Rendering itself (qrcode, the gradient styling, the optional logo, PIL's
  save) is the oracle `render`. Its only modelled effect is success, which
  writes `<email>.png`, or failure, which writes nothing. The `print` on
  failure is not modelled.
- UTF-8 decoding and `csv.reader` are left out. The upload's content is
  either `Undecodable` or the rows the reader yields, as lists of cells.
  Either way, the rows are given, not parsed.
  - A reader error mid-file is modelled as the rows yielded before it. The
    `except` keeps the emails collected so far.
  - The `print` of the reading error is not modelled.
- `file.read()` raising an exception is modelled as `Unreadable`, answered
  by `ReadError`. The flashed text is not modelled.
- Flask is left out: routing, `request.form`, `flash` messages, templates,
  redirects, `send_from_directory` (serve_qr_code), the secret key, the
  configuration and `app.run`.
- download_all's archive is the list of entry names written into it. The zip
  format, the temporary file and `send_file` are left out. So are the
  exception paths of zip creation and of `os.remove` in clear_files.
- `os.path.exists('volunteers')` is taken to be true. The directory is
  created at start-up, on line 19.
- `os.makedirs`, the upload folder, which is never used, and the 16 MB
  request limit are left out.
- Concurrent requests sharing the directory are not modelled.
- The order of `os.listdir` is left open. Clear and DownloadAll pick entries
  in any order, and their contracts hold for every order.
- An email containing '/' would make the saved path differ from the listed
  name. The model takes the listed name to be `<email>.png`.
- Lowering covers only ASCII letters. No non-ASCII character lowers to
  "c", "s" or "v" in Python, so `allowed_file` is unaffected.
- qr.py, a stand-alone script, is not part of this model.
