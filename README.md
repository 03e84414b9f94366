# Spam-folder report: a Dafny model of `Gmail_access.py`

The program reads every message in a Gmail Spam folder. For each message it
parses the year of its Date header and keeps only messages from 2024. For a
kept message it decodes the subject, picks a body text from the MIME parts,
classifies the body with a pre-trained naive-Bayes model and appends a
`{Subject, From, Date, Spam Status}` record to the report. The file also
defines `clean_text`, which turns text into a name safe for a file.

The model has four modules:

- `Options` (options.dfy): `Option` and `Result`.
- `Filenames` (filenames.dfy): `clean_text`, a pure per-character map.
- `MimeBody` (mime_body.dfy): picking the body. A multipart message is the flat
  sequence of parts `msg.walk()` yields. `WalkParts` is the loop over that
  sequence, with its `continue` and its early exit. It is proved equal to the
  pure `SelectBody`: the first non-attachment `text/plain` part, else the last
  non-attachment `text/html` part, else `""`.
- `SpamReport` (spam_report.dfy): the loop of `extract_emails`, a method that
  builds the record sequence. It is proved equal to the filter-and-map `Emitted`
  when no message makes its iteration raise. Otherwise it returns the first
  message that raises.

Library routines become function-valued parameters, since only the code around
them is modelled:

- `isAlnum` stands for `str.isalnum`.
- `decodePayload` stands for `get_payload(decode=True).decode('utf-8', errors='ignore')`.
- `parseYear` stands for `datetime.strptime(...).year`, giving None where the code catches `ValueError`.
- `decodeSubject` stands for `decode_header(...)[0]` followed by `bytes.decode`.
- `predict` stands for `predict_spam`.

Only `ValueError` is caught (line 46). Three conditions raise past the loop
and end the whole run:

- a message has no Date header, so `strptime(None, …)` raises `TypeError` (line 44);
- a 2024 message has no Subject header, so `decode_header(None)` raises (line 55);
- a subject does not decode (lines 55-57): a malformed encoded word, an unknown
  charset, or bytes invalid in their charset.

The model returns `Err(Failure(index, fault))` for each, naming the position of
the message and which of the three it was.

## Model

| member | source | states |
|---|---|---|
| `Filenames.CleanText` | Gmail_access.py:10-11 | the cleaned text has the same length as the input |
| `Filenames.CleanTextAt` | Gmail_access.py:11 | at every position an alphanumeric character is kept unchanged and any other character becomes `_` |
| `Filenames.CleanTextAlphabet` | Gmail_access.py:11 | every character of the result is alphanumeric or `_` |
| `Filenames.CleanTextIdempotent` | Gmail_access.py:11 | cleaning twice gives the same result as cleaning once |
| `Filenames.CleanTextFixedPoints` | Gmail_access.py:11 | a text is left unchanged exactly when all its characters are alphanumeric or `_` |
| `Filenames.CleanTextAppend` | Gmail_access.py:11 | cleaning a concatenation gives the concatenation of the cleaned pieces |
| `MimeBody.ContainsMeansOccurs` | Gmail_access.py:70 | the substring test `"attachment" in disposition` holds exactly when the needle occurs at some offset |
| `MimeBody.MissingDispositionIsNoAttachment` | Gmail_access.py:67-70 | a part without a Content-Disposition header is never skipped as an attachment: `DispositionText` renders the missing header as `"None"`, as `str(None)` does, and that text does not contain `"attachment"` |
| `MimeBody.FirstPlain` | Gmail_access.py:73-75 | returns the index of a non-attachment text/plain part with none before it, or None when no such part exists |
| `MimeBody.LastHtml` | Gmail_access.py:76-77 | returns the index of a non-attachment text/html part with none after it, or None when no such part exists |
| `MimeBody.WalkParts` | Gmail_access.py:63-77 | the walk with its skip, break and overwrite computes exactly `SelectBody`: first plain part, else last HTML part, else `""` |
| `MimeBody.ExtractBody` | Gmail_access.py:63-79 | a multipart message gets the body of its walk, and a single-part message gets the decoding of its one payload |
| `MimeBody.PlainPreferred` | Gmail_access.py:73-75 | the first non-attachment text/plain part is the body, whatever HTML parts come before it and whatever parts come after it |
| `MimeBody.PlainWinsRegardlessOfOrder` | Gmail_access.py:65-77 | putting parts with no plain-text candidate in front of a sequence that has one does not change the body |
| `MimeBody.HtmlFallback` | Gmail_access.py:76-77 | with no plain-text candidate, the body is the decoding of the last non-attachment text/html part |
| `MimeBody.NoTextMeansEmptyBody` | Gmail_access.py:63-77 | with no text candidate at all, the body stays `""` |
| `MimeBody.AttachmentIrrelevant` | Gmail_access.py:69-71 | replacing an attachment part with any other attachment, whatever its type and payload, leaves the body unchanged |
| `MimeBody.BodySource` | Gmail_access.py:63-77 | the body is `""` or the decoding of some non-attachment text/plain or text/html part |
| `SpamReport.SpamStatus` | Gmail_access.py:82-83 | the status is `"Spam"` exactly when the prediction is truthy (nonzero), and `"Not Spam"` exactly when it is zero |
| `SpamReport.StepFaults` | Gmail_access.py:40-91 | a message raises with MissingDate exactly when it has no Date header; with MissingSubject exactly when its date parses to 2024 and it has no Subject header; with UndecodableSubject exactly when its date parses to 2024 and its subject does not decode; otherwise it does not raise |
| `SpamReport.OutputCharacterised` | Gmail_access.py:40-91 | a message yields one record exactly when its Date parses to 2024 and its subject decodes; the record holds the decoded subject, the raw From and Date headers and the label of its body; a message never yields more than one record |
| `SpamReport.OtherYearEmitsNothing` | Gmail_access.py:43-52 | a message whose date is present but unparsable, or of another year, adds no record to the report wherever it stands |
| `SpamReport.EmittedAppend` | Gmail_access.py:34-91 | the report for a concatenation is the concatenation of the reports, so records keep the order of the message ids |
| `SpamReport.EmittedLength` | Gmail_access.py:33-91 | there are never more records than message ids |
| `SpamReport.EmittedOrigin` | Gmail_access.py:40-91 | every record is the record of some message dated 2024, with that message's Date and From headers and the label of its body |
| `SpamReport.ExtractEmails` | Gmail_access.py:32-93 | the loop returns the records exactly when no message raises, and those records equal `Emitted`; otherwise it returns the first message that raises, with its fault |

## Left out

- IMAP connection, login, folder selection, search and fetch (`connect_to_gmail`, `fetch_emails`, lines 35-36): network I/O. The messages are an input sequence in id order.
- MIME parsing (`email.message_from_bytes`, `msg.walk`, `get_content_type`, content-transfer decoding): library code. A message arrives as headers plus either one payload or the flat walk of its parts.
- The UTF-8 decoding with invalid bytes dropped: the opaque parameter `decodePayload`.
- Date parsing: the opaque `parseYear`. The grammar of the `%a, %d %b %Y %H:%M:%S %z` format is not modelled.
- Subject decoding (`decode_header(...)[0]` and the charset decode): the opaque `decodeSubject`, None when either step raises. The model does not see that only the first encoded chunk is kept.
- `Filenames.CleanText`: the Unicode table behind `str.isalnum` is the parameter `isAlnum`.
- The classifier and vectorizer, and loading them with pickle (lines 27-29, 106-111): an opaque deterministic `predict` returning a numeric label. Models whose class labels are strings are not modelled.
- The pandas DataFrame conversion, the `print` calls and `main`'s hard-coded credentials: output plumbing.
- Header values that the email library returns as `Header` objects rather than strings: headers are plain strings here.
