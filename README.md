# Mistral OCR helpers, modelled in Dafny

This project models the data-shaping layer of the Mistral OCR Streamlit app (`util.py`). It has five parts, each in its own module:

- **MarkdownAssembler** (`markdown_assembler.dfy`) covers `replace_images_in_markdown` and `get_combined_markdown`.
  - Every `![id](id)` marker in a page is rewritten to `![id](<base64>)`, using that page's own images.
  - The pages are then joined with a blank line between them.
- **BatchEncoder** (`batch_encoder.dfy`) covers `create_jsonl_batch`.
  - Every page image of every uploaded PDF becomes one request entry, tagged `<file name>_page_<idx>`.
  - `idx` is one counter shared by the whole batch.
  - The entries are serialised into the JSONL payload.
  - The layout of `create_jsonl_batch_file` is modelled too, for comparison.
- **ResultDemux** (`result_demux.dfy`) covers the grouping part of `download_markdown_files`.
  - Every result record goes to the list of the upload whose stem (the text before the first `.`) matches its custom id.
  - Records with an unknown stem are dropped.
  - The module also proves the encoder-to-demultiplexer round trip.
- **JobPoller** (`job_poller.dfy`) covers the loop of `display_ocr_progress`, run over a finite sequence of job snapshots.
- **ApiKey** (`api_key.dfy`) covers `check_api_key_status` as a function of the configured key.

**Strings** (`strings.dfy`) holds the Python string built-ins these functions use, written out with their facts: `str.replace`, `str.split`, `str.join`, `"".join`, `str(int)` and the stem `name.split('.')[0]`.

Every procedure of `util.py` the model covers that works by step-by-step updates is a Dafny `method` with the same loops. The one exception is `create_jsonl_batch_file`, whose written text is the function `BatchEncoder.FileContent`. Each method is proved equal to a recursive specification function, and the properties are proved about those functions. A Python dict that is iterated or filled in order is an association list in insertion order. Updating an existing key keeps its position, as in Python. There are no classes, because `util.py` only updates local variables.

Some services are parameters instead of code:

- The PDF rasteriser is `render: seq<bv8> -> seq<string>`, giving a PDF's page images as data URIs.
- `json.dumps` of one entry is `dumps: Entry -> string`.
- The snapshots returned by successive `client.batch.jobs.get` calls are a sequence `fetched`.
- Downloaded and parsed result lines are a sequence of (custom id, Markdown) records.

Where the code and its documentation disagree, the model follows the code:

- **Custom ids use the full upload name.** `pdf_name` is the whole upload name, `.pdf` included (util.py:134-136). So a custom id reads `A.pdf_page_0`, not `A_page_0`. It is split at the first `.` to recover `A` (util.py:207).
- **The in-memory payload and the file differ.** `create_jsonl_batch` ends each serialised entry with `"\n"` and then joins the entries with `"\n"`. So consecutive entries are separated by a blank line. `create_jsonl_batch_file` writes one entry per line. The two texts are equal only when the batch has at most one entry (`BatchEncoder.PayloadMatchesFileIff`).
- **The round trip needs different conditions from one `.` per name.**
  - Each upload name must contain at least one `.`, not exactly one. A name without any `.` never receives its own pages, because its custom ids contain no `.` either (`ResultDemux.UndottedUploadGetsNothing`).
  - The uploads' stems must be distinct. One `.` per name does not give this: `A.pdf` uploaded twice, or `A.pdf` beside `A.txt`, share the stem `A`. Two uploads with one stem share one dict key, and the pages of both land in that one list.

## Model

| member | source | states |
|---|---|---|
| MarkdownAssembler.ReplaceImagesInMarkdown | util.py:25-28 | the result is the text after one `str.replace` pass per dict item, in dict order; an empty dict, or text without any `![k](k)` marker for a key `k`, returns the text unchanged |
| MarkdownAssembler.UnmarkedTextUnchanged | util.py:25-28 | text containing no `![k](k)` marker for any key of the dict is returned unchanged |
| MarkdownAssembler.SubstitutesEveryMarker | util.py:26-27 | the pass for item `(id, data)` cuts the text at every `![id](id)`, so no piece between the cuts holds one, and puts `![id](data)` in each cut, keeping the text between the cuts |
| MarkdownAssembler.GetCombinedMarkdown | util.py:30-38 | the result is the per-page substituted Markdown joined with `"\n\n"`, in page order, each page substituted with a dict built from its own images only; no pages give `""`, one page gives that page alone |
| MarkdownAssembler.PageMarkdowns | util.py:31-36 | one Markdown per page, and entry `i` depends on page `i` alone |
| MarkdownAssembler.GetPut | util.py:33-34 | after `d[k] = v`, looking up `k` gives `v` and every other key keeps its value |
| MarkdownAssembler.PutKeys | util.py:34 | assigning a key keeps the dict's keys distinct and adds exactly that key |
| MarkdownAssembler.ImageDataLookup | util.py:32-34 | the per-page dict has each image id once and maps it to the data of the last image with that id |
| MarkdownAssembler.CombinedSplitsBetweenPages | util.py:38 | the combined document is the first pages' document, a blank line, and the remaining pages' document |
| BatchEncoder.CreateJsonlBatch | util.py:105-129 | the result is the payload of exactly the entries `Entries` lists (one per page, summed over all PDFs, the counter running on across PDFs); no pages give `""` |
| BatchEncoder.Entries | util.py:110-126 | one entry per page of all the PDFs together |
| BatchEncoder.EntryAt | util.py:111-126 | page `j` of PDF `i` is entry number `TotalPages(pdfs[..i]) + j`, with custom id `name_i + "_page_" + str(that number)`, type `image_url`, that page's data URI and `include_image_base64` set |
| BatchEncoder.EntriesNumbered | util.py:111-126 | the number read back from entry `k`'s custom id is `k`, so the counter runs 0..n-1 over the whole batch and is never reset between PDFs; every body is an `image_url` request with inline images |
| BatchEncoder.PageIndexOfCustomId | util.py:116 | the decimal suffix after `_page_` reads back as the counter value |
| BatchEncoder.CustomIdsDistinct | util.py:115-124 | no two entries of a batch share a custom id |
| BatchEncoder.PayloadLines | util.py:125-128 | with newline-free serialisations, the payload's lines are each entry followed by an empty line |
| BatchEncoder.FileLines | util.py:102 | the file variant's lines are the serialised entries followed by one final empty piece |
| BatchEncoder.PayloadMatchesFileIff | util.py:102-128 | the payload equals the file content exactly when the batch has at most one entry; otherwise it is longer by one character per gap |
| ResultDemux.DownloadMarkdownFiles | util.py:203-209 | the map is the grouping of the records: its keys are exactly the uploads' stems, and each key's list is the Markdown of the records whose custom-id stem is that key, in arrival order |
| ResultDemux.FileNamesAreFirstPieces | util.py:203 | each file name is the first piece of Python's `name.split('.')` |
| ResultDemux.GroupedStep | util.py:206-209 | one more record appends its Markdown to its stem's list if the stem is known, and changes nothing otherwise |
| ResultDemux.GroupedKeys | util.py:203-204 | the keys of the map are the stems of the uploaded names |
| ResultDemux.MarkdownsForConcat | util.py:206-209 | the records of `a + b` give `a`'s list followed by `b`'s list |
| ResultDemux.UnknownRecordIgnored | util.py:208 | a record with an unknown stem changes no list, wherever it arrives |
| ResultDemux.ListLengthsCountMatched | util.py:206-209 | with distinct file names, the lists together hold as many entries as there are records with a known stem |
| ResultDemux.PerUpload | util.py:112-126 | the pages' Markdown cut into one piece per upload, piece `i` as long as upload `i` has pages |
| ResultDemux.PerUploadCoversPages | util.py:112-126 | the pieces, concatenated, are all pages in submission order |
| ResultDemux.DocumentRecordsStem | util.py:206-209 | with custom ids built as at util.py:116, the records of a dotted upload's entries all go to that upload's stem, in order, and to no other |
| ResultDemux.RoundTripUnknownStem | util.py:206-209 | with dotted names, a stem that is no upload's stem receives nothing from the batch's records |
| ResultDemux.RoundTrip | util.py:203-209 | with dotted names and distinct stems, if the records arrive in submission order then upload `i`'s list is exactly its own pages' Markdown, in page order |
| ResultDemux.RoundTripLengths | util.py:203-209 | under the same conditions every upload has a key whose list is as long as the upload has pages |
| ResultDemux.MarkdownsForPermutedLength | util.py:206-209 | the same records in another order give every stem a list of the same length |
| ResultDemux.RoundTripLengthsAnyOrder | util.py:203-209 | with dotted names and distinct stems, if the records are the batch's custom ids with their pages' Markdown in any order, every upload has a key whose list is as long as the upload has pages |
| ResultDemux.UndottedUploadGetsNothing | util.py:207 | an upload whose name has no `.` receives none of its own pages |
| JobPoller.DisplayOcrProgress | util.py:166-179 | the outcome and reported fractions are those of the run over the snapshots; a returned job is neither `QUEUED` nor `RUNNING`; a job already terminal is returned as it is, with nothing fetched |
| JobPoller.RunReports | util.py:170-174 | one fraction per fetch, each fetch made while the job was still queued or running, each the done-over-total fraction of the job just fetched |
| JobPoller.RunOutcome | util.py:170-179 | the loop returns the first job that is neither queued nor running, raises at the first fetched job with no requests, or is still active when the snapshots run out |
| JobPoller.FinishedIsTerminal | util.py:170-179 | a returned job is never queued or running |
| JobPoller.EndsWhenServiceFinishes | util.py:170-175 | if the service eventually reports a finished job, and every job before it counts its requests, the loop ends |
| JobPoller.ProgressMonotone | util.py:172-173 | for one job whose total stays fixed, more requests done never gives a smaller fraction |
| JobPoller.ReportsNonDecreasing | util.py:170-174 | if the fetched jobs share one total and their done counts never fall, the reported fractions never decrease |
| JobPoller.Progress | util.py:172-173 | the fraction is non-negative, at most 1 when done ≤ total, and 1 exactly when all requests are done |
| ApiKey.CheckApiKeyStatus | util.py:15-23 | uploading is enabled exactly when the key is non-empty; the key is returned unchanged |
| Strings.ReplaceAbsent | util.py:27 | `s.replace(p, r)` on a text without `p` is the identity |
| Strings.ReplaceIsJoinOfSplit | util.py:27 | `s.replace(p, r) == r.join(s.split(p))` |
| Strings.SplitPiecesFree | util.py:27 | no piece of `s.split(sep)` contains `sep`: every occurrence is cut |
| Strings.SplitFirstIsPrefix | util.py:27 | the first piece of `s.split(sep)` is a prefix of `s` |
| Strings.JoinSplit | util.py:27 | joining the pieces of a split with the separator gives the text back |
| Strings.JoinConcat | util.py:38 | joining two non-empty lists is joining each with one separator between |
| Strings.SplitJoinedTerminated | util.py:125-128 | newline-free lines, each terminated and joined with `"\n"`, split into the lines each followed by an empty one |
| Strings.SplitConcatTerminated | util.py:102 | newline-free lines, each terminated and concatenated, split into the lines and one empty piece |
| Strings.JoinLength | util.py:128 | a join is as long as its parts plus one separator per gap |
| Strings.ConcatLength | util.py:102 | the concatenation is as long as its parts |
| Strings.StemIsFirstPiece | util.py:207 | `s.split('.')[0]` is the text before the first `.` |
| Strings.StemOfExtended | util.py:207 | appending text to a name that contains a `.` does not change its stem |
| Strings.Stem | util.py:203 | the stem has no `.`, is a prefix of the text, is the whole text when there is no `.`, and is followed by a `.` otherwise |
| Strings.NatToString | util.py:116 | `str(idx)` is a non-empty string of decimal digits |
| Strings.ParseNatToString | util.py:116 | reading back `str(n)` gives `n` |
| Strings.DigitSuffixAfterNonDigit | util.py:116 | the digits after a non-digit character are exactly the appended number |

## Left out

- The Streamlit user interface is not modelled: progress bar, spinner, warnings, metrics, download buttons and `st.session_state`. The session map is the return value of `DownloadMarkdownFiles`.
- The Mistral SDK calls are not modelled: `mistral_ocr`, the upload, batch create and get in `mistral_ocr_batch`, and the file download. They are network clients. The poller receives their answers as `fetched`.
- `convert_pdf_to_base64_images` and `encode_image_to_base64` (pdf2image, PIL, base64) are the parameter `render`.
- A failed rasterisation is not modelled. `render` is total, but `convert_from_bytes` raises on malformed PDF bytes (util.py:78, util.py:113), and that aborts the whole `create_jsonl_batch` call.
- `json.dumps` is the parameter `dumps`. `json.loads` and the output file's line splitting (util.py:196-201) are not modelled: the records arrive already parsed.
- The `KeyError`/`IndexError` a result without `pages[0]` would raise at util.py:209 is not modelled.
- `convert_md_to_pdf` is not modelled; it is a foreign library.
- `create_jsonl_batch_file` is modelled only through the text it writes (`BatchEncoder.FileContent`). Opening and writing the file is not modelled.
- JobPoller.Progress: the fraction is exact rational arithmetic. The floating-point division and `round(..., 4)` at util.py:172-173 are not modelled.
- The cost computed by `display_ocr_statistics` is not modelled; it is floating-point arithmetic.
- `time.sleep(1)` is not modelled.
- DisplayOcrProgress: the loop of `display_ocr_progress` polls without bound. The model stops when the given snapshots run out and reports `Stalled`.
- The API-key length check of the configuration page is not modelled.
- `display_download_table` and its `[0]` indexing of each list are not modelled.
- ResultDemux.ListLengthsCountMatched: it sums over the list of file names and needs them distinct. A repeated stem is one dict key in Python, and the lemma does not cover that case.
- Applying the substitution a second time is not proved to change nothing, and distinct ids alone do not make it so. An id that contains `](` can be completed into another id's marker by an earlier pass: with the images `b](QUJD)X` and `b`, both with data `QUJD`, the text `![b](b)X](b](QUJD)X)` changes again on a second run.
- ResultDemux.RoundTripLengthsAnyOrder: for records in an arbitrary order only the list lengths are proved. The order inside each list follows arrival order, so page order is proved only for submission order (`ResultDemux.RoundTrip`).
