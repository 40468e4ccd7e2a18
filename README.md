# Ivy ingestion core in Dafny

This project models the ingestion core of the Ivy backend. That core does two things.

- **Text chunker.** `_chunk_text` slides a window of `chunk_size` characters over a text with stride `chunk_size - chunk_overlap`. It strips each window of surrounding whitespace and keeps what is left when it is non-empty. `parse_pdf_bytes` is the entry point that chunks the placeholder text it derives from a file name and wraps the result in a record.
- **Blob naming and upload.** `build_pdf_blob_name` forms the key `uploads/YYYY/MM/DD/<uuid hex><suffix>` for an uploaded PDF. `upload_pdf_bytes` checks its input and the storage configuration, normalises the caller's metadata, and returns a descriptor of the stored blob.

The project is split into these modules:

| file | module | contents |
|---|---|---|
| `wrappers.dfy` | `Wrappers` | `Option` and `Result`; a Python exception becomes an `Err` value |
| `py_str.dfy` | `PyStr` | the Python string operations the core uses: `str.isspace` (the exact set of code points CPython treats as whitespace), `strip`, slicing with clamped bounds, and the `x or default` idiom |
| `format.dfy` | `Format` | `%Y`/`%m`/`%d` zero-padded decimals, `uuid.hex`, and `str(int)`, each with a reading-back function and a round-trip proof |
| `parse.dfy` | `Parse` | `_chunk_text` and `parse_pdf_bytes` |
| `blob_client.dfy` | `BlobClient` | the environment lookups the upload depends on; the environment is a map parameter |
| `blob_repository.dfy` | `BlobRepository` | `build_pdf_blob_name` and `upload_pdf_bytes` |

## How the chunker is modelled

`Parse.ChunkText` is the loop of `_chunk_text`, written as a method. It keeps `start`, a ghost window counter `k` and the list `chunks`. Its loop invariant ties `chunks` to `Chunks(text, size, step, k)`. That specification function gives the non-empty stripped windows among the first `k`, where window `k` is `text[k*step : k*step + size]`. The method is proved equal to the function `Parse.Chunked`, including the three `ValueError` cases.

Lemmas then characterise `Chunks` from both sides:

- it lists exactly the windows that are non-empty after stripping, in increasing order, and nothing else fits that description (`ChunksAreKeptWindows`, `ChunksUnique`);
- every chunk is a stripped, non-empty piece of the text, no longer than the window (`ChunkIsTrimmedSubstring`);
- there are at most `ceil(len / step)` chunks (`ChunkCountBound`, `WindowCountIsCeiling`).

## How the blob name is modelled

The UTC date and the `uuid4` value are parameters of `BlobRepository.BuildPdfBlobName`. The name has a reading-back partner, `ParseBlobName`, which is proved to recover the date, the identifier and the suffix. Two consequences follow: names made with different identifiers never collide, and the blob always sits directly in its date folder.

The suffix follows `PurePath.suffix`:

- take the final path component once trailing slashes are dropped;
- the suffix starts at that component's last dot, provided the dot is neither its first nor its last character;
- with no suffix, or no file name, the name ends in `.pdf`.

`upload_pdf_bytes` is modelled as a function of the bytes, the file name, the metadata, the environment, the date and the identifier. It returns the two errors, or the `upload_blob` request together with the returned descriptor.

## Model

| member | source | states |
|---|---|---|
| Parse.Chunked | backend/parse/parse.py:4-24 | `chunk_size <= 0`, `chunk_overlap < 0` and `chunk_overlap >= chunk_size` fail in that order with their own errors; the result is a success exactly when `0 <= chunk_overlap < chunk_size`; empty text with valid parameters gives `[]` |
| Parse.ChunkText | backend/parse/parse.py:4-24 | the loop over `range(0, len(text), step)` that appends every non-empty stripped window returns exactly `Chunked`, errors included |
| Parse.ChunksStep | backend/parse/parse.py:19-23 | one loop turn: the window at `start = k*step` is window `k`, and the chunks of `k + 1` windows are those of `k` windows plus the stripped window when it is non-empty |
| Parse.LoopExit | backend/parse/parse.py:19-24 | once the start reaches the text length, the chunks gathered are the chunker's whole answer |
| Parse.ChunkedValid | backend/parse/parse.py:17-24 | on valid parameters and non-empty text the chunker returns the chunks of all `WindowCount(len, step)` windows |
| Parse.StartIsProduct | backend/parse/parse.py:19 | the `k`-th start that `range` visits is `k * step` |
| Parse.WindowStartBelowLength | backend/parse/parse.py:19 | window `k` starts below `len(text)` if and only if `k` is below the window count |
| Parse.WindowCountIsCeiling | backend/parse/parse.py:19 | the window count is `ceil(len / step)`: the least `n` with `len <= n * step` |
| Parse.PiecesAt | backend/parse/parse.py:20-21 | entry `k` of the stripped windows is `text[k*step : k*step + size].strip()` |
| Parse.NonEmptySelects | backend/parse/parse.py:22-23 | the `if chunk:` filter keeps exactly the non-empty strings, in order, with their positions increasing |
| Parse.SelectionIsUnique | backend/parse/parse.py:22-23 | any sequence that keeps exactly the non-empty strings in order is the filter's output |
| Parse.NonEmptyCount | backend/parse/parse.py:22-23 | the filter never returns more strings than it is given |
| Parse.NonEmptyFirst | backend/parse/parse.py:22-23 | a non-empty first string is kept first |
| Parse.ChunksAreKeptWindows | backend/parse/parse.py:17-23 | the chunks are the stripped windows that are non-empty, each named by its window index, in strictly increasing window order, and no non-empty stripped window is missing |
| Parse.ChunksUnique | backend/parse/parse.py:17-23 | conversely, any list of non-empty stripped windows in increasing window order that misses none equals the chunks |
| Parse.ChunkAt | backend/parse/parse.py:20-23 | chunk `i` is non-empty and is the stripped window its kept-window index names |
| Parse.ChunkIsTrimmedSubstring | backend/parse/parse.py:20-23 | each chunk is non-empty, unchanged by a second `strip()`, at most `chunk_size` long, comes from a window starting below `len(text)`, and occurs in the text at that window's start plus the stripped prefix |
| Parse.StrippedWindow | backend/parse/parse.py:20-21 | a window that is non-empty after stripping starts inside the text; what stripping leaves is stripped, no longer than the window, and a contiguous piece of the text |
| Parse.ChunkCountBound | backend/parse/parse.py:19-23 | at most one chunk per window |
| Parse.LeadingNonSpaceGivesChunk | backend/parse/parse.py:19-23 | a text starting with non-whitespace yields at least one chunk, and the first chunk is the first window stripped |
| Parse.RawWindowsOverlap | backend/parse/parse.py:17-20 | when window `k` is full, its last `chunk_size - step` characters (the overlap) are the first ones of window `k + 1` |
| Parse.ChunkedOutput | backend/parse/parse.py:4-24 | on valid parameters there are at most `ceil(len / step)` chunks, each non-empty, already stripped, at most `chunk_size` long and a substring of the text |
| Parse.PlaceholderText | backend/parse/parse.py:34 | the stand-in extracted text is longer than its fixed prefix and starts with non-whitespace, so stripping never empties its first window |
| Parse.ParsePdfBytes | backend/parse/parse.py:27-47 | empty bytes fail before anything else; otherwise `byte_size` is the byte count, `page_count` is absent, the file name is `filename or 'uploaded.pdf'`, the metadata is `placeholder`/800/100, and the chunks are what the chunker returns for the placeholder text with exactly the recorded parameters |
| Parse.ParsedChunks | backend/parse/parse.py:34-35 | on non-empty bytes there is at least one chunk, because the placeholder text starts with a letter; every chunk is non-empty, stripped and at most 800 characters long |
| PyStr.IsSpace | backend/parse/parse.py:21 | on ASCII, `str.isspace` holds exactly for tab, line feed, vertical tab, form feed, carriage return, the four separators `\x1c`-`\x1f` and the space |
| PyStr.Strip | backend/parse/parse.py:21 | `s.strip()` is never longer than `s` |
| PyStr.Slice | backend/parse/parse.py:21 | `text[start:end]` has length `min(end, len) - start` when `start` is inside the text and `start < end`, else it is empty; a non-empty slice occurs in the text at `start` |
| PyStr.TrimLeftSpec | backend/parse/parse.py:21 | dropping leading whitespace removes only whitespace, and leaves a string that is empty or starts with non-whitespace |
| PyStr.TrimRightSpec | backend/parse/parse.py:21 | dropping trailing whitespace removes only whitespace, and leaves a string that is empty or ends with non-whitespace |
| PyStr.StripSpec | backend/parse/parse.py:21 | `s.strip()` is the piece of `s` between whitespace-only margins; it is empty exactly when `s` is all whitespace, and otherwise starts and ends with non-whitespace |
| PyStr.StripTrimmed | backend/parse/parse.py:21 | a string that is empty or has non-whitespace at both ends is its own `strip()` |
| PyStr.StripIdempotent | backend/parse/parse.py:21 | `strip()` applied twice equals `strip()` applied once |
| PyStr.OccursWithin | backend/parse/parse.py:20-21 | a piece of a window is a piece of the text, at the sum of the offsets |
| PyStr.OrDefault | backend/parse/parse.py:34 | `x or default` on an optional string: the value when it is present and non-empty, otherwise the default |
| Format.Digits | backend/integrations/azure/blob_repository.py:19 | a zero-padded rendering has exactly the requested width, and every character is a digit of the base |
| Format.ValueOfDigits | backend/integrations/azure/blob_repository.py:19 | a zero-padded rendering reads back as the number, whenever the number fits in the width |
| Format.DigitsInjective | backend/integrations/azure/blob_repository.py:19 | two numbers that fit in the width have equal renderings only if they are equal |
| Format.Decimal | backend/integrations/azure/blob_repository.py:42 | `str(n)` is a non-empty run of decimal digits without a leading zero |
| Format.IntToStr | backend/integrations/azure/blob_repository.py:42 | `str(i)` is non-empty and starts with `-` exactly when `i` is negative |
| Format.IntToStrRoundTrip | backend/integrations/azure/blob_repository.py:42 | `int(str(i)) == i` |
| BlobClient.BlobContainerName | backend/integrations/azure/blob_client.py:12-13 | the container is `AZURE_BLOB_CONTAINER` when it is set, even to the empty string, and `pdfs` when it is unset |
| BlobClient.ContainerFor | backend/integrations/azure/blob_client.py:40-46 | the container opened is the given name when non-empty, otherwise the configured one |
| BlobClient.CreateBlobServiceClient | backend/integrations/azure/blob_client.py:23-37 | there is no client exactly when neither the connection string nor the account URL is set to a non-empty value; a non-empty connection string takes priority, and the account URL is used only without one |
| BlobClient.IsBlobConfigured | backend/integrations/azure/blob_client.py:16-20 | `is_blob_configured()` holds exactly when `create_blob_service_client()` returns a client |
| BlobRepository.FormatDate | backend/integrations/azure/blob_repository.py:19 | `strftime('%Y/%m/%d')` is ten characters long |
| BlobRepository.DateRoundTrip | backend/integrations/azure/blob_repository.py:19 | every valid date's `YYYY/MM/DD` rendering reads back as the same date |
| BlobRepository.UuidHex | backend/integrations/azure/blob_repository.py:19 | `uuid.hex` is 32 lower-case hexadecimal digits |
| BlobRepository.NameEndSpec | backend/integrations/azure/blob_repository.py:18 | the final component ends before the trailing slashes, and only slashes follow it |
| BlobRepository.NameStartSpec | backend/integrations/azure/blob_repository.py:18 | the final component starts just after the last slash before it, and holds no slash |
| BlobRepository.LastDotSpec | backend/integrations/azure/blob_repository.py:18 | `rfind('.')` finds a dot, and no later dot exists; it returns -1 only when there is no dot |
| BlobRepository.FinalComponent | backend/integrations/azure/blob_repository.py:18 | `Path(p).name` holds no slash and is no longer than the path |
| BlobRepository.FinalComponentSpec | backend/integrations/azure/blob_repository.py:18 | `Path(p).name` is the piece of the path that follows a slash or the start of the path, does not end in a slash, and is followed only by slashes |
| BlobRepository.PathSuffix | backend/integrations/azure/blob_repository.py:18 | a non-empty `Path(p).suffix` is a dot followed by at least one more character |
| BlobRepository.PathSuffixSpec | backend/integrations/azure/blob_repository.py:18 | a non-empty `Path(p).suffix` is a dot followed by at least one character, with no further dot and no slash; its dot comes after the first character of the name, it runs to the end of the name, it occurs in the path at the name's last dot, and only slashes follow it |
| BlobRepository.PathSuffixIff | backend/integrations/azure/blob_repository.py:18 | `Path(p).suffix` is non-empty exactly when the name does not end in a dot and holds a dot after its first character and before its last |
| BlobRepository.PdfSuffix | backend/integrations/azure/blob_repository.py:18 | `Path(filename or 'document.pdf').suffix or '.pdf'` is always a dot followed by at least one more character |
| BlobRepository.PdfSuffixSpec | backend/integrations/azure/blob_repository.py:18 | the suffix used always starts with a dot, has at least one more character and no further dot or slash, and is `.pdf` or the file name's own suffix |
| BlobRepository.NoExtensionGivesPdf | backend/integrations/azure/blob_repository.py:18 | with no file name, an empty one, or one whose final component holds no dot strictly between its first and last characters (`v1.2/README`, `docs/.bashrc`), the suffix is `.pdf` |
| BlobRepository.FinalExtensionKept | backend/integrations/azure/blob_repository.py:18 | a name `stem.ext` gets exactly its final extension `.ext` |
| BlobRepository.SuffixFromLastDot | backend/integrations/azure/blob_repository.py:18 | a path whose last component is `x.y`, with no dot or slash in `y`, has the suffix `.y` |
| BlobRepository.DoubleExtensionExample | backend/integrations/azure/blob_repository.py:18 | `a.tar.gz` gives `.gz` |
| BlobRepository.LeadingOrTrailingDotGivesPdf | backend/integrations/azure/blob_repository.py:18 | a hidden-file name `.x` and a name `x.` have no suffix, so both get `.pdf` |
| BlobRepository.BuildPdfBlobName | backend/integrations/azure/blob_repository.py:17-19 | the name is 51 characters plus the suffix |
| BlobRepository.BlobNameRoundTrip | backend/integrations/azure/blob_repository.py:19 | the generated name has the shape `uploads/YYYY/MM/DD/<32 hex digits><suffix>`, and reading it back yields the date, the uuid and the suffix it was built from |
| BlobRepository.DistinctIdsGiveDistinctNames | backend/integrations/azure/blob_repository.py:19 | names built from different uuids differ, whatever the file names and dates |
| BlobRepository.BlobNameInDateFolder | backend/integrations/azure/blob_repository.py:18-19 | after `uploads/YYYY/MM/DD/` the name holds no further slash, so a file name can never move the blob out of its date folder |
| BlobRepository.PyStrOf | backend/integrations/azure/blob_repository.py:42 | `str(v)` keeps a string unchanged, writes an integer so that `int()` reads it back, `True` as `True`, `False` as `False`, and `None` as `None` |
| BlobRepository.NormalizeMetadata | backend/integrations/azure/blob_repository.py:42 | the normalised metadata has exactly the input's keys, each mapped to `str()` of its value; absent metadata gives an empty map |
| BlobRepository.NormalizedValues | backend/integrations/azure/blob_repository.py:42 | string values are kept unchanged, integer values are written so that `int()` reads them back, booleans become `True`/`False` and `None` becomes `None` |
| BlobRepository.UploadPdfBytes | backend/integrations/azure/blob_repository.py:22-55 | empty bytes fail first; an unconfigured store fails next; otherwise the bytes are written to the configured container under `build_pdf_blob_name`'s name, with `overwrite=True`, content type `application/pdf` and the normalised metadata; the descriptor reports the same container, the same name and `len(pdf_bytes)` |
| BlobRepository.UploadsNeverCollide | backend/integrations/azure/blob_repository.py:39-55 | two successful uploads of the same input with different uuids report different blob names |

## Left out

- The `isinstance(..., bytes)` checks that raise `TypeError` (backend/parse/parse.py:28-29, backend/integrations/azure/blob_repository.py:27-28) are excluded by the types. The bytes parameters are sequences of `byte`, and the file names and metadata are typed.
- Parse.ParsePdfBytes: text extraction is the placeholder string the code builds from the file name. The model follows the code, which hard-codes this stand-in, rather than a pluggable extractor.
- BlobRepository.UploadPdfBytes: the SDK calls are not modelled. These are constructing the service and container clients, `create_container` with its `ResourceExistsError` ignored (`ensure_container_exists`), and `upload_blob`. The model states only the arguments `upload_blob` receives. Failures raised inside the SDK are not modelled.
- BlobRepository.UploadPdfBytes: the returned `blob_url` comes from the SDK client and is not modelled. The descriptor holds the container, the name and the size.
- BlobClient.CreateBlobServiceClient: `DefaultAzureCredential()` is always constructed and used with the account URL. The model records only which kind of client is built, from the connection string or from the account URL, and not the credential.
- `download_blob_bytes` and `delete_blob` (backend/integrations/azure/blob_repository.py:58-75) are pass-throughs to the SDK behind the same "not configured" check, so they are not modelled.
- The real clock and `uuid4` randomness are not modelled. The UTC date and the 128-bit identifier are parameters, so the model gives the key's shape and uniqueness for distinct identifiers, not the probability that two random identifiers coincide.
- BlobRepository.FormatDate: the year is always zero-padded to four digits. The C library's `strftime` does not pad years below 1000 on every platform, and such dates never come from a current clock.
- BlobRepository.PdfSuffix: `.` components are not modelled. `pathlib` drops them when it parses a path, so `Path("a.txt/.")` has the name `a.txt`, while the model takes `.` as the final component. Backslash separators, which are Windows-only, are not modelled either.
- BlobRepository.PdfSuffix: the model follows the `0 < i < len(name) - 1` test on the last dot. The behaviour of other Python versions on names ending in a dot is not covered.
- BlobRepository.NormalizeMetadata: metadata values are limited to strings, integers, booleans and `None`, the values whose `str()` the model writes out. Other Python objects are not modelled.
- The FastAPI application, its startup, the database client and the TypeScript client are not part of this model.
