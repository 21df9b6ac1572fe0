# Upload decoding model

This project models the text decoding behind the backend's `/upload/` endpoint
(`backend/app/api/v1/routers/upload.py`). The reader `read_file_content` takes
the uploaded bytes and an encoding detector's guess, then builds an ordered list
of candidate encodings. It decodes the bytes with the first candidate that
works and returns the text together with that encoding. When no candidate works,
it raises an HTTP 400 exception. The handler `upload_file` turns what the reader
returns, or raises, into a response.

The whole model is the module `Upload` in `upload.dfy`:

- The detector's answer is an `Option<string>`. A missing answer and an empty
  string both fall back to `"utf-8"`, because both are false in a Python condition.
- The codec call is an oracle `Decoder` that maps the bytes and an encoding name
  to one of three outcomes:
  - `Decoded(text)`;
  - `DecodeFailed`, for the two exceptions the loop catches (`UnicodeDecodeError`,
    `TypeError`), after which the next candidate is tried;
  - `Raised(message)`, for any other exception. An example is `LookupError` for a
    codec name the library does not know. The loop does not catch such an
    exception, so it leaves the reader, and the handler's generic clause answers 500.
- Encoding names are compared by exact string equality, as the membership test
  on line 26 does. So a guess of `"UTF-8"` is put in front of `"utf-8"`.
- `FirstDecodable` is the reference definition of "try in order, keep the first
  success". The lemmas characterise it. `ReadFileContent` is the source's loop,
  with a `break` on success, and is proved equal to that definition.
- ISO-8859-1 maps every byte to a character, so in practice it always decodes.
  `Latin1ShadowsWindows1252` shows what follows from that order: under that
  hypothesis the 400 error cannot happen and `windows-1252` is never the
  encoding used.

## Model

| member | source | states |
|---|---|---|
| `Upload.EncodingToTry` | backend/app/api/v1/routers/upload.py:20-21 | the detector's non-empty guess is used as given; a missing or empty guess becomes "utf-8"; the result is never empty |
| `Upload.Candidates` | backend/app/api/v1/routers/upload.py:24-27 | the list has 3 or 4 entries and no duplicates under exact equality; it ends with the three fallbacks in their order; it has 3 entries exactly when the name is a fallback, and otherwise the name comes first; its members are exactly the name and the fallbacks |
| `Upload.CandidatesOfFallback` | backend/app/api/v1/routers/upload.py:24-27 | a name that is already a fallback gives exactly ["utf-8","iso-8859-1","windows-1252"] |
| `Upload.CandidatesOfUpperCaseUtf8` | backend/app/api/v1/routers/upload.py:26-27 | a guess of "UTF-8" is not equal to "utf-8" and is put in front, giving four candidates |
| `Upload.Settle` | backend/app/api/v1/routers/upload.py:33-38 | once a candidate does not fail in the caught way, the reader returns its text with that encoding when it decoded, and otherwise lets the other exception out with its message |
| `Upload.FirstDecodableAt` | backend/app/api/v1/routers/upload.py:32-38 | the outcome is decided by the earliest candidate that did not fail, and every candidate before it failed |
| `Upload.FirstDecodableExhausted` | backend/app/api/v1/routers/upload.py:29-41 | the reader raises the 400 exception with the fixed "Could not decode…" detail if and only if every candidate failed to decode |
| `Upload.FirstDecodableReadIsEarliest` | backend/app/api/v1/routers/upload.py:32-43 | on success, the returned encoding is a candidate at the earliest non-failing position, every earlier candidate failed, and the returned text is that codec's result |
| `Upload.ReadFileContent` | backend/app/api/v1/routers/upload.py:10-43 | the loop's result equals the first-success definition over the candidate list; on success the encoding is the earliest non-failing candidate and the text is its decode result; it ends in the 400 exception exactly when all candidates failed; any other failure is an uncaught codec exception |
| `Upload.DetectedFallbackIsIrrelevant` | backend/app/api/v1/routers/upload.py:21-27 | a guess that is already a fallback gives the same outcome as no guess at all |
| `Upload.DetectedOutsideFallbacksWins` | backend/app/api/v1/routers/upload.py:26-36 | a non-empty guess outside the fallbacks is tried first, so when it decodes, its text and name are returned |
| `Upload.Latin1ShadowsWindows1252` | backend/app/api/v1/routers/upload.py:24-41 | if "iso-8859-1" decodes the bytes, the 400 exception cannot happen and "windows-1252" is never the encoding used |
| `Upload.ErrorResponse` | backend/app/api/v1/routers/upload.py:66-69 | an HTTP exception becomes a response with its own status code and detail; any other exception becomes status 500 with "An unexpected error occurred: " followed by its message |
| `Upload.UploadFile` | backend/app/api/v1/routers/upload.py:45-69 | a reader exception becomes the matching error response, so all candidates failing gives status 400 with the "Could not decode…" detail, and 400 happens exactly then; a CSV-reader exception and a rendering exception each give status 500 with "An unexpected error occurred: " followed by its message; status 200 happens exactly when decoding succeeded, the CSV reader did not raise for a ".csv" name, and the body carrying the file name, the encoding used and the rows or lines rendered; every other status carries an error body; the status is always 200, 400 or 500 |

## Left out

- Reading the upload and resetting its pointer (lines 14-17) is I/O, so the bytes are an input. Neither call is awaited. On the framework's asynchronous upload file, `file.read()` returns a coroutine instead of bytes. Handing that coroutine to `chardet.detect` (line 20) raises a type error outside the decoding `try`, so as written every upload ends in status 500. The model takes the bytes as already read, as an awaited read would give them. Every status claim of `Upload.UploadFile` is about that awaited read.
- The internals of the encoding detector (`chardet.detect`) are not modelled. Its answer is an input.
- Real codec semantics of `bytes.decode` are not modelled. Decoding is the `Decoder` oracle, and the ISO-8859-1 totality used by `Upload.Latin1ShadowsWindows1252` is a hypothesis of that lemma.
- CSV parsing with pandas, `splitlines` and JSON rendering of the success body (lines 54-65) are library calls. They are oracles here: `CsvReader`, `LineSplitter` and `Renderer`. A rendering failure, such as a NaN cell that JSON rendering refuses, is `Renderer`'s `RenderRaised` and ends in status 500. Row values are `map<string, string>`, not pandas' typed cells.
- Rendering the two error responses (lines 67 and 69) is taken to succeed, because their bodies are plain strings.
- `Upload.UploadFile`: a missing file name (`None`) would make the `.endswith` call raise, so that case would end in status 500. The model's file name is always a string.
- `Upload.UploadFile`: its contract describes the handler with an awaited read. The 500 that the unawaited read at line 14 causes on every upload is not modelled.
- Async/await behaviour and the HTTP framework's routing are not modelled.
- auth.py, crud/user.py, main.py, core/config.py and schemas/user.py are not part of this model: they hold foreign token and password calls, fixture data, wiring and declarations, with no decoding logic.
