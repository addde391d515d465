# A file-exchange request handler, modelled in Dafny

The service shares one flat directory over HTTP. `Directory` knows the root
and lists the regular files in it. `RequestHandler` answers three kinds of
request:

- `GET /` renders the listing page.
- `GET /<name>` of a listed name streams a file back as an attachment named
  `<name>`. As written, the file opened is `/<name>` at the file-system root,
  not the one in the served directory (see "## Findings").
- `POST /` reads the multipart part header off the request body, extracts
  the `filename="..."` value and redirects to `/`.

The model follows the Rust source file by file:

- `seqs.dfy`: `Option`, and `str::split` on a one-element separator, with its
  inverse `Join`. It also has substring containment and the `Sum` of a list
  of byte counts.
- `bytes.dfy`: the `byte` type and the ASCII constants the scanner compares
  against. It also holds the UTF-8 well-formedness rule that `str::from_utf8`
  applies (RFC 3629, Table 3-7 of the Unicode standard).
- `form.dfy`: `parse_post_form` and `get_filename_from_form`.
  - `ParsePostForm` is the imperative loop over a `RequestBody` object. It
    reads one byte at a time into a 512-byte array.
  - `GetFilenameFromForm` is the `for` loop over the space-separated tokens.
  - Each is proved equal to a specification function: `ParseForm`, and
    `FileNameFromForm` with `ScanTokens`.
  - Lemmas characterise each error and the success case of those functions.
- `download.dfy`: the download half of `handle_get`. `Response` is an object
  whose headers may only change before `start`. `OpenFile` is the opened
  file. `CopyToClient` is the `read_total < len` copy loop through a
  1024-byte array.
  - Read and write counts are nondeterministic, within what
    `Read::read` and `Write::write` may return.
  - The bytes the client receives are `Emitted(content, readCounts,
    sentCounts)`.
  - Both totals agree exactly when every write was whole, and then the body
    is the file's first `read_total` bytes.
- `directory.dfy`: `Directory::new`, `list_available_resources` and
  `full_path`. A `PathBuf` is modelled as an absolute flag and a list of
  components, and `push` follows Unix rules. The directory read is replaced
  by the list of entries `fs::read_dir` yields.
- `handler.dfy`: `handle_requests`, `handle_get` and `handle_post`:
  - `Route` and `GetAction`: the dispatch on method and URI, opening the
    path the code builds (`DownloadPathAsWritten`);
  - `CorrectedGetAction`: the same dispatch with the path evidently intended;
  - `PostResult` and `HandlePost`: how a POST ends;
  - the download-path finding below.

## Model

| member | source | states |
|---|---|---|
| Seqs.JoinSplit | src/request.rs:98-100 | joining the pieces of `split` with the separator gives the input back |
| Seqs.SplitPieces | src/request.rs:98-100 | no piece of `split` holds the separator and every byte of a piece comes from the input |
| Seqs.SinglePiece | src/request.rs:100-101 | `split` yields exactly one piece only when the separator is absent, and that piece is the whole input |
| Bytes.AsciiIsUtf8 | src/request.rs:150 | a buffer of bytes below 0x80 always passes `str::from_utf8` |
| Bytes.Utf8CutAtAscii | src/request.rs:150 | cutting valid UTF-8 at an ASCII byte leaves valid UTF-8 on both sides |
| Form.BareTokenIsKey | src/request.rs:99-104 | the only token naming a file that passes the guard without a second piece (so `tmp[1]` panics) is `filename=` itself |
| Form.ScanTokensErr | src/request.rs:98-103 | the token loop fails exactly when some token containing `filename=` is malformed, and then with "Malformed form" |
| Form.ScanTokensOk | src/request.rs:98-106 | on success the name is the second `"`-piece of the last token naming a file, or the starting name when no token names one |
| Form.FileNameOk | src/request.rs:94-111 | a returned name is non-empty, holds no `"` and no space, and is the second `"`-piece of the last token containing `filename=` |
| Form.FileNameMalformed | src/request.rs:98-103 | "Malformed form" exactly when some token naming a file splits at `"` into other than two pieces and whose text before the first `"` is not exactly `filename=` |
| Form.FileNameMissing | src/request.rs:107-109 | "File name not found" exactly when no token naming a file is malformed and either none names a file or the last one that does has an empty value |
| Form.GetFilenameFromForm | src/request.rs:94-111 | the loop over the space-separated tokens returns `FileNameFromForm(form)` |
| Form.SplitKeepsUtf8 | src/request.rs:150-163 | every piece of valid UTF-8 split at an ASCII byte is valid UTF-8, so the extracted name is a valid `String` |
| Form.Scan | src/request.rs:127-147 | a separator outcome lies past the bytes already buffered, within 512 and within the body |
| Form.ScanSeparatorIff | src/request.rs:136-147 | the loop ends at `n` bytes exactly when `\r\n\r\n` ends at byte `n` and ends nowhere earlier, with `n` at most 512 |
| Form.ScanTooLongIff | src/request.rs:128-130 | "too long" exactly when the body has 512 bytes and none of them completes a separator |
| Form.ScanEndIff | src/request.rs:131-135 | the stream ends early exactly when the body is shorter than 512 bytes and holds no separator |
| Form.ScanConsumedBound | src/request.rs:119-147 | at most 512 bytes, and no more than the body holds, are taken from the body |
| Form.ParseFormTooLong | src/request.rs:128-130 | "Post form is too long > 512" exactly when the first 512 bytes hold no separator |
| Form.ParseFormEarlyEnd | src/request.rs:131-135 | a body that ends short of 512 bytes before any separator gives "Malformed form" |
| Form.ParseFormHeaderChecks | src/request.rs:150-158 | a header that is not valid UTF-8 gives the UTF-8 error and a valid one shorter than 50 bytes gives "Malformed form", neither of them able to panic |
| Form.ParseFormOk | src/request.rs:149-163 | success means a header of 50 to 512 bytes ending at the first separator, valid UTF-8, whose file name is the result; the name is non-empty, free of `"` and space, and valid UTF-8 |
| Form.RequestBody.Read | src/request.rs:131 | a read into the one-byte buffer yields the next body byte, or 0 bytes at the end of the body |
| Form.ParsePostForm | src/request.rs:118-164 | the byte-at-a-time loop into the 512-byte buffer returns `ParseForm` of the unread body, and consumes exactly the bytes the scan took |
| Download.OpenFile.Read | src/request.rs:80 | a read returns the next bytes of the file, at most the buffer's length and at least one before the end |
| Download.Response.SetContentLength | src/request.rs:65 | sets `Content-Length` only, before the response starts |
| Download.Response.SetDisposition | src/request.rs:67-72 | sets `Content-Disposition` only, before the response starts |
| Download.Response.Start | src/request.rs:74 | the headers in place when the stream opens are the ones sent |
| Download.Response.Write | src/request.rs:81 | a write sends some prefix of the chunk and nothing else |
| Download.EmittedLength | src/request.rs:79-84 | the client receives one byte per byte the writes accepted |
| Download.TotalsAgree | src/request.rs:79-89 | `sent_total <= read_total`, with equality exactly when every write accepted its whole chunk |
| Download.WholeWritesCopy | src/request.rs:79-84 | with whole writes the client receives exactly the file's bytes read so far, in order |
| Download.CopyStep | src/request.rs:80-83 | one iteration adds its read count to `read_total` and appends the accepted prefix of the chunk to what was sent |
| Download.CopyToClient | src/request.rs:75-89 | the loop ends with `len <= read_total < len + 1024` (exactly `len` when the file has that length), the body sent is `Emitted` of the counts, the mismatch flag is set exactly when some write was partial, and without it the body is the file prefix |
| Download.ServeFile | src/request.rs:63-89 | the response starts with `Content-Length: len` and an ISO-8859-1 attachment named after the URI without its `/`, then the file is copied as above |
| Directory.Joined | src/directory.rs:51-56 | a relative name is appended to the root's components; an absolute one replaces the root |
| Directory.JoinedFileName | src/directory.rs:51-56 | a plain file name adds exactly one component under the root |
| Directory.ParseRootedName | src/directory.rs:51-56 | `/` followed by a plain name is the absolute path with that single component |
| Directory.ListingKeys | src/directory.rs:30-47 | the keys are exactly `"/" + name` of the regular-file entries |
| Directory.ListingNames | src/directory.rs:37-43 | each key is `/` followed by the name stored under it |
| Directory.ListingValue | src/directory.rs:37-43 | the value under a name is the name and length of the last regular-file entry of that name |
| Directory.ListingSize | src/directory.rs:30-47 | the listing has no more keys than entries |
| Directory.Directory.New | src/directory.rs:21-25 | keeps the root it is given |
| Directory.Directory.ListAvailableResources | src/directory.rs:30-47 | the insertion loop over the entries builds `Listing(entries)` |
| Directory.Directory.FullPath | src/directory.rs:51-56 | pushing the root and then the name gives `Joined(root, name)` |
| Handler.DownloadPathAsWritten | src/request.rs:59-60 | the path `full_path(uri)` builds from a URI with its leading `/` is `ParsePath(uri)`, and for `/<name>` with a plain name it is `/<name>` at the file-system root |
| Handler.AsWrittenIgnoresRoot | src/request.rs:59-60 | a download path built from the URI with its leading `/` is the same whatever the root |
| Handler.AsWrittenLeavesRoot | src/request.rs:59-60 | serving `/srv/share`, a request for `/a.txt` opens `/a.txt`, not `/srv/share/a.txt` |
| Handler.DownloadPath | src/directory.rs:51-56 | the corrected path, `full_path(uri[1..])`: a plain listed name lands directly under the root |
| Handler.GetAction | src/request.rs:51-60 | `/` renders the listing; a listed URI is served as attachment `uri[1..]` from `DownloadPathAsWritten(root, uri)`; for any other URI the handler writes nothing |
| Handler.CorrectedGetAction | src/request.rs:51-60 | the same decisions as `GetAction`, but a listed URI is served from the corrected `DownloadPath` |
| Handler.Route | src/request.rs:207-220 | POST goes to `handle_post`; `GET /` renders the listing; a GET of a listed URI downloads it as attachment `uri[1..]` from the as-written path `DownloadPathAsWritten(root, uri)`; for anything else the handler writes nothing |
| Handler.RouteServesListedFile | src/request.rs:51-60 | a download is only of a regular-file entry and the attachment carries its name, but the file opened is `/<name>` at the file-system root, whatever directory is served |
| Handler.CorrectedServesUnderRoot | src/request.rs:51-60 | with the corrected path, the file opened is the listed entry directly under the root |
| Handler.PostResult | src/request.rs:167-204 | a URI other than `/` is rejected; otherwise every form error aborts and every parsed name gives 302 Found to `/` |
| Handler.OversizedPostPanics | src/request.rs:128-130 | a POST whose first 512 body bytes hold no blank line never redirects |
| Handler.RedirectMeansFileName | src/request.rs:193-203 | a redirect means the header named a non-empty file name without `"` or space, in valid UTF-8 |
| Handler.HandlePost | src/request.rs:167-204 | returns `PostResult` of the unread body, reads nothing for a wrong URI, and takes at most 512 body bytes |

## Left out

- Sockets, hyper's `Request`/`Response` types and the network are not modelled. The request body and the file are byte sequences behind small classes. The response is a class holding headers and a body.
- `ui::render_ui` (the listing page), the `stream` module and the CLI entry point are not part of this model. `RenderListing` only records that the page is sent.
- Verbose logging, `println!` and the empty line printed on a mismatch are not modelled. The mismatch is returned as a flag.
- What hyper sends after the handler returns without writing (an unlisted GET, another method) or after its thread panics (a form error in `handle_post`) is not modelled: the model records only that the handler writes nothing.
- Concurrency between connections is not modelled: each handler call is sequential.
- `unwrap` panics on I/O errors are outside the model: `read_dir`, entry, `file_type`, `metadata`, `File::open`, `read`, `write`, `start` and `into_string` (non-UTF-8 file names). Every such call is modelled as succeeding.
- The error texts are not modelled as strings: each `FormError` constructor stands for one of the fixed texts, and `FormError.InvalidUtf8` for the `Utf8Error` message.
- Windows path prefixes and the `.`/`..` handling of `PathBuf` are not modelled. Paths follow Unix rules, with empty components dropped.
- The `HashMap` is modelled as a `map`. `contains(&uri)` is key membership, and iteration order does not matter.
- Form.GetFilenameFromForm: requires that no token equal to `filename=` is reached before a malformed one, because the source then indexes `tmp[1]` out of bounds and panics. Form.BareTokenIsKey characterizes exactly that token.
- Form.ParsePostForm: requires the same (`FormCannotPanic`) only of a header that reaches `get_filename_from_form`, i.e. one that ends at the separator, is valid UTF-8 and is at least 50 bytes long; a shorter or non-UTF-8 header is modelled in full.
- Download.CopyToClient: requires the file to be at least `len` bytes long. A file that shrank after `fs::metadata` makes the source loop forever on zero-byte reads, and the model does not capture that non-termination.
- Download.CopyToClient: the `usize` totals are unbounded integers. Overflow would need more than 2^64 bytes.
- Handler.Route: requires a non-empty URI for GET, because `uri[1..]` at src/request.rs:57 would panic on an empty one. A request URI is never empty (it can be `*` or an absolute URL, which the model handles like any other unlisted URI).
- The code has no `TransferError`: a read/write mismatch only prints an empty line, and the model returns it as the `mismatch` flag.
- The code writes no upload file, temporary or final: `handle_post` only parses the header and redirects.
- The code does not serve `/index.html` as the listing, writes nothing for an unlisted name rather than a 404, and checks no path for safety.

## Findings

| source | as written | input that shows it | evidently intended | confidence | as-written member | corrected member |
|---|---|---|---|---|---|---|
| src/request.rs:60 | `full_path(uri)` is passed the URI with its leading `/`; `PathBuf::push` of an absolute path discards the root | root `/srv/share`, `GET /a.txt` with `a.txt` listed: the file opened is `/a.txt` | open `/srv/share/a.txt`, i.e. `full_path` of the URI without its `/` | not executed | Handler.AsWrittenLeavesRoot | Handler.DownloadPath |
