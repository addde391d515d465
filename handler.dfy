/** `RequestHandler`: `handle_requests` dispatches on the method, `handle_get`
    decides between the listing page, a download and nothing, and
    `handle_post` checks the URI, parses the upload form and redirects. */
module Handler {
  import opened Bytes
  import opened Form
  import opened Directory

  /** `hyper::method::Method`. */
  datatype HttpMethod = Options | Get | Post | Put | Delete | Head | Trace | Connect | Patch | Extension(name: string)

  /** What the handler goes on to do with a request. */
  datatype Action =
    | RenderListing                          // send `ui::render_ui(&resources)`
    | ServeDownload(path: Path, filename: string) // open `path`, stream it as attachment `filename`
    | NoResponse                             // the handler writes nothing
    | PostForm                               // `handle_post`

  // ---------------------------------------------------------------------
  // The file a download opens

  /** The path `handle_get` opens: `full_path(uri)` with the leading `/`
      still on the URI. That path is absolute, so `PathBuf::push` discards
      the root and a listed name is opened at the file-system root. */
  function DownloadPathAsWritten(root: Path, uri: string): (p: Path)
    ensures |uri| >= 1 && uri[0] == '/' ==> p == ParsePath(uri)
    ensures |uri| >= 2 && uri[0] == '/' && '/' !in uri[1..] ==> p == Path(true, [uri[1..]])
  {
    if |uri| >= 2 && uri[0] == '/' && '/' !in uri[1..] then
      assert uri == "/" + uri[1..];
      ParseRootedName(uri[1..]);
      Joined(root, uri)
    else Joined(root, uri)
  }

  /** The URI starts with `/`, so the path opened is the same whatever
      directory is served. */
  lemma AsWrittenIgnoresRoot(root: Path, other: Path, uri: string)
    requires |uri| >= 1 && uri[0] == '/'
    ensures DownloadPathAsWritten(root, uri) == DownloadPathAsWritten(other, uri) == ParsePath(uri)
  {
  }

  /** Serving `/srv/share`, a request for `/a.txt` opens `/a.txt` at the
      file-system root instead of `/srv/share/a.txt`. */
  lemma AsWrittenLeavesRoot()
    ensures DownloadPathAsWritten(Path(true, ["srv", "share"]), "/a.txt") == Path(true, ["a.txt"])
    ensures DownloadPathAsWritten(Path(true, ["srv", "share"]), "/a.txt") != Path(true, ["srv", "share", "a.txt"])
  {
  }

  /** The path evidently intended: the file name under the root. */
  function DownloadPath(root: Path, uri: string): (p: Path)
    requires |uri| >= 1
    ensures uri[1..] != [] && '/' !in uri[1..] ==> p == Path(root.absolute, root.parts + [uri[1..]])
  {
    var name := uri[1..];
    if name != [] && '/' !in name then JoinedFileName(root, name); Joined(root, name)
    else Joined(root, name)
  }

  // ---------------------------------------------------------------------
  // Dispatch

  /** `handle_get` once `resources` is listed: `/` renders the page, a listed
      URI is downloaded from `full_path(uri)`, anything else gets nothing. */
  function GetAction(uri: string, resources: set<string>, root: Path): (a: Action)
    requires |uri| >= 1
    ensures a == RenderListing <==> uri == "/"
    ensures a.ServeDownload? <==> uri != "/" && uri in resources
    ensures a.ServeDownload? ==> a.filename == uri[1..] && a.path == DownloadPathAsWritten(root, uri)
    ensures a == NoResponse <==> uri != "/" && uri !in resources
  {
    if uri == "/" then RenderListing
    else if uri in resources then ServeDownload(DownloadPathAsWritten(root, uri), uri[1..])
    else NoResponse
  }

  /** `handle_get` with the corrected path: the same decisions, but a listed
      URI is downloaded from the name under the root. */
  function CorrectedGetAction(uri: string, resources: set<string>, root: Path): (a: Action)
    requires |uri| >= 1
    ensures a.ServeDownload? <==> GetAction(uri, resources, root).ServeDownload?
    ensures a.ServeDownload? ==> a.filename == uri[1..] && a.path == DownloadPath(root, uri)
    ensures !a.ServeDownload? ==> a == GetAction(uri, resources, root)
  {
    if uri == "/" then RenderListing
    else if uri in resources then ServeDownload(DownloadPath(root, uri), uri[1..])
    else NoResponse
  }

  /** `handle_requests`: POST goes to `handle_post`, GET to `handle_get`,
      every other method is dropped. */
  function Route(m: HttpMethod, uri: string, resources: set<string>, root: Path): (a: Action)
    requires m == Get ==> |uri| >= 1
    ensures a == PostForm <==> m == Post
    ensures a == RenderListing <==> m == Get && uri == "/"
    ensures a.ServeDownload? <==> m == Get && uri != "/" && uri in resources
    ensures a.ServeDownload? ==> |uri| >= 1 && a.filename == uri[1..] && a.path == DownloadPathAsWritten(root, uri)
    ensures a == NoResponse <==> (m != Get && m != Post) || (m == Get && uri != "/" && uri !in resources)
  {
    match m
    case Post => PostForm
    case Get => GetAction(uri, resources, root)
    case _ => NoResponse
  }

  /** The names `fs::read_dir` returns: never empty, never holding `/`. */
  predicate PlainNames(entries: seq<DirEntry>)
  {
    forall i :: 0 <= i < |entries| ==> entries[i].name != [] && '/' !in entries[i].name
  }

  /** A download is only ever of a regular file the listing found, and the
      attachment is named after that entry; but the file opened is that name
      at the file-system root, whatever directory is served. */
  lemma RouteServesListedFile(m: HttpMethod, uri: string, dir: Directory, entries: seq<DirEntry>)
    requires |uri| >= 1 && PlainNames(entries)
    requires Route(m, uri, Listing(entries).Keys, dir.root).ServeDownload?
    ensures exists i :: 0 <= i < |entries| && entries[i].kind == RegularFile && uri == "/" + entries[i].name
                        && Route(m, uri, Listing(entries).Keys, dir.root).filename == entries[i].name
                        && Route(m, uri, Listing(entries).Keys, dir.root).path == Path(true, [entries[i].name])
  {
    ListingKeys(entries, uri);
    var i :| 0 <= i < |entries| && entries[i].kind == RegularFile && uri == "/" + entries[i].name;
    assert uri[1..] == entries[i].name;
  }

  /** With the corrected path the file opened is the listed entry directly
      under the root. */
  lemma CorrectedServesUnderRoot(uri: string, dir: Directory, entries: seq<DirEntry>)
    requires |uri| >= 1 && PlainNames(entries)
    requires CorrectedGetAction(uri, Listing(entries).Keys, dir.root).ServeDownload?
    ensures exists i :: 0 <= i < |entries| && entries[i].kind == RegularFile && uri == "/" + entries[i].name
                        && CorrectedGetAction(uri, Listing(entries).Keys, dir.root).path
                           == Path(dir.root.absolute, dir.root.parts + [entries[i].name])
  {
    ListingKeys(entries, uri);
    var i :| 0 <= i < |entries| && entries[i].kind == RegularFile && uri == "/" + entries[i].name;
    assert uri[1..] == entries[i].name;
  }

  // ---------------------------------------------------------------------
  // handle_post

  const FoundStatus: nat := 302

  /** How `handle_post` ends. `parse_post_form(..).unwrap()` panics on every
      form error, so the handler thread panics before writing anything. */
  datatype PostOutcome =
    | InvalidUri                                            // Err("Invalid request uri")
    | FormPanic(error: FormError)                           // the unwrap panics
    | Redirect(status: nat, location: string, body: string) // 302 Found, then Ok(0)

  /** Specification of `handle_post` on the unread body `rest`. */
  function PostResult(uri: string, rest: seq<byte>): (o: PostOutcome)
    requires uri == "/" ==> FormCannotPanic(rest)
    ensures o == InvalidUri <==> uri != "/"
    ensures o.FormPanic? <==> uri == "/" && ParseForm(rest).Err?
    ensures o.FormPanic? ==> o.error == ParseForm(rest).error
    ensures o.Redirect? <==> uri == "/" && ParseForm(rest).Ok?
    ensures o.Redirect? ==> o.status == FoundStatus && o.location == "/"
  {
    if uri != "/" then InvalidUri
    else match ParseForm(rest)
      case Err(e) => FormPanic(e)
      case Ok(_) => Redirect(FoundStatus, "/", "Something")
  }

  /** A POST whose first 512 body bytes hold no blank line never redirects. */
  lemma OversizedPostPanics(rest: seq<byte>)
    requires |rest| >= MaxLen && NoSepIn(rest, 0, MaxLen)
    ensures FormCannotPanic(rest) && PostResult("/", rest) == FormPanic(FormTooLong)
  {
    ScanTooLongIff(rest, 0);
    ParseFormTooLong(rest);
  }

  /** A redirect means the form named a file: a non-empty name without `"`
      or space, found in a valid UTF-8 header of 50 to 512 bytes. */
  lemma RedirectMeansFileName(uri: string, rest: seq<byte>)
    requires uri == "/" ==> FormCannotPanic(rest)
    requires PostResult(uri, rest).Redirect?
    ensures uri == "/" && ParseForm(rest).Ok?
    ensures ParseForm(rest).name != [] && QUOTE !in ParseForm(rest).name && SP !in ParseForm(rest).name
    ensures ValidUtf8(ParseForm(rest).name)
  {
    ParseFormOk(rest);
  }

  /** `handle_post`: reject a URI other than `/` without reading the body,
      otherwise parse the form header off the body and redirect to `/`. At
      most 512 body bytes are consumed. */
  method HandlePost(uri: string, req: RequestBody) returns (o: PostOutcome)
    requires req.Valid() && (uri == "/" ==> FormCannotPanic(req.data[req.pos..]))
    modifies req
    ensures req.Valid() && o == PostResult(uri, req.data[old(req.pos)..])
    ensures uri != "/" ==> req.pos == old(req.pos)
    ensures req.pos <= old(req.pos) + MaxLen
  {
    if uri != "/" {
      return InvalidUri;
    }
    ghost var rest := req.data[req.pos..];
    ScanConsumedBound(rest);
    var fileName := ParsePostForm(req);
    if fileName.Err? {
      return FormPanic(fileName.error);
    }
    return Redirect(FoundStatus, "/", "Something");
  }
}
