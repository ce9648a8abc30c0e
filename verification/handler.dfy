/**
 The request handler of the artifacts server (the closure registered for
 "/" in main.go): a GET on a `.tar.gz` path streams the file below the
 serving root; a GET on a path whose base name is "latest" lists a
 directory and answers 303 See Other with the location of the selected
 entry; everything else is refused with a status code.

 The file system is a parameter: `open` gives the outcome of opening and
 reading a path, `readDir` the outcome of listing a directory.
 */
module Handler {
  import opened Paths
  import opened Selection

  const StatusSeeOther: int := 303
  const StatusNotFound: int := 404
  const StatusMethodNotAllowed: int := 405
  const StatusUnprocessableEntity: int := 422
  const StatusInternalServerError: int := 500

  const TarSuffix: string := ".tar.gz"
  const LatestName: string := "latest"
  const TarContentType: string := "application/x-gtar-compressed"

  newtype byte = x: int | 0 <= x < 256

  /** Where the handler routes a request, decided from the request method
      (`verb`) and the URL path alone. */
  datatype Route =
    | MethodNotAllowed
    | EmptyPath
    | TrailingSlash
    | NotTarArchive
    | DirectFile(path: string)
    | Latest

  /** Reading a file: all of its bytes, or the error that stopped the copy. */
  datatype ReadOutcome = ReadAll(content: seq<byte>) | ReadFailed(reason: string)

  /** Opening a file: it does not exist, it cannot be opened for another
      reason, or it opens and is then read. */
  datatype OpenOutcome = NotExist | OpenFailed(reason: string) | Opened(read: ReadOutcome)

  /** Listing a directory: the error, or the entries in listing order. */
  datatype ListOutcome = ListFailed(reason: string) | Listed(infos: seq<FileInfo>)

  datatype FileSystem = FileSystem(open: string -> OpenOutcome, readDir: string -> ListOutcome)

  /** The response written: an error status with its text, the streamed
      file with its content type, or a redirect. */
  datatype Response =
    | Error(status: int, message: string)
    | Content(contentType: string, body: seq<byte>)
    | Redirect(status: int, location: string)

  /** Which selection a "latest" request uses: the loop as the handler
      writes it, or the newest-entry selection its comments describe. */
  datatype Policy = AsWritten | Intended

  /** The URL path asks for the "latest" entry: its last element is "latest". */
  predicate NamesLatest(urlPath: string)
  {
    EndsInSegment(urlPath, LatestName)
  }

  /** The method and path checks, in the handler's order: method, empty
      path, trailing slash, then base name and archive suffix. */
  function Classify(verb: string, urlPath: string): (c: Route)
    ensures c == MethodNotAllowed <==> verb != "GET"
    ensures c == EmptyPath <==> verb == "GET" && urlPath == ""
    ensures c == TrailingSlash <==> verb == "GET" && urlPath != "" && urlPath[|urlPath| - 1] == '/'
    ensures c == Latest <==> verb == "GET" && NamesLatest(urlPath)
    ensures c.DirectFile? <==> verb == "GET" && HasSuffix(urlPath, TarSuffix)
    ensures c.DirectFile? ==> c.path == urlPath
    ensures c == NotTarArchive <==>
      && verb == "GET"
      && IsSegmentEnded(urlPath)
      && !NamesLatest(urlPath)
      && !HasSuffix(urlPath, TarSuffix)
  {
    if verb != "GET" then MethodNotAllowed
    else if |urlPath| == 0 then EmptyPath
    else if urlPath[|urlPath| - 1] == '/' then TrailingSlash
    else
      BaseIsFinalSegment(urlPath, LatestName);
      if Base(urlPath) != LatestName then
        if !HasSuffix(urlPath, TarSuffix) then NotTarArchive
        else DirectFile(urlPath)
      else
        // A path whose last element is "latest" ends in 't', never in ".tar.gz".
        assert !HasSuffix(urlPath, TarSuffix) by {
          assert urlPath[|urlPath| - 1] == LatestName[|LatestName| - 1];
        }
        Latest
  }

  /** Serving a direct file request from the outcome of opening it. */
  function Transfer(outcome: OpenOutcome): (r: Response)
    ensures outcome == NotExist ==> r == Error(StatusNotFound, "Not Found")
    ensures outcome.OpenFailed? ==> r == Error(StatusInternalServerError, outcome.reason)
    ensures outcome.Opened? && outcome.read.ReadFailed? ==>
      r == Error(StatusInternalServerError, outcome.read.reason)
    ensures !r.Redirect?
    ensures r.Content? <==> outcome.Opened? && outcome.read.ReadAll?
    ensures r.Content? ==> r.contentType == TarContentType && r.body == outcome.read.content
  {
    match outcome
    case NotExist => Error(StatusNotFound, "Not Found")
    case OpenFailed(reason) => Error(StatusInternalServerError, reason)
    case Opened(ReadFailed(reason)) => Error(StatusInternalServerError, reason)
    case Opened(ReadAll(content)) => Content(TarContentType, content)
  }

  /** The index a policy selects from a listing. */
  function Choose(policy: Policy, infos: seq<FileInfo>): (k: nat)
    requires |infos| > 0
    ensures k < |infos|
    ensures policy == AsWritten ==> IsLastAfterZero(infos, k)
    ensures policy == Intended && !NoneAfterZero(infos) ==> IsFirstNewest(infos, k)
  {
    match policy
    case AsWritten => LastAfterZero(infos)
    case Intended => NewestIndex(infos)
  }

  /** Each policy's characterisation pins down the index it chooses. */
  lemma ChoiceIsDetermined(policy: Policy, infos: seq<FileInfo>)
    requires |infos| > 0
    ensures policy == AsWritten ==> forall j: nat | IsLastAfterZero(infos, j) :: j == Choose(policy, infos)
    ensures policy == Intended && !NoneAfterZero(infos) ==>
      forall j: nat | IsFirstNewest(infos, j) :: j == Choose(policy, infos)
  {
    var k := Choose(policy, infos);
    if policy == AsWritten {
      forall j: nat | IsLastAfterZero(infos, j) ensures j == k {
        LastAfterZeroUnique(infos, j, k);
      }
    } else if !NoneAfterZero(infos) {
      forall j: nat | IsFirstNewest(infos, j) ensures j == k {
        FirstNewestUnique(infos, j, k);
      }
    }
  }

  /** Answering a "latest" request from the outcome of listing the
      directory: 500 on a listing error, 404 for an empty directory,
      otherwise 303 to `<base>/<name>` of the selected entry. */
  function ResolveLatest(policy: Policy, base: string, listing: ListOutcome): (r: Response)
    ensures listing.ListFailed? ==> r == Error(StatusInternalServerError, listing.reason)
    ensures listing.Listed? && listing.infos == [] ==> r == Error(StatusNotFound, "Directory Is Empty")
    ensures listing.Listed? && listing.infos != [] ==>
      && r.Redirect?
      && r.status == StatusSeeOther
      && exists k | 0 <= k < |listing.infos| :: r.location == Join(base, listing.infos[k].name)
    ensures listing.Listed? && policy == AsWritten ==>
      forall k: nat | IsLastAfterZero(listing.infos, k) && k < |listing.infos| ::
        r == Redirect(StatusSeeOther, Join(base, listing.infos[k].name))
    ensures listing.Listed? && policy == Intended && !NoneAfterZero(listing.infos) ==>
      forall k: nat | IsFirstNewest(listing.infos, k) :: r == Redirect(StatusSeeOther, Join(base, listing.infos[k].name))
  {
    match listing
    case ListFailed(reason) => Error(StatusInternalServerError, reason)
    case Listed(infos) =>
      if |infos| == 0 then Error(StatusNotFound, "Directory Is Empty")
      else
        var k := Choose(policy, infos);
        ChoiceIsDetermined(policy, infos);
        Redirect(StatusSeeOther, Join(base, infos[k].name))
  }

  /** The whole handler. The directory listed for a "latest" request is
      `root/latest` whatever the rest of the URL path is, and the location
      handed to the redirect is always `latest/<name>`. */
  function Handle(policy: Policy, root: string, fs: FileSystem, verb: string, urlPath: string): (r: Response)
    ensures verb != "GET" ==> r == Error(StatusMethodNotAllowed, "Method Not Allowed")
    ensures verb == "GET" && urlPath == "" ==> r == Error(StatusUnprocessableEntity, "Empty URL Path")
    ensures verb == "GET" && urlPath != "" && urlPath[|urlPath| - 1] == '/' ==>
      r == Error(StatusUnprocessableEntity, "Trailing Slash in URL Not Allowed")
    ensures verb == "GET" && IsSegmentEnded(urlPath) && !NamesLatest(urlPath) && !HasSuffix(urlPath, TarSuffix) ==>
      r == Error(StatusUnprocessableEntity, "Not a Tar Archive")
    ensures verb == "GET" && HasSuffix(urlPath, TarSuffix) ==>
      r == Transfer(fs.open(Join(root, urlPath)))
    ensures verb == "GET" && NamesLatest(urlPath) ==>
      r == ResolveLatest(policy, LatestName, fs.readDir(Join(root, LatestName)))
  {
    match Classify(verb, urlPath)
    case MethodNotAllowed => Error(StatusMethodNotAllowed, "Method Not Allowed")
    case EmptyPath => Error(StatusUnprocessableEntity, "Empty URL Path")
    case TrailingSlash => Error(StatusUnprocessableEntity, "Trailing Slash in URL Not Allowed")
    case NotTarArchive => Error(StatusUnprocessableEntity, "Not a Tar Archive")
    case DirectFile(path) => Transfer(fs.open(Join(root, path)))
    case Latest =>
      BaseIsFinalSegment(urlPath, LatestName);
      var base := Base(urlPath);
      ResolveLatest(policy, base, fs.readDir(Join(root, base)))
  }
}
