# latest-artifact: the request handler, modelled in Dafny

The artifacts server answers HTTP requests below a serving root. A `GET`
on a path ending in `.tar.gz` streams that file. A `GET` on a path whose
base name is `latest` lists a directory and picks one entry by
modification time. It then answers `303 See Other`, passing
`latest/<name>` to `http.Redirect` as the location. Any
other request is refused with a status code. All of this logic sits in
the single handler closure in `main.go`.

The model has four modules:

- `Paths` (`paths.dfy`) models Go's `path.Base` and `strings.HasSuffix`,
  plus the join of a directory with a name. It proves that the base name of a path that ends in
  a segment is that segment. So `Base(p) == "latest"` holds exactly when
  `p` is `latest` or ends in `/latest`.
- `Selection` (`selection.dfy`) models the loop that picks the entry.
  `SelectIndex` is the loop statement for statement, and `LastAfterZero`
  is the same choice as a function. Both are characterised by
  `IsLastAfterZero`. `SelectNewest` and `NewestIndex` are the corrected
  selection (see Findings), characterised by `IsFirstNewest`.
- `Handler` (`handler.dfy`) models the handler. `Classify` makes the
  decision from the method and the path alone. `Transfer` answers a direct
  file request. `ResolveLatest` answers a `latest` request. `Handle` puts
  them together. The file system is a parameter with two parts. `open`
  gives the outcome of opening and reading a path. `readDir` gives the
  outcome of listing a directory. `Handle` also takes a `Policy`:
  `AsWritten` uses the loop as the code writes it, and `Intended` uses
  the corrected selection.
- `Scenarios` (`scenarios.dfy`) holds properties that relate several
  requests or file systems, plus concrete requests worked through end to
  end.

Modelling choices:

- A modification time is an `int`. Go's zero `time.Time` is `0`, and
  `t.After(u)` is `t > u`.
- The listing is taken in the order it is given. Go's `ioutil.ReadDir`
  returns entries sorted by file name, so "last" in the listing means last
  in name order.
- `Join(a, b)` puts exactly one `/` between `a` and `b`. It is `a + b`
  when `b` already starts with `/`, as a request's URL path does, and
  `a + "/" + b` otherwise. So `Join("/srv", "/builds/x.tar.gz")` is
  `/srv/builds/x.tar.gz`, as with `filepath.Join`. Go's joins also clean
  the result further. That extra cleaning changes nothing in these cases:
  a non-empty, clean root that does not end in `/` (so not `""` and not
  `.`), a clean URL path (Go's request
  multiplexer redirects unclean paths before the handler runs), and the
  plain names a listing returns.

Where the code and its own description disagree, the model follows the
code:

- **Which entry is chosen.** The comments (main.go:88-89) and the usage
  text (main.go:133-135) say "the most recently modified" file. The loop
  at main.go:102-110 never updates its baseline `t`. So it keeps the
  *last* entry whose time is after the zero time, or entry 0 if none is.
  Ties are not broken by "first wins" either: the last entry after zero
  wins, whatever its time. In practice every real file's time is after
  Go's zero time (year 1), and `ioutil.ReadDir` sorts entries by name. So
  the loop as written always picks the last entry in name order.
- **Which directory is listed.** main.go:90 lists
  `Join(root, Base(urlPath))`. Past the check at main.go:61, the base is always `latest`,
  so every `latest` request lists `root/latest`, whatever its parent
  directory is. The location passed to `http.Redirect` is always
  `latest/<name>`. For example,
  `GET /builds/latest` never looks at `root/builds`
  (`Scenarios.BuildsLatestListsRootLatest`).

## Model

| member | source | states |
|---|---|---|
| `Paths.Base` | main.go:61 | The base name is never empty and is `.` for the empty path. For a path that ends in a segment, the base name is the path's last element: a separator-free suffix that starts at the path's start or right after a `/`. |
| `Paths.HasSuffixIsConcatenation` | main.go:62 | `HasSuffix(s, suffix)`, Go's `strings.HasSuffix`, holds exactly when `s` is some string followed by `suffix`. |
| `Paths.Join` | main.go:67 | The result is the directory, then exactly one `/`, then the name. A name that starts with `/` supplies that separator itself, and any other name follows a new `/`. |
| `Paths.JoinDropsLeadingSeparator` | main.go:67 | Joining a name, or the same name with a leading `/`, gives the same path `dir/name`. The separator is never doubled. A request's URL path at main.go:67 starts with `/`, and the entry name joined at main.go:112 does not; both get one separator. |
| `Paths.BaseIsFinalSegment` | main.go:61 | For a path that is non-empty and does not end in `/`, `Base(p) == name` holds exactly when `p` is `name` or ends in `/name`, for any non-empty name without `/`. |
| `Handler.Classify` | main.go:43-65 | The checks run in order. A non-GET method gives MethodNotAllowed, whatever the path. Otherwise: EmptyPath exactly for the empty path; TrailingSlash exactly for a non-empty path ending in `/`; Latest exactly for a path that is `latest` or ends in `/latest`; DirectFile(urlPath) exactly when the path ends in `.tar.gz`; NotTarArchive for every other path. Each case holds in both directions. |
| `Handler.Transfer` | main.go:67-85 | A missing file gives 404 "Not Found". Any other open error gives 500 with the error text, and so does a failed read. A direct file request is never redirected. It yields content exactly when the file opens and is read in full. The content type is then `application/x-gtar-compressed` and the body is the file's bytes. |
| `Handler.ResolveLatest` | main.go:91-113 | A listing error gives 500 with the error text. An empty listing gives 404 "Directory Is Empty". A non-empty listing gives 303 to `<base>/<name>` of an entry in the listing. As written, that entry is the last one with a time after zero. Under the corrected policy, and when some time is after zero, it is the first newest entry. |
| `Handler.Handle` | main.go:40-114 | A non-GET request gives 405. The empty path, a trailing slash and a non-archive path give 422, each with its own text. A `.tar.gz` path gives the outcome of opening `Join(root, urlPath)`: the root, one `/`, then the path. A path that is `latest` or ends in `/latest` is answered from the listing of `root/latest`, with base `latest`, whatever its directory part. |
| `Selection.LastAfterZero` | main.go:102-110 | The index the loop keeps satisfies `IsLastAfterZero`. It is the greatest index whose time is after the zero time, or 0 when no entry has such a time. It is in range for a non-empty listing. |
| `Selection.SelectIndex` | main.go:102-110 | The loop as written: `k` and `t` start at zero and `t` is never reassigned. Its result satisfies `IsLastAfterZero`, so the redirect names a real entry of a non-empty listing. |
| `Selection.NewestState` | main.go:88-89 | The corrected loop's state after a scan. If no time is after zero, the state is index 0 with the zero baseline. Otherwise the index is the first entry with the greatest time, and the baseline equals that entry's time. |
| `Selection.NewestIndex` | main.go:88-89 | The corrected choice is in range for a non-empty listing. It is 0 when no time is after zero. Otherwise it is the most recently modified entry, the first among equal times. |
| `Selection.SelectNewest` | main.go:102-110 | The loop with `t` moved to each kept entry's time. It returns the most recently modified entry, the first among equal times, whenever some entry has a time after zero. |
| `Selection.AsWrittenIsNotNewest` | main.go:102-110 | With times 5, 9, 9, 3 the loop as written keeps index 3 (time 3). The newest entry is index 1, and index 3 is not newest. |
| `Selection.SelectionIgnoresEarlierEntries` | main.go:106-110 | Two listings of equal length that agree from the kept index onward keep the same index. Renaming, re-timing or reordering the entries before it changes nothing. |
| `Selection.SelectionIgnoresNames` | main.go:107 | Listings whose times agree entry by entry select the same index, under both the as-written and the corrected selection. |
| `Scenarios.LatestIgnoresRequestDirectory` | main.go:90 | Any two `latest` paths get the same response. That response is the answer for the listing of `root/latest` with base `latest`. |
| `Scenarios.DirectFileIgnoresListings` | main.go:61-86 | For a `.tar.gz` path, two file systems that agree on opening `root/urlPath` give the same response. No listing is consulted. |
| `Scenarios.RedirectNamesListedEntry` | main.go:97-113 | Every redirect answers a GET of a `latest` path. The listing of `root/latest` succeeded, the status is 303, and the location is `latest/` plus the name of one of its entries. |
| `Scenarios.AsWrittenRedirectTarget` | main.go:102-113 | When some entry has a time after zero, the handler as written redirects to `latest/` plus the name of the last such entry. |
| `Scenarios.IntendedRedirectTarget` | main.go:133-135 | When some entry has a time after zero, the corrected handler redirects to `latest/` plus the name of the most recently modified entry, the first among equal times. |
| `Scenarios.BuildsLatestListsRootLatest` | main.go:90-95 | Suppose only `/srv/builds` exists. Then `GET /builds/latest` gives 500 with the listing error for `/srv/latest`, not a redirect into `builds/`. |
| `Scenarios.LatestRedirectsToLastPositive` | main.go:102-113 | Suppose `/srv/latest` holds `a.tar.gz` (time 2) and `b.tar.gz` (time 1), listed in name order. Then `GET /latest` gives 303 with location `latest/b.tar.gz`, the older file. |
| `Scenarios.LatestRedirectsIntendedToNewest` | main.go:133-135 | On the same directory, the corrected handler gives location `latest/a.tar.gz`, the newer file. |
| `Scenarios.PostIsRefused` | main.go:43-46 | A POST gives 405 "Method Not Allowed" for every path, root and file system. |
| `Scenarios.DirectRequestErrors` | main.go:62-72 | `GET /builds/x.txt` gives 422 "Not a Tar Archive". `GET /builds/x.tar.gz` on a missing file gives 404 "Not Found". |
| `Scenarios.ServesArchiveBelowRoot` | main.go:67-85 | Suppose only `/srv/builds/x.tar.gz` exists. Then `GET /builds/x.tar.gz` with root `/srv` opens it and answers with its bytes and the `application/x-gtar-compressed` content type. |

## Findings

| source | as written | input that shows it | evidently intended | confidence | as-written member | corrected member |
|---|---|---|---|---|---|---|
| main.go:102-110 | The baseline `t` is the zero time and is never reassigned. So the loop keeps the last entry whose time is after the zero time, not the newest one. | Entries with times 5, 9, 9, 3: the loop keeps index 3 (time 3), while the newest entry is index 1. | Redirect to the most recently modified file (main.go:88-89, main.go:133-135), the first on a tie. This needs `t = info.ModTime()` beside `k = i`. | high; not executed | `Selection.AsWrittenIsNotNewest` | `Selection.SelectNewest` |

`Handle(Intended, …)` is the handler with the corrected selection
(`Scenarios.IntendedRedirectTarget`). `Handle(AsWritten, …)` is the
handler as written.

## Left out

- HTTP plumbing is not modelled: `http.HandleFunc`, the exact bytes that `http.Error` and `http.Redirect` write, and `ListenAndServe` (main.go:40, 116-119). A response is modelled as its status with its text, its content, or its location.
- Command-line parsing, `usage()` and the exit with status 2 (main.go:24-33, 122-139) are process start-up, not request handling.
- Logging (main.go:35-37, 41) only has side effects.
- `os.Open`, `io.Copy`, `file.Close` and `ioutil.ReadDir` are foreign calls. They are modelled as the `open` and `readDir` outcomes of the `FileSystem` parameter. `os.IsNotExist` becomes the `NotExist` outcome.
- Handler.Transfer: when `io.Copy` fails after some bytes were already sent, the real client sees a 200 with a truncated body. The model reports 500 with the error text, which is what the code asks for at main.go:80-82.
- Paths.Join: does not clean its result beyond putting one `/` between its parts, as `filepath.Join` and `path.Join` do. It agrees with them for a non-empty, clean root that does not end in `/`, a clean URL path and the plain names a listing returns. It differs for the empty root (Go gives `latest`, the model `/latest`), for a root with `.` or `..` elements such as `.` itself (Go gives `latest`, the model `./latest`), for a root ending in `/`, and, in the URL path, for `.` or `..` elements, doubled separators and an empty name. Go's request multiplexer redirects URL paths with the last three before the handler runs.
- Redirect resolution is left out. The modelled location is the argument passed to `http.Redirect` (main.go:112-113). net/http resolves that relative location against the directory of the request path before it writes the `Location` header. So `GET /latest` is sent `/latest/<name>`, and `GET /builds/latest` is sent `/builds/latest/<name>`. The follow-up request then opens a path below `root/builds/latest`, a directory the handler never listed.
- Go's `time.Time` becomes an `int`, with the zero time as `0`. Monotonic clock readings and time zones play no part in `After`.
- The model does not prove that `ioutil.ReadDir` sorts its listing by name. Listing order is an input.
