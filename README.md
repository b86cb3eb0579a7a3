# critterpage request resolution, modelled in Dafny

critterpage is a Gemini server. This project models how it turns one
request into a response, with no I/O:

- **Request reader** (`Requests`). One connection's request line gathers in
  a buffer capped at 1024 characters (the code counts UTF-16 code units).
  When the buffer ends in CRLF it is trimmed and validated. The checks run in a fixed order: the URL parses,
  the scheme is `gemini:`, there is no userinfo, there is no fragment.
- **Hostname alias cache** (`CNames`). This maps the hostname in a
  directory's `CNAME` file to that directory's name. It is rebuilt from
  scratch at most once every 60 seconds.
- **Capsule locator** (`Factory`). A capsule is chosen by hostname alias
  when one is cached. Otherwise it is the text of the URL pathname before
  its first `/`. The capsule exists only when that path under the data
  directory is a directory. The model also refuses the name `..`, which the
  code lets out of the data directory. Refusing `..` alone does not keep
  requests inside the data directory: through the capsule `.`, a request
  path with `..` reaches a sibling directory that the code's prefix guard
  lets through. So the model's `read` also uses a segment-wise guard (see
  "## Findings").
- **Capsule** (`Capsules`, `CapsuleProperties`). This covers:
  - deriving the filesystem path from the request path;
  - the traversal guard: the code's string-prefix test against the
    resolved capsule base, and the corrected segment-wise test that the
    model's `Read` uses;
  - the `index.gmi` fallback;
  - the synthesized directory listing;
  - the status lines a file response starts with.
- **MIME lookup** (`MimeTypes`). The extension table is built from a MIME
  database. The lookup takes a path's extension, lower-cases it and reads
  the table, with `application/octet-stream` as the default. The shared
  instance is built lazily, once.

Supporting modules:

- `Common`: `Option` and `Result`.
- `Text`: the JavaScript string built-ins the code uses: `trim`,
  `toLowerCase`, `startsWith`, `endsWith`, `split('/')` and `join`.
- `Paths`: Node's POSIX `path.join` and `path.resolve`. Both are lexical
  segment folding. The process working directory is the parameter `cwd`.
- `FileSystem`: the filesystem as an immutable snapshot, a map from resolved
  path to file or directory node. `stat`, `access`, `readdir` and
  `createReadStream`'s open are functions over it.

Things the real code gets from outside are parameters:

- the clock: `now`;
- the WHATWG URL parser: a function from string to `Option<Url>`, where
  `None` means `URL.canParse` is false;
- the data directory listing with each directory's `CNAME` read result:
  `Option<seq<DirEntry>>`, where `None` means `readdir` failed;
- the filesystem snapshot;
- the MIME database: a sequence of (type, extensions) entries.

How the code picks a capsule without an alias:

- **Path-mode capsule.** The code selects the capsule with
  `url.pathname.split('/')[0]`. For a URL with a host, such as
  `gemini://host/alice/x.gmi`, the pathname starts with `/`, so that piece is
  `""` and the capsule base is the data directory itself. `Capsule.resolvePath`
  then drops only that empty first piece, so the tenant segment `alice` stays
  in the relative path. The model does exactly this
  (`Factory.LeadingSlashSelectsDataDir`, `Factory.PathModeServesFromDataDir`).
  `gemini://host` has the empty pathname, which also gives `""`.
- **Paths without a leading '/'.** `gemini:` is not a WHATWG special scheme,
  so a URL without `//`, such as `gemini:alice/x.gmi`, has hostname `""` and
  an opaque pathname `alice/x.gmi` that does not start with `/`. It passes
  `validateURL`, and its first piece, `alice`, becomes the capsule directory.
  A first piece `..` leaves the data directory (see "## Findings").
- These files have no request timeout and no link rewriting.

## Model

| member | source | states |
|---|---|---|
| Requests.ValidateURL | src/RequestReader.mjs:31-51 | Emits exactly one event. 'Bad URI' iff the line does not parse. 'Absolute URI Reuired' iff it parses with a protocol other than `gemini:`, even when userinfo or a hash is also present. The userinfo error iff `gemini:` with a non-empty username or password. The hash error iff `gemini:`, no userinfo and a non-empty hash. Success iff all four checks pass, and the success carries the parsed URL. |
| Requests.TooLongLeavesBuffer | src/RequestReader.mjs:20-22 | If buffer length plus chunk length exceeds 1024, the outcome is 'URI Too Long' and the buffer is unchanged. |
| Requests.BufferBounded | src/RequestReader.mjs:4-4 | A buffer within the 1024 cap stays within it after any chunk. |
| Requests.ValidationOnlyOnCrlf | src/RequestReader.mjs:24-28 | For a chunk that fits, an event is emitted iff buffer plus chunk ends in CRLF. Without a CRLF the new buffer is buffer plus chunk. With one it is the trimmed line, which no longer ends in CRLF. |
| Requests.SuccessIff | src/RequestReader.mjs:19-51 | A call emits success iff the chunk fits, the line ends in CRLF, and the trimmed line parses to an acceptable `gemini:` URL. The URL emitted is that parse. |
| Requests.Accept | src/RequestReader.mjs:19-29 | A refusal 'URI Too Long' happens iff the chunk would pass the cap, and then the buffer is kept. No event means the buffer is buffer plus chunk. Any other event means the buffer is the trimmed line. |
| Requests.RequestReader.constructor | src/RequestReader.mjs:10-10 | A new reader has the empty buffer. |
| Requests.RequestReader.AddRequestChunk | src/RequestReader.mjs:19-29 | The new buffer and the event are those of `Accept` on the old buffer. The 1024 cap is preserved. |
| CNames.Alias | src/CNameResolver.mjs:36-38 | An entry's alias is its trimmed, lower-cased CNAME text, and it is never empty. A missing or unreadable CNAME gives none. |
| CNames.Store | src/CNameResolver.mjs:36-40 | Processing one directory never removes a key, and never adds the empty hostname. |
| CNames.CacheFrom | src/CNameResolver.mjs:33-47 | The cache a scan builds never has the empty hostname as a key. Its keys and values are given by `CacheIsLastOwner`. |
| CNames.CapsuleDirsMembers | src/CNameResolver.mjs:29-31 | The scan keeps exactly the directory entries of the listing. |
| CNames.CacheIsLastOwner | src/CNameResolver.mjs:33-47 | The rebuilt cache has a key iff some directory announces it. The key's value is the last such directory in scan order. |
| CNames.LastOwnerIsLast | src/CNameResolver.mjs:33-39 | When two directories carry the same alias, the later one in scan order wins. |
| CNames.LastOwnerIndex | src/CNameResolver.mjs:33-39 | The owner of a cached hostname is a directory carrying that alias, and no later directory carries it. |
| CNames.SkippedEntryChangesNothing | src/CNameResolver.mjs:34-46 | A directory whose CNAME is missing, unreadable or blank contributes nothing and does not stop later directories. |
| CNames.CacheEntriesFromDirectories | src/CNameResolver.mjs:29-40 | Every cache key is non-empty. It is the alias of a directory entry of the current scan, and its value is that entry's name. |
| CNames.CNameResolver.constructor | src/CNameResolver.mjs:7-11 | A new resolver has an empty cache and `nextUpdateAt == 0`. |
| CNames.CNameResolver.MaybeRefresh | src/CNameResolver.mjs:19-48 | Before the deadline, neither cache nor `nextUpdateAt` changes. Otherwise the deadline becomes `now + 60000` and the old contents are cleared. The cache is then exactly what this scan yields, or empty with the deadline still set when the listing fails. The call rejects only in that last case. |
| CNames.CNameResolver.FindCapsuleDir | src/CNameResolver.mjs:13-17 | Refreshes as `MaybeRefresh` does, then returns the cached value for exactly this hostname key, or null. |
| CNames.FirstCallRefreshes | src/CNameResolver.mjs:7-24 | The first call on a fresh resolver at any time from 0 on refreshes. For any hostname, it rejects iff the listing fails, and otherwise answers from the cache this scan builds, or null. |
| Factory.CachedDir | src/CNameResolver.mjs:16-16 | `cache.get(hostname) ?? null`: a result iff the exact key is present, and the result is the directory stored under that key. |
| Factory.SelectCapsuleDir | src/CapsuleFactory.mjs:39-49 | `fromCName` iff the resolver gave a non-empty name, and the directory is then that name. Otherwise the directory is the pathname's text before its first '/' (all of it when there is none). That text contains no '/' and is followed by '/' or the end. |
| Factory.LeadingSlashSelectsDataDir | src/CapsuleFactory.mjs:46-49 | Without an alias, a pathname starting with '/' selects directory "" in path mode. |
| Factory.LocateCapsule | src/CapsuleFactory.mjs:20-33 | A capsule exists iff `join(dataDir, capsuleDir)` is a directory. Its base is that path, its `fromCName` is the choice's, and its absolute base is that path resolved. A failed stat or a non-directory gives Not Found. |
| Factory.LocateCapsuleInside | src/CapsuleFactory.mjs:20-33 | The corrected directory check: a capsule iff the directory is not `..`, has no '/', and is a directory. The capsule is then the one `LocateCapsule` gives, and it lies inside the data directory: its segments extend the data directory's, and its absolute base starts with the resolved data directory. |
| Factory.NameStaysInside | src/CapsuleFactory.mjs:21-21 | `join(dataDir, name)` for a name without '/' other than `..` resolves inside `dataDir`. |
| Factory.DotDotCapsuleEscapesDataDir | src/CapsuleFactory.mjs:14-49 | As written, the request `gemini:../etc/passwd` escapes. Hostname `""` is never cached, so the directory is `..`. With data directory `/data` the capsule is `/`, which is not under `/data`. `../etc/passwd` resolves to `/etc/passwd` and passes its guard. The corrected check refuses it. |
| Factory.DotCapsuleReachesSibling | src/Capsule.mjs:15-21 | As written, the prefix guard can be reached from outside the capsule. Take data directory `/a/b` and the request `gemini:./../<b+e>/f`, with hostname `""` and an opaque pathname. The directory chosen is `.`, which the corrected locator accepts. The path resolves to the sibling `/a/<b+e>/f`, which passes `PassesGuard` but not `PassesGuardInside`. The model's `Read` therefore answers Not Found. |
| Factory.PathModeServesFromDataDir | src/CapsuleFactory.mjs:21-25 | A path-mode capsule for a pathname `/rest` has the resolved data directory as its absolute base. It resolves the request to `resolve(join(base, rest))`. |
| Factory.AliasChoiceIsLastOwner | src/CapsuleFactory.mjs:37-44 | An alias choice after a scan names the last directory, in scan order, whose CNAME names the hostname. |
| Factory.CapsuleFactory.constructor | src/CapsuleFactory.mjs:7-12 | Stores hostname and data directory and creates a fresh resolver for the data directory with an empty cache. |
| Factory.CapsuleFactory.FindCapsuleDir | src/CapsuleFactory.mjs:36-50 | The resolver refreshes as `MaybeRefresh` states. The call rejects iff a due refresh's listing failed. Otherwise the result is `SelectCapsuleDir` of the cached entry for the URL's hostname and the URL's pathname. |
| Factory.CapsuleFactory.FindCapsule | src/CapsuleFactory.mjs:14-34 | Rejects with the scan failure iff a due refresh's listing failed. Otherwise the result is the corrected `LocateCapsuleInside` of the chosen directory: a capsule iff it is a directory and not `..`, else Not Found. For every directory other than `..` this is the code's check. |
| Capsules.DropFirstSegment | src/Capsule.mjs:42-42 | `split('/').slice(1).join('/')`: "" when there is no '/'. Otherwise the path is its first piece, a '/' and the result. |
| Capsules.ResolvePath | src/Capsule.mjs:37-46 | `resolvePath` always gives an absolute path. For an alias capsule it is `resolve(join(basePath, requestedPath))`. In path mode a request path without '/' resolves to the base itself. |
| Capsules.PassesGuard | src/Capsule.mjs:19-19 | Passing the guard means `basePathAbsolute` is a literal prefix of the path. |
| Capsules.PassesGuardInside | src/Capsule.mjs:19-19 | The corrected guard: the prefix test, and the path's segments extend the base's. It implies the code's guard. |
| CapsuleProperties.GuardInsideIsDescent | src/Capsule.mjs:19-19 | For a capsule whose absolute base is its resolved base, a resolved path passes the corrected guard iff it is the base or lies below it, segment by segment. |
| CapsuleProperties.PathModeDropsFirstSegment | src/Capsule.mjs:37-45 | Without an alias, `head/rest` resolves to `resolve(join(base, rest))` and `head` alone to `resolve(join(base, ""))`. |
| CapsuleProperties.NoUpSegmentStaysInside | src/Capsule.mjs:19-45 | In either mode, a request path with no ".." segment resolves to a descendant of the base and passes the corrected guard, and so the code's guard too. |
| CapsuleProperties.SiblingPassesGuard | src/Capsule.mjs:19-19 | The guard is a raw prefix test: `/data/ab` passes the base `/data/a` although it is not below it. |
| CapsuleProperties.ServedPathsPassGuard | src/Capsule.mjs:15-58 | A streamed file, including a directory's `index.gmi`, is `basePathAbsolute` or lies below it segment by segment, and its resolved path starts with `basePathAbsolute`. A listed directory passed the corrected guard. |
| CapsuleProperties.IndexBelow | src/Capsule.mjs:49-49 | `join(dir, 'index.gmi')` lies below `dir` segment by segment, and its resolved path starts with `dir`'s. |
| CapsuleProperties.ResolvedIsFixed | src/Capsule.mjs:45-45 | Resolving an already resolved path changes nothing. |
| Capsules.Read | src/Capsule.mjs:15-35 | Not Found iff the resolved path fails the corrected guard `PassesGuardInside` (the filesystem is not consulted) or cannot be stat'ed. For paths below the base this is the code's prefix guard; see "## Findings". A directory goes to `HandleDirectory`, so its null listing passes through. Anything else goes to `HandleFile`. |
| Capsules.HandleDirectory | src/Capsule.mjs:48-58 | Never Not Found. A readable `index.gmi` is served as a file. Only otherwise is the directory listed, and the result is null iff reading the directory fails too. |
| Capsules.MakeDirectoryListing | src/Capsule.mjs:93-110 | A page iff `readdir` succeeds, and the page is the listing of the entries. Otherwise null. |
| Capsules.Visible | src/Capsule.mjs:99-99 | Keeps exactly the entries that do not start with '.'. |
| Capsules.VisibleAppend | src/Capsule.mjs:98-100 | The filter distributes over concatenation, so readdir order is kept. |
| Capsules.LinkLines | src/Capsule.mjs:98-100 | One `=> name` line per visible entry, in order. The number of link lines equals the number of visible entries. |
| Capsules.ListingShape | src/Capsule.mjs:96-102 | The page is the header `20 text/gemini \r` and, when some entry is visible, '\n' and the link lines joined by '\n'. With no visible entry it is the header alone. |
| CapsuleProperties.LinkLinesHideDotEntries | src/Capsule.mjs:98-100 | For `a.gmi`, `.hidden`, `b.txt` the links are `=> a.gmi`, `=> b.txt`. |
| CapsuleProperties.ListingHidesDotEntries | src/Capsule.mjs:96-102 | That directory's page is `20 text/gemini \r\n=> a.gmi\n=> b.txt`. |
| FileSystem.Open | src/Capsule.mjs:64-64 | A path that cannot be stat'ed fails to open with ENOENT. A readable directory opens, and its first read fails with EISDIR. |
| Capsules.OnOpen | src/Capsule.mjs:81-88 | The 'open' callback appends at most one line to the response and starts piping the file when it writes. It never ends the response. |
| Capsules.OnError | src/Capsule.mjs:66-79 | The 'error' callback appends at most one line, leaves the piping as it was, and the response has ended afterwards. |
| Capsules.HandleFile | src/Capsule.mjs:60-91 | One or two status lines. A stream that opens and reads writes `20 <mime>\r\n` and pipes the file. A stream that opens and then fails a read writes `20 <mime>\r\n`, then `51 Not Found <path>\r\n` for ENOENT or `50 Sorry\r\n` otherwise, and ends. A stream that fails to open writes `51 Not Found <path>\r\n` for ENOENT, `50 Sorry\r\n` otherwise, and ends. The MIME type is the corrected lookup `LookupIn`. |
| CapsuleProperties.IndexDirectoryGetsTwoStatusLines | src/Capsule.mjs:48-88 | A directory whose `index.gmi` is a readable directory is answered with `20 <mime>\r\n` and then `50 Sorry\r\n`, and the response ends. |
| Capsules.NothingAfterEnd | src/Capsule.mjs:66-84 | Once the response has ended, neither callback writes anything. |
| MimeTypes.AddExtensionsAt | src/MimeTypesDictionary.mjs:11-13 | After one type's inner loop, each of its extensions maps to that type and every other key keeps its value. |
| MimeTypes.TableLookup | src/MimeTypesDictionary.mjs:6-14 | An extension is in the table iff it is `gmi` or some database entry lists it. Its type is that of the last entry listing it. `gmi` is `text/gemini` unless some entry lists it. |
| MimeTypes.Table | src/MimeTypesDictionary.mjs:6-14 | The built table always holds `gmi`. Its full contents are given by `TableLookup`. |
| MimeTypes.MimeTypesDictionary.constructor | src/MimeTypesDictionary.mjs:5-15 | The nested loops build exactly `Table(db)`. |
| MimeTypes.ExtName | src/MimeTypesDictionary.mjs:24-24 | `path.extname`: "" or a '.' followed by characters that are neither '.' nor '/'. |
| MimeTypes.ExtNameOfName | src/MimeTypesDictionary.mjs:24-24 | In `dir/name`, the last '.' of `name` after its first character starts the extension. |
| MimeTypes.Extension | src/MimeTypesDictionary.mjs:24-24 | The key `lookup` reads contains no '.' and no '/'. |
| MimeTypes.DotfileGetsDefault | src/MimeTypesDictionary.mjs:24-26 | A name whose only '.' is its first character (`.bashrc`) has extension "" and gets `application/octet-stream`. |
| MimeTypes.LookupIn | src/MimeTypesDictionary.mjs:23-26 | Always a string: the table's type for the lower-cased extension without its dot, or `application/octet-stream` when there is none. |
| MimeTypes.ExtNameLower | src/MimeTypesDictionary.mjs:24-24 | The extension of the lower-cased path is the lower-cased extension. |
| MimeTypes.LookupIgnoresCase | src/MimeTypesDictionary.mjs:24-24 | `lookup(toLowerCase(p)) == lookup(p)`, e.g. `A.GMI` and `a.gmi`. |
| MimeTypes.MimeLookup.constructor | src/MimeTypesDictionary.mjs:17-17 | The shared instance starts out null. |
| MimeTypes.MimeLookup.Lookup | src/MimeTypesDictionary.mjs:18-27 | Builds the instance on the first call and reuses it afterwards, so the table is built at most once. The answer is `LookupIn(Table(db), file)`, the corrected lookup. For the extensions `constructor` and `__proto__` it differs from the code, which reads the inherited member (see "## Findings"). |
| MimeTypes.LookupAsWritten | src/MimeTypesDictionary.mjs:26-26 | The lookup as written, over a plain object. It gives a non-string only for the inherited names `constructor` and `__proto__`, and only when the table has no own entry for that name or the name is `__proto__`. |
| MimeTypes.AsWrittenAgreesElsewhere | src/MimeTypesDictionary.mjs:26-26 | The lookup on a plain object agrees with the map lookup except for the inherited names `constructor` and `__proto__`. |
| MimeTypes.ConstructorExtensionIsNotAString | src/MimeTypesDictionary.mjs:26-26 | As written, `notes.constructor` reads the inherited `Object` constructor, not a MIME type. |
| Text.TrimShape | src/RequestReader.mjs:26-26 | `trim()` returns a slice of its argument that has no whitespace at either end, and every character dropped before or after that slice is whitespace. |
| Text.ToLower | src/CNameResolver.mjs:36-36 | `toLowerCase()` keeps the length and lower-cases each character. |
| Text.SplitHead | src/CapsuleFactory.mjs:48-48 | `split('/')[0]` is a prefix of the string. There is a single piece iff the string has no '/', and the string is the first piece, '/', and the rest joined. |
| Text.SplitPieces | src/Capsule.mjs:42-42 | No piece of `split('/')` contains '/'. |
| Text.JoinSplit | src/Capsule.mjs:42-42 | `split('/').join('/')` gives back the string. |
| Text.SplitJoin | src/Capsule.mjs:42-42 | Splitting pieces without '/' that were joined by '/' gives back the pieces. |
| Text.SplitAppend | src/Capsule.mjs:42-42 | Splitting `a/b` gives the pieces of `a` followed by those of `b`. |
| Paths.Normalize | src/Capsule.mjs:38-43 | `path.join`'s normalisation never gives the empty string. |
| Paths.Resolve | src/Capsule.mjs:45-45 | `path.resolve` always gives an absolute path. |
| Paths.SegmentsNormalize | src/Capsule.mjs:38-45 | Normalising before resolving changes nothing: `resolve(normalize(p)) == resolve(p)`. |
| Paths.SegmentsJoin | src/Capsule.mjs:38-45 | `resolve(join(a, b))` is the resolution of the arguments joined by '/'. |
| Paths.SegmentsAppend | src/Capsule.mjs:38-45 | Resolving `base/rest` folds the pieces of `rest` onto the resolved base. |
| Paths.FoldKeepsPrefix | src/Capsule.mjs:38-45 | Folding segments without ".." keeps the base segments as a prefix. |
| Paths.Confluence | src/Capsule.mjs:38-45 | Normalising a relative path first and then resolving it onto a base equals resolving it directly. |
| Paths.SegmentsResolved | src/Capsule.mjs:45-45 | A resolved path does not depend on the working directory, and it resolves to the same segments. |
| Paths.JoinPrefix | src/Capsule.mjs:19-19 | A descendant's resolved string starts with its ancestor's: a descendant passes the prefix guard. |

## Left out

- src/index.mjs is not part of this model. That covers the TLS listener, key loading, environment configuration, socket writes and the status lines it writes for rejected requests. They are I/O plumbing.
- Node streams (`PassThrough`, `createReadStream`, `pipe`, `Readable.from`) are left out. Only the status lines written and the file piped are modelled, not the bytes streamed. A read error after 'open' is modelled as one `readError` outcome per stream.
- The real filesystem calls (`stat`, `access`, `readdir`, `readFile`) are modelled as lookups over an immutable snapshot. Each node records the outcome of each kind of call, so a `stat` that succeeds and an open that then fails can be stated. There is no time between calls, so a change to the filesystem while one request is handled is not modelled.
- WHATWG URL parsing (`URL.canParse`, `URL.parse`) is a foreign library. It is a parameter returning the six fields the code reads.
- The contents of `mime-db` are foreign data. The database is a parameter.
- `Date.now()` is the parameter `now`.
- Concurrency is not modelled. `maybeRefresh` awaits inside its loop, so two connections can interleave. Calls are modelled one after another.
- `console` logging is left out, including the warning for CNAME read errors other than ENOENT. Such errors are skipped just as ENOENT is.
- Request timeouts and link rewriting for path-prefixed tenants are left out. They have no code in these files.
- Paths.Normalize: drops the trailing separator that Node's `path.join` keeps for an argument ending in '/'. Every joined path in the core is resolved or stat'ed afterwards, where a trailing separator changes nothing.
- Paths.Resolve: the working directory is a parameter and is taken as given. Node reads it from the process.
- Text.ToLower: lower-cases only 'A'-'Z', not the full Unicode case mapping of `toLowerCase`.
- Text.TrimShape: whitespace is the ASCII and Unicode space characters listed in `IsJsWhitespace`. Strings are sequences of characters, not UTF-16 code units, so `length` counts characters.
- Requests.Accept: the 1024 cap counts characters of `seq<char>`, not the UTF-16 code units that JavaScript's `length` counts. A request with characters outside the Basic Multilingual Plane can be refused by the code and accepted by the model.
- Requests.RequestReader.AddRequestChunk: the cap counts characters, not UTF-16 code units, as for `Requests.Accept`.
- Requests.RequestReader.AddRequestChunk: the 'error' and 'success' events are returned as values rather than emitted to listeners. A listener that closes the connection is outside the model.
- CNames.CNameResolver.MaybeRefresh: a failed listing of the data directory is returned as `ok == false`. In the code it is a rejected promise, which `findCapsule` propagates outside its try block. The model calls this `ScanFailed`.

## Findings

| source | as written | input that shows it | evidently intended | confidence | as-written member | corrected member |
|---|---|---|---|---|---|---|
| src/CapsuleFactory.mjs:48 | the path-mode capsule directory is the pathname's first piece, joined to the data directory with no check | `gemini:../etc/passwd`: hostname `""`, pathname `../etc/passwd`. The directory is `..`, so with data directory `/data` the capsule is `/`, and `/etc/passwd` passes its guard and is opened and returned by `read` | a capsule directory inside the data directory | not executed | Factory.DotDotCapsuleEscapesDataDir | Factory.LocateCapsuleInside |
| src/Capsule.mjs:19 | `path.startsWith(this.basePathAbsolute)` is a string-prefix test with no segment boundary | data directory `/srv/data` and `gemini:./../data-x/f`: hostname `""`, pathname `./../data-x/f`. The directory is `.`, so the capsule is `/srv/data`. The path resolves to `/srv/data-x/f` and passes the guard | only the base and paths below it pass the guard | not executed | Factory.DotCapsuleReachesSibling | Capsules.PassesGuardInside |
| src/MimeTypesDictionary.mjs:26 | `dictionary[extension] ?? 'application/octet-stream'` reads a plain object, so an extension naming an `Object.prototype` member gets that member, which is not nullish | `notes.constructor` when no database entry lists `constructor`: the result is the `Object` function, written into the status line as `20 function Object() { [native code] }` | the default `application/octet-stream` for every extension the table does not hold | not executed | MimeTypes.ConstructorExtensionIsNotAString | MimeTypes.LookupIn |
