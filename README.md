# otto: a Dafny model of the storage backends, the listing engine and the S3 handlers

otto is an S3-compatible object server written in Python 2 on cyclone/Twisted. It comes as
three servers that share one design:

- the asynchronous package server (`src/lib/__init__.py`) over a distributed backend. That
  backend keeps JSON metadata records in a key/value store and payloads in a blob service;
- `src/otto.py` over a local filesystem backend rooted at `/tmp/s3`;
- the older synchronous `s3server.py` over an earlier copy of the filesystem backend, whose
  mutators are all `pass`.

This project models the core they share.

**Listing engine** (modules `Bisect`, `Listing`, `ListingOrder`). Every `list_objects` seeks
past the marker with `bisect_right` and then to the prefix with `bisect_left`. It then walks
forward, collecting keys until one falls outside the prefix or the page is full, and returns
the last listed key as `Marker`.
- The binary searches are modelled literally, over whatever order the store enumerates.
- The loop is a `method` proved equal to a specification function, `ListSpec`.
- Its properties are lemmas about `ListSpec`. Some hold for any enumeration: page size,
  consecutive keys, and no reserved key. More hold for a sorted one: the exact page, exact
  truncation, and that asking again from the returned marker gives the rest.

**Backends** (classes `RiakStorage.ObjectStorage`, `FsStorage.ObjectStorage`,
`StubFsStorage.ObjectStorage`).
- The distributed backend is a class holding two maps. The metadata map is keyed by
  (bucket, key) and holds creation markers, object records and tombstones. The blob map is
  keyed by location.
- The filesystem backends hold a map from path to node (directory or file).
- Each method states its whole new state, its result and the exceptions it raises (as
  `Err`).

**Renderer** (module `Render`). `render_xml` / `_render_parts` is the same text in all three
servers (`src/lib/__init__.py` lines 31-57, `src/otto.py` lines 31-57, `s3server.py` lines
70-96). The table cites the first copy:
- `Parts` is a pure token function.
- The accumulator functions model appending into the caller's list. A lemma proves the two
  agree.
- Lemmas state which values render, the scalar encodings (including a round trip of the
  timestamp format) and that the output is well nested.

**Requests** (modules `Http`, `Auth`, `LibHandlers`, `OttoHandlers`, `S3ServerHandlers`).
- The `Authorization: AWS key:signature` split of the `Authenticator` decorator.
- The query defaults of a bucket listing.
- The status-code rules of each handler, as methods over the backend object. An exception
  escaping a handler is an `Err` (status 500).

Clocks, the blob service's `Location` and the interpreter size of a body are parameters. So is
the key enumeration of the store or of `os.walk`: its order is free, but its contents are tied to
the backend's state (every key of the bucket, every file name below the bucket directory). The string escaping and tag-name encoding of the
web framework are function parameters.

## Model

| member | source | states |
|---|---|---|
| Bisect.BisectRightSplits | src/lib/storage/RiakObjectStorage.py:90-91 | on sorted keys `bisect_right(keys, marker, lo)` splits `[lo, hi)` into keys `<=` the marker and keys `>` it |
| Bisect.BisectLeftSplits | src/lib/storage/RiakObjectStorage.py:92-93 | on sorted keys `bisect_left(keys, prefix, lo)` splits `[lo, hi)` into keys `<` the prefix and keys `>=` it |
| ListingOrder.StartBounds | src/storage/FsObjectStorage.py:48-54 | the start is never before the `bisect_right(marker)` position, and is 0 when neither marker nor prefix is truthy |
| ListingOrder.StartSplits | src/storage/FsObjectStorage.py:51-54 | on sorted keys no key before the start belongs in the listing, and every key from it on is past a truthy marker and not below the prefix |
| Listing.ListObjects | src/lib/storage/RiakObjectStorage.py:85-121 | the loop returns exactly `ListSpec`. With prefix `None` it raises `TypeError` at the first key it reaches. Otherwise it fails with the first stat failure of a non-terse listing, or returns the page with `Marker` the last accepted key or else the given marker |
| ListingOrder.WalkShape | src/lib/storage/RiakObjectStorage.py:96-102 | for any enumeration the walk takes at most `max_keys` keys, exactly that many when truncated, only keys inside the prefix and never `__CreationDate__`, and consecutive keys, stopping at the end, at a key outside the prefix, or (truncated) at one more key inside it |
| ListingOrder.DescribeEntries | src/lib/storage/RiakObjectStorage.py:103-110 | describing succeeds iff the listing is terse or every stat succeeds; then one entry per key in order; otherwise the first failing stat's error |
| ListingOrder.ListingShape | src/storage/FsObjectStorage.py:56-80 | every successful listing echoes name, prefix and `MaxKeys`, is bounded by `max_keys`, lists only prefix keys, describes each by its stat, returns `Marker` = last listed key or the given marker, and takes consecutive keys from the start |
| ListingOrder.NoPrefixListsNothing | src/lib/storage/RiakObjectStorage.py:85-99 | with the default prefix `None` a listing either raises `TypeError` or is empty and not truncated |
| ListingOrder.WalkTakesMatches | src/lib/storage/RiakObjectStorage.py:96-102 | on sorted keys past the marker and not below the prefix, the walk takes the first `max_keys` matching keys and is truncated iff more match |
| ListingOrder.SortedPage | src/lib/storage/RiakObjectStorage.py:90-102 | on sorted keys the walk from the bisected start is exactly the first `max_keys` keys past a truthy marker, inside the prefix and not reserved, truncated iff more exist |
| ListingOrder.SortedListing | src/lib/storage/RiakObjectStorage.py:90-121 | on sorted keys a successful listing's keys are the first `max_keys` matches, each above a truthy marker, at least the prefix and inside it, and `IsTruncated` says exactly whether more match |
| ListingOrder.MatchingIncreasing | src/lib/storage/RiakObjectStorage.py:96-112 | on strictly sorted keys the matching keys are strictly increasing |
| ListingOrder.ResumeAfter | src/lib/storage/RiakObjectStorage.py:90-91 | on strictly sorted non-empty keys, taking the n-th match as marker leaves exactly the matches after it |
| ListingOrder.NextPage | src/lib/storage/RiakObjectStorage.py:112-121 | pagination: listing again from the `Marker` a page returned gives exactly the matching keys that page did not reach |
| ListingOrder.EmptyPrefixTakesAll | src/storage/FsObjectStorage.py:57-62 | with prefix `""` the walk never stops early: it takes the first `max_keys` keys from the start and is truncated iff more remain |
| ListingOrder.EverythingListed | src/lib/storage/RiakObjectStorage.py:91-110 | listing everything (no marker, prefix `""`) of an enumeration holding a key not passed over shows at least one entry when it succeeds, and succeeds when every such key stats |
| Text.PastPrefixRun | src/lib/storage/RiakObjectStorage.py:98-99 | once a key at or above the prefix does not start with it, every key starting with the prefix sorts before it |
| Text.PrefixRunIsContiguous | src/lib/storage/RiakObjectStorage.py:98-99 | keys starting with the prefix form one contiguous run in string order |
| RiakStorage.ObjectStorage.constructor | src/lib/storage/RiakObjectStorage.py:14-17 | a new storage object sees empty metadata and blob stores |
| RiakStorage.ObjectStorage.IsBucket | src/lib/storage/RiakObjectStorage.py:25-41 | `is_bucket(b)` holds iff `b` is listed and holds `__CreationDate__`; with a truthy object name iff the key `"b/o"` exists in `b` |
| RiakStorage.ObjectStorage.IsObject | src/lib/storage/RiakObjectStorage.py:44-50 | the stored record when the key exists, else `False` |
| RiakStorage.ObjectStorage.ListBuckets | src/lib/storage/RiakObjectStorage.py:52-66 | over the store's own bucket enumeration, the loop returns `BucketList`: the non-private buckets holding a creation marker, in enumeration order, and a name is shown iff it is not private and holds a marker |
| RiakStorage.CreatedBucketListed | src/lib/storage/RiakObjectStorage.py:53-74 | after `create_bucket(b)` a successful `list_buckets` over the store's enumeration shows `b` with its new date, unless `b` is private |
| RiakStorage.BucketListShows | src/lib/storage/RiakObjectStorage.py:53-66 | a successful bucket list shows exactly the visible names, in order, each dated by its marker, none of them `luwak_node` or `deleted_files` |
| RiakStorage.VisibleMembers | src/lib/storage/RiakObjectStorage.py:56-61 | a name is shown iff it is enumerated, not private and holds `__CreationDate__` |
| RiakStorage.ObjectStorage.BucketListFails | src/lib/storage/RiakObjectStorage.py:60-64 | a `__CreationDate__` that is not a number makes `float()` raise, and the whole listing raises |
| RiakStorage.ObjectStorage.CreateBucket | src/lib/storage/RiakObjectStorage.py:68-74 | stores a creation marker dated `now`, changes nothing else, and afterwards `is_bucket(b)` holds |
| RiakStorage.ObjectStorage.DeleteBucket | src/lib/storage/RiakObjectStorage.py:76-82 | answers whether `__CreationDate__` existed, removes only that key, and afterwards `is_bucket(b)` is false |
| RiakStorage.ReservedHasNoPathWord | src/lib/storage/RiakObjectStorage.py:194 | the name `__CreationDate__` does not contain `ObjectPath`, so deleting the marker never deletes a blob |
| RiakStorage.ObjectStorage.ListObjects | src/lib/storage/RiakObjectStorage.py:84-121 | the shared listing over `list_keys()`, which enumerates exactly the bucket's keys, with the reserved key passed over; never lists `__CreationDate__` and never more than `max_keys` entries |
| RiakStorage.ObjectStorage.StatObject | src/lib/storage/RiakObjectStorage.py:123-137 | `False` iff the key is missing; dates and size iff it holds an object record; a marker or tombstone raises |
| RiakStorage.ObjectStorage.ReadObject | src/lib/storage/RiakObjectStorage.py:139-145 | a successful read returns the blob at the record's `ObjectPath` |
| RiakStorage.ObjectStorage.WriteObject | src/lib/storage/RiakObjectStorage.py:147-186 | posts the blob under `Location` and stores the record, keeping an old `CreationDate`. On overwrite only, it records a `deleted_objects` tombstone under the old path's last segment with `FromBucket` and deletes the old blob. A marker or tombstone under the key raises. Afterwards reading gives the content back (unless the new location or tombstone collides with the written key) |
| RiakStorage.ObjectStorage.DeleteObject | src/lib/storage/RiakObjectStorage.py:188-201 | answers whether the key existed and removes it. The old blob is deleted only when the object name contains `ObjectPath` |
| Text.LastSegmentIsSuffix | src/lib/storage/RiakObjectStorage.py:178 | `path.split('/')[-1]` is the slash-free suffix after the last `/` |
| Text.ContainsAt | src/lib/storage/RiakObjectStorage.py:194 | `t in s` holds iff `t` occurs at some index of `s` |
| FsStorage.ObjectPathInBucket | src/storage/FsObjectStorage.py:11-14 | for a plain bucket name and relative object names, `os.path.join` puts an object's path inside its bucket directory, different from it, and distinct names give distinct paths |
| FsStorage.BucketPathOfPlainName | src/storage/FsObjectStorage.py:14 | a plain bucket name's directory is `/tmp/s3/<name>` |
| FsStorage.AbsoluteObjectNameEscapes | src/storage/FsObjectStorage.py:12-13 | an object name starting with `/` discards the root and the bucket: the path is the name itself |
| FsStorage.ObjectStorage.constructor | src/storage/FsObjectStorage.py:7-9 | a new storage object over an empty root |
| FsStorage.ObjectStorage.IsBucket | src/storage/FsObjectStorage.py:16-19 | true iff the path is a directory |
| FsStorage.ObjectAnswer | src/storage/FsObjectStorage.py:21-23 | `True` iff the path is a regular file, else `None`, never `False`; both filesystem backends' `is_object` answer this (storage/FsObjectStorage.py:21-23 is the same text) |
| FsStorage.ObjectStorage.ListBuckets | src/storage/FsObjectStorage.py:25-32 | the loop returns `BucketList`: one entry per directory entry, in listing order; over the root's own entries it always succeeds |
| FsStorage.CreatedBucketListed | src/storage/FsObjectStorage.py:25-38 | once `create_bucket(b)` made the directory, `list_buckets` over the root's entries succeeds and shows `b` dated by its creation time |
| FsStorage.BucketListOnePerName | src/storage/FsObjectStorage.py:25-32 | the listing succeeds iff every name stats, and then holds exactly one entry per name, in order, dated by its ctime |
| FsStorage.BucketListFails | src/storage/FsObjectStorage.py:27-30 | a name whose `os.stat` raises makes the whole listing raise; the older backend's loop (storage/FsObjectStorage.py:27-28) relies on it too |
| FsStorage.ObjectStorage.CreateBucket | src/storage/FsObjectStorage.py:34-38 | no-op on an existing directory, raises over a file, else creates the directory; afterwards `is_bucket` |
| FsStorage.ObjectStorage.DeleteBucket | src/storage/FsObjectStorage.py:40-44 | no-op when absent, raises on a non-empty directory, else removes it; afterwards not `is_bucket` |
| FsStorage.WalkedFilesNonEmpty | src/storage/FsObjectStorage.py:50 | the walk of a bucket yields some name iff a regular file lies below the bucket directory |
| FsStorage.ObjectStorage.ListObjects | src/storage/FsObjectStorage.py:46-80 | the shared listing over `os.walk`'s file names (the last segment of every file below the bucket directory), with entries described by `os.stat`; at most `max_keys` entries and `Marker` the last listed key or else the given marker |
| FsStorage.ObjectStorage.StatObject | src/storage/FsObjectStorage.py:82-88 | raises iff nothing is at the path; for a file its mtime, ctime and size |
| FsStorage.ObjectStorage.ReadObject | src/storage/FsObjectStorage.py:90-91 | succeeds iff the path is a regular file, and returns its contents |
| FsStorage.ObjectStorage.WriteObject | src/storage/FsObjectStorage.py:93-95 | replaces the whole file when it can be opened for writing, else raises `IOError`; afterwards reading returns exactly the content |
| FsStorage.ObjectStorage.DeleteObject | src/storage/FsObjectStorage.py:97-101 | unlinks a regular file and otherwise changes nothing; afterwards `is_object` is `None` |
| StubFsStorage.ObjectStorage.constructor | storage/FsObjectStorage.py:7-9 | a new storage object over an empty root |
| StubFsStorage.ObjectStorage.IsBucket | storage/FsObjectStorage.py:16-19 | one argument only; true iff the bucket directory exists |
| StubFsStorage.ObjectStorage.ListBuckets | storage/FsObjectStorage.py:25-33 | exactly one entry per root directory entry, in listing order, or the `os.stat` error; over the root's own entries it always succeeds |
| StubFsStorage.ObjectStorage.StatPath | storage/FsObjectStorage.py:28 | `os.stat(p).st_ctime` exists iff something is at `p`, and is its ctime |
| StubFsStorage.ObjectStorage.CreateBucket | storage/FsObjectStorage.py:35-36 | leaves the filesystem unchanged |
| StubFsStorage.ObjectStorage.DeleteBucket | storage/FsObjectStorage.py:38-39 | leaves the filesystem unchanged |
| StubFsStorage.ObjectStorage.WriteObject | storage/FsObjectStorage.py:70-71 | leaves the filesystem unchanged |
| StubFsStorage.ObjectStorage.DeleteObject | storage/FsObjectStorage.py:73-74 | leaves the filesystem unchanged |
| StubFsStorage.ObjectStorage.ListObjects | storage/FsObjectStorage.py:41-68 | a terse listing is the shared engine's: at most `max_keys` entries and `Marker` the last listed key or the given marker. A non-terse listing that accepts a key raises `NameError` |
| Render.FixedValue | src/lib/__init__.py:47 | a zero-padded `w`-digit field reads back as its number |
| Render.TimeRoundTrip | src/lib/__init__.py:46-47 | `strftime` raises iff the year is before 1900; otherwise the 24-character `%Y-%m-%dT%H:%M:%S.000Z` text parses back to the same time |
| Text.IntToStringRoundTrip | src/lib/__init__.py:44-45 | `int(str(i)) == i` |
| Render.ScalarEncodings | src/lib/__init__.py:42-45 | a string renders as its escape, an int as one chunk that reads back to it, a bool as `True`/`False` |
| Render.RenderableExactly | src/lib/__init__.py:41-57 | rendering raises exactly on `None`, floats, lists outside a dict member, nested lists, and datetimes before 1900 |
| Render.NonListIsSingleton | src/lib/__init__.py:50-52 | a non-list member renders as the one-element list holding it; an empty list renders as nothing |
| Render.ItemsSplit | src/lib/__init__.py:52-55 | a list member renders as its elements' `<name>…</name>` pairs one after another |
| Render.EntriesSplit | src/lib/__init__.py:49-55 | a dict renders as its entries' renderings one after another |
| Render.PartsIntoAppends | src/lib/__init__.py:41-57 | rendering into the caller's `parts` list leaves what was there followed by the value's parts |
| Render.PartsNested | src/lib/__init__.py:53-55 | every open tag is closed by the matching close tag after its child: the output is well nested |
| Render.RenderXml | src/lib/__init__.py:31-39 | the `assert` fails unless the value is a one-entry dict; the body renders iff that entry's value is renderable |
| Render.DocumentShape | src/lib/__init__.py:34-39 | the document is the declaration, the root tag with the fixed namespace, the well-nested body parts and the root's close tag |
| Render.DocumentCloses | src/lib/__init__.py:38-39 | the root close tag is the last part joined |
| Auth.WordsAreWords | src/lib/__init__.py:74 | `split()` gives non-empty words without whitespace |
| Auth.WordsOfUnwords | src/lib/__init__.py:74 | `' '.join` of such words splits back into the same words |
| Auth.SplitColonExactly | src/lib/__init__.py:76 | `split(":", 1)` into two names fails iff there is no colon, and gives `(key, sig)` iff the data is `key:sig` with no colon in `key` |
| Auth.ParseAuthorization | src/lib/__init__.py:71-76 | the check passes iff the header exists, has exactly two words, the first `AWS`, the second holding a colon; a missing header is `KeyError` |
| Auth.Authenticate | src/lib/__init__.py:65-66 | every key and signature is accepted |
| Auth.Authenticator | src/lib/__init__.py:68-88 | corrected: the wrapped handler runs iff the header check passes, with exactly the key and signature the header splits into; otherwise the challenge |
| Auth.SignedHeaderProceeds | src/lib/__init__.py:71-87 | `AWS key:sig` from a signing client lets the request through with exactly that key and signature |
| Auth.FailedCheckRaises | src/lib/__init__.py:78-84 | every failed check raises `NameError` in the decorator as written, where the intended one challenges |
| Auth.MissingHeaderRaisesNameError | src/lib/__init__.py:72 | a request without `Authorization` raises `NameError` as written |
| Http.IntArgument | src/lib/__init__.py:107-108 | the default when the argument is absent; otherwise succeeds iff the text is an ASCII digit run with an optional `-` or `+` sign, as `int()` accepts it |
| Http.PlusSignedMaxKeys | src/lib/__init__.py:107 | `?max-keys=+5` reads as five keys, with the other defaults |
| Http.ReadListingQuery | src/lib/__init__.py:105-108 | defaults `prefix = ""`, `marker = ""`, `max-keys = 50000`, not terse; fails iff an integer argument is malformed |
| Http.ListingRenderable | src/lib/__init__.py:113 | a listing renders iff its prefix and marker are strings and no timestamp is before 1900 |
| Http.ListingResponse | src/lib/__init__.py:112-113 | a listing failure propagates; otherwise 200 with XML iff the listing renders |
| Http.NoPrefixListsNothingFrom | src/lib/__init__.py:133-135 | the deleting listing (prefix `None`) raises `TypeError` once it reaches a key other than the marker, and is empty otherwise |
| Http.NonEmptyBucketDelete | src/lib/__init__.py:133-135 | for a bucket holding `a`, the listing as written raises while the listing with prefix `""` shows one entry |
| LibHandlers.GetBucket | src/lib/__init__.py:103-113 | a bad integer argument is a 500, a missing bucket 404, else the rendered listing with the query's values |
| LibHandlers.PutBucket | src/lib/__init__.py:115-124 | corrected: 401 on a failed check, 403 when the bucket exists, else 200 with a new creation marker |
| LibHandlers.PutBucketAsWritten | src/lib/__init__.py:115-124 | as written: a failed check is the decorator's `NameError` (a 500) with the store unchanged; a passing one gives 403 when the bucket exists, else 200 with a new creation marker |
| LibHandlers.DeleteBucket | src/lib/__init__.py:126-138 | corrected: 404 when absent, the listing's error, 403 when the listing shows a key, else 204 and the marker is removed. A bucket holding a key besides its marker is never deleted (a 500 or the 403), and it is the 403 when every such key holds an object record |
| LibHandlers.DeleteBucketAsWritten | src/lib/__init__.py:126-138 | as written: 404 when absent, 500 when any key besides the marker exists, else 204; never 403 |
| LibHandlers.GetObject | src/lib/__init__.py:141-153 | 404 when the key is missing, a stat or read failure is a 500, else 200 with the blob at the record's path |
| LibHandlers.PutObject | src/lib/__init__.py:155-170 | 404 when the bucket is missing, 403 when `"b/o"` exists, else 200 and the content reads back |
| LibHandlers.DeleteObject | src/lib/__init__.py:172-182 | 404 when the key is missing, else 204 and the key is gone |
| OttoHandlers.GetBucket | src/otto.py:72-82 | a bad integer argument is a 500, a missing bucket 404, else the rendered listing of the bucket's files |
| OttoHandlers.PutBucket | src/otto.py:84-92 | 403 when the directory exists, 500 when a file is in the way, else 200 and the directory exists |
| OttoHandlers.DeleteBucket | src/otto.py:94-106 | corrected: 404 when absent, 403 when the listing shows a file, 500 when `rmdir` fails, else 204 and the directory is gone. A bucket with a file below it is never removed (a 500 or the 403), and it is the 403 when every walked name stats in the bucket directory |
| OttoHandlers.DeleteBucketAsWritten | src/otto.py:94-106 | as written: any file below the bucket makes it a 500, an empty bucket is 204 or a 500 from `rmdir`; never 403 |
| OttoHandlers.GetObject | src/otto.py:109-121 | 404 unless the path is a regular file, else 200 with its contents |
| OttoHandlers.PutObject | src/otto.py:123-134 | 404 when the bucket is missing, 403 when the object path is a directory, else 200 with the file replaced, or a 500 when it cannot be opened |
| OttoHandlers.DeleteObject | src/otto.py:136-146 | 404 unless a regular file is there, else 204 and it is unlinked |
| S3ServerHandlers.ObjectFileOfPlainNames | s3server.py:98-99 | for plain names the object file is `directory/bucket/object`, below the directory and ending in the object name |
| S3ServerHandlers.AbsoluteNameEscapes | s3server.py:98-99 | an object name starting with `/` discards the directory and the bucket |
| S3ServerHandlers.GetBucket | s3server.py:109-117 | 404 when the bucket is missing, else the rendered listing, a 500 once a non-terse listing reaches a key |
| S3ServerHandlers.PutBucket | s3server.py:119-124 | 403 when the bucket exists, else 200, and the bucket still does not exist |
| S3ServerHandlers.DeleteBucket | s3server.py:126-134 | 404 when absent, 500 when any file lies below the bucket directory, else 204 |
| S3ServerHandlers.GetObject | s3server.py:137-144 | 404 unless a regular file is there, else a 500 from the missing `stat_object` |
| S3ServerHandlers.PutObject | s3server.py:146-154 | 404 when the bucket is missing, else a 500 from the two-argument `is_bucket` call |
| S3ServerHandlers.DeleteObject | s3server.py:156-163 | 404 unless a regular file is there, else 204 with the file left in place |

## Left out

- Twisted Deferreds and `yield` sequencing are left out. Storage calls are ordinary sequential calls. The mutators the package server fires without waiting are taken to complete before the response; their exceptions never reach the handler.
- The key/value store, the blob service's HTTP calls and filesystem syscalls are replaced by maps held by the storage objects.
- The key enumeration of `bucket.list_keys()`, `riak_client.list_buckets()`, `os.listdir` and `os.walk` is a parameter whose order is not modelled. Its contents are tied to the state: `KeysOfBucket`, `BucketsOfStore`, `WalkedFiles` and `RootEntries` say which names it holds. `os.walk` is taken to yield basenames only.
- JSON encoding of metadata records is replaced by the `Record` datatype.
- Timestamps are `int` parameters. This covers `time.mktime`, `datetime.now`, `fromtimestamp`/`utcfromtimestamp` with their floats, microseconds and local-time conversion, and the day-of-month validity of a calendar date.
- `sys.getsizeof(content)` is the `size` parameter, not a byte length.
- `escape.xhtml_escape` and `escape.utf8` are uninterpreted parameters. `urllib.unquote`, the MD5 `ETag`, and the `Content-Type`, `Last-Modified` and `WWW-Authenticate` headers are left out.
- Python 2 dict iteration order is not modelled. Dicts are sequences of entries, and nothing is claimed about entry order in the rendered output.
- `RootHandler` is left out; it renders `list_buckets` through the modelled renderer. The routing regexes, `finish`/`set_status`, the redis authorisation pool, dynamic backend loading and logging are left out too.
- S3ServerHandlers.ObjectFile: `os.path.abspath` normalisation (`..`, `.`, repeated slashes) is not modelled, so the lemmas about it hold for the joined path only.
- FsStorage.ObjectPath: joins with the same `os.path.join` as S3ServerHandlers.ObjectFile; `abspath` normalisation is not modelled.
- FsStorage.ObjectPathInBucket: holds only for a plain bucket name and relative object names. In the source an object name starting with `/` leaves the bucket, as FsStorage.AbsoluteObjectNameEscapes states; such a name arrives through a route such as `/b//etc/x` or through the unquoting of `%2Fetc%2Fx`. Names with `..` also leave it after `abspath`, which is not modelled.
- FsStorage.ObjectStorage.ListBuckets and StubFsStorage.ObjectStorage.ListBuckets: over the root's own entries every `os.stat` succeeds in the model, which has no symbolic links and no concurrent removal. The error path stays for any other enumeration.
- LibHandlers.PutObject: states the status codes and that the content reads back. The whole new state is left to RiakStorage.ObjectStorage.WriteObject, whose contract this handler's call relies on.
- LibHandlers.DeleteObject: states the status codes and that the key is gone (unless the name contains `ObjectPath` and the key is a creation marker, where the fired delete raises). The whole new state is left to RiakStorage.ObjectStorage.DeleteObject.
- S3ServerHandlers.DeleteBucket: modelled as written only. The stub backend's listing raises on any file whichever prefix is given, so no corrected version is given.
- The tombstone bucket is `deleted_objects` while the private list names `deleted_files`. The model keeps both as written; `list_buckets` hides the tombstone bucket only because it never gets a creation marker.
- The Authenticator's `auth_type` would be unbound when the header value is `None`. A header value is never `None`, so that path is not modelled.
- Http.IntArgument: Python 2 `int()` on a unicode argument also accepts Unicode decimal digits (Arabic-Indic, full-width and the like) and surrounding whitespace; the model accepts ASCII digits with an optional sign only. `query` holds, for each argument, the value `get_argument` returns: the last one given, with surrounding whitespace already stripped. The same holds for `prefix` and `marker`.
- Listing.ListObjects and Text.Lt: keys and query values are one string type. Python 2 keeps byte strings and unicode apart, and a key holding non-ASCII bytes compared with a unicode prefix or marker (`startswith`, the `bisect` comparisons) raises `UnicodeDecodeError`; that error is not modelled, nor is the coercion of ASCII byte strings.
- LibHandlers.PutBucket and Auth.Authenticator: model the decorator as intended, answering 401. As written, every failed check is a `NameError`; LibHandlers.PutBucketAsWritten and Auth.AuthenticatorAsWritten model that.
- RiakStorage.ObjectStorage.ReadObject: a record whose `ObjectPath` the blob service does not hold is taken to fail (`BlobMissing`). The source returns whatever body `httpclient.fetch` yields for that location, which depends on the blob service.
- FsStorage.StatInfo: a directory entry records only its creation time, so a directory's stat reports that as its `st_mtime` and 0 as its `st_size`; the operating system reports its own values for both. FsStorage.ObjectStorage.StatObject does the same for a directory.
- `src/storage/RiakObjectStorage.py` and `setup.py` are not part of this model.

## Findings

| source | as written | input that shows it | evidently intended | confidence | as-written member | corrected member |
|---|---|---|---|---|---|---|
| src/lib/__init__.py:78-84 | the `except` branch raises `cyclone.web.HTTPAuthenticationRequired`, but the module binds only `web`, so every failed check raises `NameError` (a 500) | a request with no `Authorization` header (`Auth.MissingHeaderRaisesNameError`) | answer 401 with the `AWS` authentication challenge | not executed | Auth.AuthenticatorAsWritten | Auth.Authenticator |
| src/lib/__init__.py:133 | `list_objects(bucket_name)` passes prefix `None`, so `startswith(None)` raises on the first key besides the marker: deleting a non-empty bucket is a 500 and the 403 is unreachable | a bucket holding `__CreationDate__` and `a` (`Http.NonEmptyBucketDelete`) | list every key (prefix `""`) and answer 403 | not executed | LibHandlers.DeleteBucketAsWritten | LibHandlers.DeleteBucket |
| src/otto.py:101 | the same call with prefix `None` over the filesystem backend: any file makes the delete a 500 and the 403 is unreachable | a bucket directory holding one file (`Http.NoPrefixListsNothingFrom`) | list every file (prefix `""`) and answer 403 | not executed | OttoHandlers.DeleteBucketAsWritten | OttoHandlers.DeleteBucket |
