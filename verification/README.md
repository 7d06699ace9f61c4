# weedo client core in Dafny

A model of the sequential core of `weedo`, a Go client for a blob store built
from one master (the directory service) and many volume servers. It covers:

- **File ids.** A file is addressed by `"<volume id>,<hex key><8 hex digits of
  cookie>"`. `ParseFid` splits this text by byte position and reads each part
  with the digit and overflow rules of Go's `strconv.ParseUint`.
- **Master-side decisions.**
  - Choosing the replica nearest to a datacenter (`lookupNearestNode`).
  - Deciding the outcome of a volume lookup.
  - Flattening the cluster topology into the url → datacenter cache.
  - Replacing that cache on each refresh tick.
  - Building the query arguments of `AssignN` and `Grow`.
- **Client glue.**
  - `Client.Volume`: parse a file id, then look up its volume.
  - `Client.Filer`: a memoising filer registry.
  - `escapeQuotes`.
  - The header values `createFormFile` sets.

Files:

| file | module | contents |
|---|---|---|
| base.dfy | `GoBase` | Go strings as byte sequences, `Result`/`Option`, the error values, queries and requests |
| strings.dfy | `Strings` | `strings.Split`/`Join`/`Count` for a one-byte separator |
| strconv.dfy | `Strconv` | `ParseUint`, `FormatUint`, zero-padded hex, and Go's 64-bit digit loop |
| fid.dfy | `Fids` | `ParseFid`, the canonical formatting of a file id, and the round trip |
| master.dfy | `MasterOps` | replica choice, lookup outcome, topology flattening, the refresh step, assign/grow arguments |
| weedo.dfy | `Weedo` | the client, its filer registry, `Client.Volume`, quoting, form-file headers |

Modelling choices:

- **Strings.** A Go `string` is a `seq<Byte>` with `Byte = char < 0x100`. Each
  element is one byte, so `len(a[1]) - 8` and the slices around it mean what
  they mean in Go.
- **Numbers.** `uint64` values are unbounded `nat`s with explicit bounds.
  `Strconv.ParseUintMachine` runs Go's loop on 64-bit arithmetic. That means the
  cutoff test `n >= maxUint64/base + 1` and the wrap-around check `n1 < n`, with
  wrap-around written as `% 2^64`. It is proved to return exactly what the
  unbounded `ParseUint` returns.
- **The directory service.** The service is a function parameter
  `dir: Request -> Result<LookupResp, GoString>`, where a `Failure` stands for a
  transport or JSON-decoding error. Each call that talks to the directory returns
  an `Outcome`: its result together with the requests it sent, in order. This is
  how "no lookup is sent" is stated.
- **The cache.** The cache (`volDcMap`) is a `map<GoString, GoString>` read with
  Go's zero-value rule: a missing key reads as `""`.
- **The refresh loop.** The goroutine, ticker, channel and mutex are gone. One
  tick is the pure step `MasterOps.Refresh`, given what the status request
  produced.
- **Filer handles.** The identity of each `*Filer` is an allocation number kept
  in the client. `NewFiler` is not part of this model, so it is an assumption
  that `NewFiler` returns a new `*Filer` on every call (see "Left out").
  `NewFiler`'s url normalisation is a function parameter.
- **Requests.** A request keeps the master's address, the path and the query
  arguments. The `http` scheme is the same for every request, so it is not kept.

Two natural readings of this client differ from what the code does; the model
follows the code:

- **The file id `"7,01637037d6"`.** It can be read as giving cookie `0x37d6`
  and key `0x016370`. The code takes the *last eight* bytes as the
  cookie, so it gives key `0x01` and cookie `0x637037d6`
  (`Fids.ExampleFid`).
- **`dc == ""`.** An empty requested datacenter reads as "no preference", which
  would always fall back to the first location. The code compares
  `m.volDcMap[l.Url] == dc`, and a url missing from the cache reads as `""`. So with `dc == ""`, the first
  *uncached* location is chosen, which need not be the first location
  (`MasterOps.EmptyDcPicksUncached`, `MasterOps.EmptyDcSkipsFirst`). All three
  client callers pass `""` (weedo.go:101, 140, 154).

## Model

| member | source | states |
|---|---|---|
| Fids.ParseFid | weedo.go:77-94 | Fails with "Fid format invalid" unless the text has exactly one comma and a second segment longer than 8 bytes. Succeeds exactly when the volume id reads as decimal below 2^32, the key (all but the last 8 bytes) as hex below 2^64, and the cookie (last 8 bytes) as hex below 2^32; the parts are those values |
| Fids.ParseFidFirstError | weedo.go:82-91 | A well-shaped id that does not parse reports the ParseUint error of the first part that fails, in the order volume id, key, cookie |
| Fids.CookieNeverOverflows | weedo.go:85-91 | The cookie part fails to parse only on a non-hex byte, never by overflow: eight hex digits always fit in 32 bits |
| Fids.ValueBelowPow | weedo.go:89 | A digit string of length n has a value below base^n, which is why the 8-byte cookie is below 2^32 |
| Fids.ParseFormatFid | weedo.go:77-94 | Round trip: for id < 2^32, key < 2^64 and cookie < 2^32, parsing decimal(id) "," hex(key) followed by the 8-digit zero-padded hex cookie gives the same triple |
| Fids.FormatFidSplit | weedo.go:78-79 | A formatted id has exactly one comma, and splitting on it gives the decimal id and the key-cookie segment |
| Fids.FormatFidNumbers | weedo.go:82-91 | Each part of a formatted id reads back as the number it came from, within its bit size; the key and cookie parts are cut at the last 8 bytes |
| Fids.ExampleFid | weedo.go:77-94 | "7,01637037d6" parses to id 7, key 0x01, cookie 0x637037d6 |
| Fids.ParsePaddedExample | weedo.go:77-94 | "007,01637037d6" parses to id 7, key 0x01, cookie 0x637037d6: leading zeros in the volume id are accepted |
| Fids.OneComma | weedo.go:78-79 | Two comma-free segments joined by one comma contain exactly one comma and split back into those two segments |
| Fids.ShortSecondSegment | weedo.go:79-80 | "7,37d6", whose second segment has only 4 bytes, is rejected with "Fid format invalid" |
| Strings.Split | weedo.go:78 | strings.Split on one byte: one more piece than there are separators, no piece contains the separator, and joining the pieces gives the input back |
| Strings.SplitJoin | weedo.go:78 | Splitting a separator-free join gives the parts back, so Split and Join are inverse |
| Strings.SplitTwo | weedo.go:78-79 | a "," b, with no comma in a or b, splits into exactly [a, b] |
| Strconv.ParseUint | weedo.go:82-91 | ParseUint with an explicit base and bit size succeeds exactly on a non-empty digit string whose value is below 2^bitSize, and returns that value. Empty input is a syntax error, an all-digit string that is too large is a range error, and every error names "ParseUint" and the input |
| Strconv.Step | weedo.go:82-91 | One byte of the digit loop is a syntax error exactly when it is not a digit of the base. A digit succeeds exactly when the value so far times the base plus the digit does not exceed the bit-size maximum, returning that value, and is a range error otherwise |
| Strconv.Accumulate | weedo.go:82-91 | The digit loop over a whole string never returns a value above the bit-size maximum; AccumulateSpec states what it accepts |
| Strconv.AccumulateSpec | weedo.go:82-91 | Go's digit loop accepts exactly the digit strings whose value fits, gives ErrRange for digit strings that do not fit, and fails on any non-digit |
| Strconv.AccumulateFailurePersists | weedo.go:82-91 | The loop returns at its first failing byte: a failure on a prefix is the failure of the whole string |
| Strconv.ParseUintSyntaxError | weedo.go:82-91 | A non-digit after an in-range digit prefix is a syntax error, whatever follows it |
| Strconv.ParseUintMachine | weedo.go:82-91 | ParseUint's loop on 64-bit words, with the cutoff test and the wrap-around check, returns exactly the unbounded ParseUint result |
| Strconv.MachineStep | weedo.go:82-91 | One loop iteration's 64-bit tests reject exactly the steps whose unbounded value exceeds the bit-size maximum |
| Strconv.CutoffMeansOverflow | weedo.go:82-91 | The cutoff test n >= maxUint64/base + 1 holds exactly when n*base overflows 64 bits |
| Strconv.WrapDetected | weedo.go:82-91 | When n*base fits, adding a digit wraps around exactly when the 64-bit sum falls below n*base |
| Strconv.FormatUint | weedo.go:59 | strconv.FormatUint gives a non-empty digit string without a leading zero (only "0" for zero) whose value is the number |
| Strconv.FixedWidth | weedo.go:85-89 | The cookie rendering has exactly `width` digits of the base |
| Strconv.FixedWidthValue | weedo.go:85-89 | A number below base^width, written with exactly width digits zero-padded on the left, reads back as the number |
| MasterOps.NewMaster | master.go:67-75 | A new master has the given address and an empty cache |
| MasterOps.CacheGet | master.go:141 | Reading `m.volDcMap[url]` follows Go's zero-value rule: a cached url gives its entry, and a non-empty answer comes only from a cached url |
| MasterOps.FirstNear | master.go:140-144 | The index the loop stops at: every earlier location is not near, and the one at the index is near unless the list ran out |
| MasterOps.LookupNearestNode | master.go:136-147 | The chosen location is an element of the non-empty list. When some location's cached datacenter equals dc, it is the first such location in reply order; otherwise it is Locations[0] |
| MasterOps.LookupNearestNodeLoop | master.go:136-147 | The early-returning loop as written computes LookupNearestNode |
| MasterOps.NoEarlierNear | master.go:140-144 | If no location before i is near and location i is near (or i is the end), the loop stops at i |
| MasterOps.EmptyDcPicksUncached | master.go:141 | With dc == "", the choice is a location that is uncached or cached as "" whenever one exists, and it differs from Locations[0] only when Locations[0] is cached under a non-empty id |
| MasterOps.EmptyDcSkipsFirst | master.go:141 | With dc == "", the first replica cached as "dc1", and the second uncached, the second replica is chosen |
| MasterOps.LookupArgs | master.go:151-153 | The lookup query always carries exactly volumeId and collection, with the given values |
| MasterOps.DecideLookup | master.go:173-181 | A successful lookup yields a volume bound to LookupNearestNode of the reply's locations, which is one of those locations |
| MasterOps.LookupOutcomeOrder | master.go:173-181 | A non-empty directory error wins, with exactly its text, whatever the locations. "Location not found" happens exactly when there is no error and no location; success happens exactly when there is no error and at least one location |
| MasterOps.Lookup | master.go:150-181 | Exactly one GET of /dir/lookup with volumeId and collection is sent. A transport or decoding failure is returned as such; a decoded reply is decided by DecideLookup against the current cache |
| MasterOps.PutNodes | master.go:299-301 | The node loop keeps every key already in the map; PutNodesSpec states what it adds |
| MasterOps.PutRacks | master.go:298-302 | The rack loop keeps every key already in the map; PutRacksSpec states what it adds |
| MasterOps.PutDataCenters | master.go:297-303 | The datacenter loop keeps every key already in the map; PutDataCentersSpec states what it adds |
| MasterOps.Flatten | master.go:296-303 | No ensures of its own: the flattening starts from an empty map. FlattenSpec and FlattenLastWins state its keys and values |
| MasterOps.PutNodesSpec | master.go:299-301 | The node loop adds exactly the urls of the rack's nodes, maps them to the datacenter id, and keeps every other entry |
| MasterOps.PutRacksSpec | master.go:298-302 | The rack loop adds exactly the urls of nodes in the datacenter's racks, maps them to its id, and keeps every other entry |
| MasterOps.ListedSnoc | master.go:297-303 | A url is listed in a run of datacenters exactly when it is listed in all but the last or hosted by the last |
| MasterOps.PutDataCentersSpec | master.go:297-303 | The datacenter loop adds exactly the listed urls and keeps unlisted entries. Each listed url maps to the id of a datacenter that hosts it, with no later datacenter hosting it |
| MasterOps.FlattenSpec | master.go:296-303 | The flattened map's keys are exactly the data-node urls of the topology. Each maps to the id of an enclosing datacenter, the last one in iteration order that lists it |
| MasterOps.FlattenLastWins | master.go:296-303 | A node listed under two datacenters maps to the second one, and nothing else is in the map |
| MasterOps.Refresh | master.go:290-307 | A failed status request leaves the master exactly as it was; a successful one sets the cache to the flattened new topology |
| MasterOps.RefreshReplaces | master.go:296-307 | After a successful refresh the cache does not depend on the old one, and an old entry survives only if the new topology lists its url |
| MasterOps.RunTicks | master.go:284-308 | A run of refresh ticks never changes the master's address, and a run in which every status request fails leaves the master as it was |
| MasterOps.RunTicksLastSuccess | master.go:284-308 | After any run of ticks, the cache is the flattening of the last successful status, or the starting cache if every tick failed |
| MasterOps.AssignNArgs | master.go:83-90 | count is set exactly when count > 0, as its decimal rendering, and no other argument is set |
| MasterOps.AssignCountRoundTrip | master.go:85-87 | A positive count below 2^64 is rendered so that it reads back as the same number |
| MasterOps.AssignNRequest | master.go:83-106 | AssignN sends a GET to the master's /dir/assign. The query carries count exactly when count > 0 and nothing else. A count below 2^64 is read back by ParseUint as the same number |
| MasterOps.GrowArgs | master.go:204-214 | count is set under the AssignN rule, and collection, replication and dataCenter are always set to the given values, even when empty |
| MasterOps.GrowRequest | master.go:204-228 | Grow sends a GET to the master's /vol/grow. The query always carries collection, replication and dataCenter with the given values, even when empty, and carries count exactly when count > 0. A count below 2^64 is read back by ParseUint as the same number |
| Weedo.RegisterAll | weedo.go:35-38 | The filer loop registers exactly the normalised urls, keeps the master, allocates one handle per url and keeps the registry well-formed |
| Weedo.NewClient | weedo.go:33-47 | A new client has a fresh master for the address and a well-formed registry whose keys are exactly the normalised filer urls |
| Weedo.LastDuplicateWins | weedo.go:35-38 | Of several urls that normalise alike, the handle allocated for the last one is registered |
| Weedo.ClientFiler | weedo.go:67-75 | A registered normalised url gives its existing handle and leaves the client unchanged. Otherwise a fresh handle is registered under exactly that one new key. Either way the registry maps the url to the returned handle, and a well-formed registry stays well-formed |
| Weedo.FreshHandleIsNew | weedo.go:68-74 | A newly made filer is distinct from every registered one |
| Weedo.FilerTwice | weedo.go:67-75 | Asking twice for the same url returns the same handle, and the second call changes nothing |
| Weedo.ClientVolume | weedo.go:53-65 | A parse error is returned and no request is sent; otherwise the master looks up the parsed volume id rendered in decimal |
| Weedo.VolumeIdCanonical | weedo.go:54-60 | The one lookup sent goes to the client's master and carries the canonical decimal of the parsed id: no leading zero, and it reads back as the same number |
| Weedo.LeadingZerosDropped | weedo.go:54-60 | "007,01637037d6" is looked up as volume "7" |
| Weedo.EscapeQuotes | weedo.go:161-165 | Escaping never shortens the text; EscapeLength, EscapeIdentity, EscapeAppend and EscapeRoundTrip state the rest |
| Weedo.EscapeLength | weedo.go:161-165 | Escaping adds exactly one byte per backslash and per double quote |
| Weedo.EscapeIdentity | weedo.go:161-165 | Text with neither a backslash nor a double quote is unchanged |
| Weedo.EscapeAppend | weedo.go:161-165 | Escaping is one byte-by-byte pass: it distributes over concatenation |
| Weedo.EscapeRoundTrip | weedo.go:161-165 | The escaped text followed by a closing quote reads back as exactly the original text, and reading stops at that quote |
| Weedo.ReadEscapedByte | weedo.go:161 | The reader turns each byte's replacement back into that byte |
| Weedo.ContentDisposition | weedo.go:169-171 | No ensures of its own: the value is `form-data; name="<field>"; filename="<file>"` with both names escaped. DispositionRoundTrip states that it parses back into the two names |
| Weedo.StripPrefix | weedo.go:170 | The prefix is stripped exactly when the value starts with it, and the value is the prefix followed by the rest |
| Weedo.FilenamePartRoundTrip | weedo.go:170-171 | The `; filename="…"` part reads back as the file name |
| Weedo.DispositionRoundTrip | weedo.go:169-171 | The Content-Disposition value parses back into the field name and the file name, whatever quotes or backslashes they contain |
| Weedo.ContentType | weedo.go:172-175 | The content type is never empty: the caller's MIME type when it is given, application/octet-stream otherwise |
| Weedo.FormFileHeader | weedo.go:167-176 | The part header sets exactly Content-Disposition and Content-Type. Its Content-Type is ContentType(mime), and its disposition parses back into the field name and file name |

## Left out

- HTTP traffic: `http.Get`, `upload`, `del`, `GC`, `Submit`/`SubmitArgs`, `Status`, `AssignArgs`. These are network I/O. Lookup's directory reply is the parameter `dir`; the assign and grow calls are modelled only up to the request they send.
- JSON decoding (`decodeJson`) and URL encoding (`url.Values.Encode`, `url.URL.String`). These are library internals. A decoding failure is folded into the `Failure` side of `dir`, and a query is the map of `Set` arguments.
- Multipart body construction (`makeFormData`, `writer.CreatePart`, `io.Copy`). This is stream plumbing. Only the header values `createFormFile` sets are modelled.
- The `updateTopo` goroutine, its ticker, the `done` channel handshake, `close` and the `sync.Mutex`. Their purpose is concurrency. The refresh is one sequential step, and a run of ticks is a sequence of status results.
- `GC`'s float threshold formatting, because it is floating point.
- `NewFiler` and the `Volume` methods (`Upload`, `Delete`, `Url`, `PublicUrl`), plus `GetUrl`, `Delete` and `AssignUpload`, which depend on them. Their source is not part of this model. NewFiler's url normalisation is the parameter `norm`, and a volume is just the chosen location.
- Logging (`log.Println`, `init`).
- Strconv.ParseUint: only an explicit base 2..36 and bit size 1..64 are modelled, which covers every call in the client. Base 0 with its prefixes and underscores, and the errors for an invalid base or bit size, are left out. On error Go also returns a value with the error: the bit-size maximum with ErrRange and 0 with ErrSyntax. The model's `Result` keeps only the error, because every caller discards that value.
- Fids.ParseFid: on error Go also returns the partly filled `Fid`. The model returns only the error, because every caller discards that value.
- Strconv.FixedWidth: states its value only for numbers below base^width (in `FixedWidthValue`). A larger number is not what `%08x` would print, and no caller formats one.
- MasterOps.AssignNArgs: `count` is a Go `int`. The model renders any positive integer without a 64-bit bound; `AssignCountRoundTrip` states the round trip below 2^64.
- Weedo.EscapeQuotes: its own `ensures` says only that escaping never shortens the text. Its behaviour is stated by `EscapeLength`, `EscapeIdentity`, `EscapeAppend` and `EscapeRoundTrip`.
- Weedo.FreshHandleIsNew: rests on the assumption that `NewFiler` returns a newly allocated `*Filer` on every call. `NewFiler` is not part of this model, so its allocation behaviour is assumed, not derived.
- The `http` scheme of every request is not kept, because it is the same for all of them. A request keeps the master's address, the path and the query.
- The topology's `Free`, `Max`, `Volumes`, `Layouts` and `Version` fields are carried in the datatypes but play no part in any decision.
