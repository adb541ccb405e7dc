# A verified model of dulwich's MySQL store and smart-HTTP front end

This project is a Dafny model of three modules of the scrapinghub fork of dulwich.

- `dulwich/mysqlrepo.py` is a multi-tenant git store.
  - Every repository shares two MySQL tables: `objs`, keyed by (oid, repo), and `refs`, keyed by (ref, repo).
  - `MysqlObjectStore` adds objects with `INSERT IGNORE`, deletes them one key at a time, looks them up by normalised sha, and completes thin packs by appending their external bases.
  - `MysqlRefsContainer` reads and writes refs with `REPLACE` semantics, including compare-and-set updates.
  - `MysqlRepo` ties a store and a refs container to one name. Its class methods list, probe and delete repositories.
- `dulwich/mysqlconnection.py` manages the MySQL connections.
  - `_parse` turns a URL into a connection configuration.
  - A lazily created pool of `POOL_SIZE` connections is set to READ COMMITTED as each connection is handed out.
  - `dbcursor` rolls back on an exception and always commits and releases.
  - `replenishing_cursor` refills an exhausted pool and runs the call once more.
  - `retry_operation` is a bounded retry loop.
- `dulwich/swift-web.py` is the WSGI front end of git's smart-HTTP protocol.
  - The front end routes GET `/info/refs` and POST `/git-upload-pack` / `/git-receive-pack`.
  - It builds the response headers and advertises the service.
  - It limits request bodies to their Content-Length.

## How the model is built

- **Tables.** The tables are maps from `Key(name, repo)` to rows, held by a `Database` object that the store and the refs container share.
  - Read-only queries are functions over the maps.
  - Writes are methods whose postconditions give the new maps through `InsertIgnore`, `InsertAll`, `DeleteAll` and `Replace`.
  - Tenant isolation is stated as `SameOutside`, meaning the rows of other repositories are unchanged, and as `SameInside`, meaning answers depend only on the repository's own rows.
- **Connection pool.** The pool is a bounded queue (`seq<Connection>`). The module globals `DB_CONFIG` and `connection_pool` are the fields of `ConnectionModule`.
  - A decorated function's own outcome is a parameter of type `Result<T>`.
  - The decorator's effects are connection events in a log (set isolation, rollback, close cursor, commit, release) plus the pool's queue.
- **HTTP front end.** `HTTPGitRequest` is a class that records the headers and every `start_response` call. Each anchored route pattern is a literal-suffix search, in which `$` also matches before one final newline.
  - The reply to a request is given by specification functions (`Dispatch`, `InfoRefsReply`, `ServiceReply`, `Handle`).
  - The imperative handlers are proved against those functions.
- **Abstract parts.** The pack codec and the repository backend are parameters.
  - The pack codec (header, object encoding, digest, inflation) is a `PackCodec` record of functions.
  - The backend's `open_repository` is a predicate `opens`.
  - The service handlers are the set of their names.

## Model

| member | source | states |
|---|---|---|
| Tables.Database.constructor | dulwich/mysqlrepo.py:279-302 | `_init_db` starts both tables empty |
| Tables.InsertIgnore | dulwich/mysqlrepo.py:21 | `INSERT IGNORE` adds the key; an existing row keeps its value, and a new key gets the given row |
| Tables.InsertAll | dulwich/mysqlrepo.py:97-99 | a batch adds exactly its keys and never changes a row that was already present |
| Tables.InsertAllFirstWins | dulwich/mysqlrepo.py:97-99 | within a batch, the first row for a new key is the one stored |
| Tables.InsertAllPresent | dulwich/mysqlrepo.py:21 | a batch whose keys are all stored already changes nothing |
| Tables.InsertAllIdempotent | dulwich/mysqlrepo.py:91-99 | running a batch twice leaves the table as one run does |
| Tables.InsertAllIsolated | dulwich/mysqlrepo.py:97-99 | a batch of one repository's rows leaves every other repository's rows unchanged |
| Tables.DeleteAll | dulwich/mysqlrepo.py:22 | the per-key deletes remove exactly the listed keys (absent ones are no-ops) and keep the other rows' values |
| Tables.DeleteAllIsolated | dulwich/mysqlrepo.py:102-104 | deleting one repository's keys leaves other repositories' rows unchanged |
| HexSha.ShaToHex | dulwich/mysqlrepo.py:33 | `sha_to_hex` doubles the length and yields lowercase hex |
| HexSha.HexToSha | dulwich/mysqlrepo.py:33 | the inverse conversion halves the length and yields bytes |
| HexSha.HexOfShaRoundTrip | dulwich/mysqlrepo.py:33 | decoding the hex form of a byte string gives the byte string back |
| HexSha.ShaOfHexRoundTrip | dulwich/mysqlrepo.py:33 | encoding the decoded bytes of even-length lowercase hex gives the hex back |
| HexSha.ToHexSha | dulwich/mysqlrepo.py:29-35 | length 40 is returned unchanged, length 20 becomes 40 lowercase hex digits, and any other length is ValueError |
| HexSha.ToHexShaRecoversSha | dulwich/mysqlrepo.py:29-35 | normalising a 20-byte sha loses nothing: the binary sha decodes back from the result |
| ObjectStore.RowsOf | dulwich/mysqlrepo.py:97-98 | one row per object, in order, each as `_add_object` writes it |
| ObjectStore.KeysFor | dulwich/mysqlrepo.py:103-104 | one (id, repo) key per id, in order |
| ObjectStore.HasSha | dulwich/mysqlrepo.py:37-42 | true iff a row with that oid exists for this repository |
| ObjectStore.ContainsLoose | dulwich/mysqlrepo.py:51-53 | a 40-char sha is looked up as it is and a 20-char sha by its hex form; any other length is ValueError |
| ObjectStore.ContainsPacked | dulwich/mysqlrepo.py:55-57 | never true |
| ObjectStore.Packs | dulwich/mysqlrepo.py:63-66 | always empty |
| ObjectStore.AllShas | dulwich/mysqlrepo.py:44-49 | exactly the oids stored under this repository |
| ObjectStore.GetRaw | dulwich/mysqlrepo.py:68-78 | a bad sha length is ValueError; otherwise the row of the normalised sha in this repository, or None |
| ObjectStore.LookupsIsolated | dulwich/mysqlrepo.py:18-20 | every object query answers the same on two tables that agree on this repository's rows |
| ObjectStore.Overwrite | dulwich/mysqlrepo.py:137-149 | writing into the buffer extends it exactly when the write passes its end |
| ObjectStore.OverwriteAt | dulwich/mysqlrepo.py:137-149 | each byte under the write comes from the written data and every other byte is kept |
| ObjectStore.OverwriteTwice | dulwich/mysqlrepo.py:144-149 | two consecutive writes equal one write of their concatenation |
| ObjectStore.OverwriteToEnd | dulwich/mysqlrepo.py:144-149 | a write that reaches the end leaves nothing of the old tail |
| ObjectStore.BytesIO.constructor | dulwich/mysqlrepo.py:116 | the buffer `add_pack` hands out is empty, at position 0 |
| ObjectStore.BytesIO.Seek | dulwich/mysqlrepo.py:137 | moves the position and keeps the data |
| ObjectStore.BytesIO.Write | dulwich/mysqlrepo.py:147-149 | overwrites at the position and advances it by the length written |
| ObjectStore.EncodeAllSnoc | dulwich/mysqlrepo.py:144-147 | encoding one more base appends its encoding |
| ObjectStore.FetchOne | dulwich/mysqlrepo.py:145-146 | an external base is fetched iff it is a 20-byte sha stored in this repository; a wrong length is AssertionError, and a missing row fails to unpack (TypeError) |
| ObjectStore.FetchExternalAll | dulwich/mysqlrepo.py:144-147 | fetching all bases succeeds iff each base can be fetched, and then yields exactly those rows in order |
| ObjectStore.FetchExternalFailsEarly | dulwich/mysqlrepo.py:144-147 | the first base that fails ends the loop with its error |
| ObjectStore.MissingBaseAborts | dulwich/mysqlrepo.py:145-146 | one absent external base makes completion fail |
| ObjectStore.Completed | dulwich/mysqlrepo.py:128-149 | the completed pack is the received pack plus the encodings of the bases |
| ObjectStore.CompletedLayout | dulwich/mysqlrepo.py:136-149 | the completed pack is the header for the new count, then the received objects, then the encoded bases, then the 20-byte digest of everything before it |
| ObjectStore.CompletedByWrites | dulwich/mysqlrepo.py:137-149 | the header rewrite, the appended bases and the digest write together produce that layout |
| ObjectStore.ThinPackCompletes | dulwich/mysqlrepo.py:134-149 | with every base stored, completion succeeds with count entries + ext_refs |
| ObjectStore.ThinPackObjects | dulwich/mysqlrepo.py:151-174 | the objects committed are the inflation of the completed pack; a short pack or an unfetchable base aborts |
| ObjectStore.AddObjectIdempotent | dulwich/mysqlrepo.py:80-89 | adding an object twice leaves the table as adding it once |
| ObjectStore.MysqlObjectStore.constructor | dulwich/mysqlrepo.py:25-27 | a store for one repository name over the shared database |
| ObjectStore.MysqlObjectStore.AddObject | dulwich/mysqlrepo.py:80-89 | inserts the object's row with INSERT IGNORE, touches no other repository or the refs, and the object is then contained |
| ObjectStore.MysqlObjectStore.InsertObjects | dulwich/mysqlrepo.py:97-99 | the rows are inserted one after the other, with other repositories unchanged |
| ObjectStore.MysqlObjectStore.AddObjects | dulwich/mysqlrepo.py:91-99 | the objects of the (object, path) pairs are batch-inserted for this repository only |
| ObjectStore.MysqlObjectStore.DeleteObjects | dulwich/mysqlrepo.py:101-104 | an id is stored afterwards iff it was stored and is not in the list; other repositories are unchanged |
| ObjectStore.MysqlObjectStore.AddPack | dulwich/mysqlrepo.py:106-126 | hands out a fresh empty buffer |
| ObjectStore.MysqlObjectStore.Commit | dulwich/mysqlrepo.py:118-122 | inserts every object inflated from the buffer |
| ObjectStore.MysqlObjectStore.AppendExternalBases | dulwich/mysqlrepo.py:144-147 | the loop succeeds iff every base can be fetched; then the buffer holds their encodings after the old position; otherwise it fails with the first failing base's error |
| ObjectStore.MysqlObjectStore.WriteBase | dulwich/mysqlrepo.py:145-147 | fetches one base and, when present, writes its encoding at the position |
| ObjectStore.MysqlObjectStore.CompleteThinPack | dulwich/mysqlrepo.py:128-149 | succeeds iff the pack has its digest room and all bases are fetchable; on success the buffer is the completed pack |
| ObjectStore.MysqlObjectStore.AddThinPack | dulwich/mysqlrepo.py:151-174 | an error in receiving or completing aborts with the objects table unchanged; success commits exactly the thin-pack objects; other repositories and the refs are never touched |
| Refs.SymrefTo | dulwich/mysqlrepo.py:227 | the stored form of a symbolic ref is a symref whose target follows the prefix |
| Refs.ReadLooseRef | dulwich/mysqlrepo.py:200-205 | the value stored under (name, repo), or None when there is no row |
| Refs.GetPackedRefs | dulwich/mysqlrepo.py:207-208 | always empty |
| Refs.ReadRef | dulwich/mysqlrepo.py:200-208 | a ref reads as present iff its row holds a non-empty value |
| Refs.FollowFrom | dulwich/mysqlrepo.py:220 | from a given hop, resolution ends at a non-symbolic ref whose read value it reports, or KeyError |
| Refs.FollowFromChain | dulwich/mysqlrepo.py:220 | from a given hop, resolution along a chain of symbolic refs ends at the chain's last ref with its value, and fails with KeyError when the sixth value read is present |
| Refs.FollowChain | dulwich/mysqlrepo.py:220 | `_follow` of a chain's first name gives its last ref and value: at most six refs ending at an absent ref, or at most five ending at a sha; six present refs are KeyError |
| Refs.FollowFromTrace | dulwich/mysqlrepo.py:220 | every resolution from a given hop follows a chain that stops only at an absent or non-symbolic ref or when the reads run out; KeyError exactly when they ran out on a present ref |
| Refs.FollowTrace | dulwich/mysqlrepo.py:220 | `_follow(name)` is the following of the chain from `name`, of at most six refs; KeyError exactly when six present values were read |
| Refs.Follow | dulwich/mysqlrepo.py:220 | the final ref and its value, never symbolic, or KeyError; an absent or direct ref resolves to itself |
| Refs.Lookup | dulwich/mysqlrepo.py:275 | `refs[name]` is a non-empty, non-symbolic value read at the end of resolution, or KeyError |
| Refs.AllKeys | dulwich/mysqlrepo.py:195-198 | exactly the ref names stored under this repository |
| Refs.Replace | dulwich/mysqlrepo.py:210-212 | `REPLACE` makes the row hold the value, keeps every other row and leaves other repositories unchanged |
| Refs.FollowFromIsolated | dulwich/mysqlrepo.py:184-187 | resolution reads only this repository's rows |
| Refs.RefQueriesIsolated | dulwich/mysqlrepo.py:184-187 | every ref query answers the same on two tables that agree on this repository's rows |
| Refs.SelfLoopFails | dulwich/mysqlrepo.py:220 | a ref that points at itself fails with KeyError instead of looping |
| Refs.SymbolicResolution | dulwich/mysqlrepo.py:225-227 | after `set_symbolic_ref(a, b)` and setting b to x, `refs[a]` is x |
| Refs.MysqlRefsContainer.constructor | dulwich/mysqlrepo.py:190-193 | a container for one repository with an empty peeled cache |
| Refs.MysqlRefsContainer.GetPeeled | dulwich/mysqlrepo.py:249-250 | reads only the cache, so with the empty cache the answer is always None |
| Refs.MysqlRefsContainer.UpdateRef | dulwich/mysqlrepo.py:210-212 | replaces the row and touches no object |
| Refs.MysqlRefsContainer.RemoveRef | dulwich/mysqlrepo.py:236-238 | removes exactly the row (name, repo) |
| Refs.MysqlRefsContainer.SetIfEquals | dulwich/mysqlrepo.py:214-223 | a given old value that differs from the stored one gives False with nothing changed; otherwise the resolved name is checked and then replaced, with other repositories unchanged |
| Refs.MysqlRefsContainer.SetSymbolicRef | dulwich/mysqlrepo.py:225-227 | stores `ref: <other>` under the name itself, unresolved |
| Refs.MysqlRefsContainer.AddIfNew | dulwich/mysqlrepo.py:229-234 | True iff the name held no (non-empty) value, and only then is it written; afterwards the name has a row |
| Refs.MysqlRefsContainer.RemoveIfEquals | dulwich/mysqlrepo.py:240-247 | True iff no old value was given or it equals the stored one, and only then is the row removed |
| Repo.MysqlRepo.constructor | dulwich/mysqlrepo.py:260-264 | a bare repository whose store and refs use the same name and database |
| Repo.MysqlRepo.Head | dulwich/mysqlrepo.py:273-275 | a non-empty, non-symbolic sha or KeyError; a master branch holding a sha gives that sha, and an absent one KeyError |
| Repo.HeadFollowsChain | dulwich/mysqlrepo.py:273-275 | `head` follows the symbolic chain from `refs/heads/master`: at most five refs ending at a sha give that sha; an absent end or six present refs give KeyError |
| Repo.Open | dulwich/mysqlrepo.py:308-318 | `init_bare` and `open` build the object and neither check nor create anything |
| Repo.OpenIndex | dulwich/mysqlrepo.py:266-271 | always NoIndexPresent |
| Repo.RepoExists | dulwich/mysqlrepo.py:320-328 | a repository exists iff it has a stored object; refs are not consulted |
| Repo.ListRepos | dulwich/mysqlrepo.py:330-336 | a name is listed iff that repository exists |
| Repo.WithoutRepo | dulwich/mysqlrepo.py:343-344 | `DELETE ... WHERE repo = name` keeps exactly the other repositories' rows, unchanged |
| Repo.DeleteRepo | dulwich/mysqlrepo.py:338-344 | both tables lose exactly that repository's rows, and afterwards it neither exists nor is listed |
| Repo.DeleteRepoKeepsOthers | dulwich/mysqlrepo.py:338-344 | deleting one repository changes no other repository's existence, objects or refs |
| Repo.AddedObjectListsRepo | dulwich/mysqlrepo.py:320-336 | after an object is added, its repository exists and is listed |
| MysqlConnection.BeforeQuery | dulwich/mysqlconnection.py:13 | the text before the first '?', which it never contains |
| MysqlConnection.Parse | dulwich/mysqlconnection.py:8-21 | host, user, password and database default to '' and the port to 3306; the database is the path without its first character, up to the first '?' |
| MysqlConnection.BeforeQueryCut | dulwich/mysqlconnection.py:12-13 | a query string after '?' is removed from the database name, and a name without one is kept whole |
| MysqlConnection.InitialQueue | dulwich/mysqlconnection.py:41-44 | a new pool holds `size` idle connections |
| MysqlConnection.ConnectionPool.constructor | dulwich/mysqlconnection.py:41-44 | a named pool of the given size over the configuration, full of idle connections |
| MysqlConnection.ConnectionPool.GetConnection | dulwich/mysqlconnection.py:45 | hands out the oldest idle connection, or PoolError when none is idle |
| MysqlConnection.ConnectionPool.AddConnection | dulwich/mysqlconnection.py:94 | opens one new connection into the queue, or PoolError when it is full |
| MysqlConnection.ConnectionPool.ReturnConnection | dulwich/mysqlconnection.py:73-77 | a closed connection goes back to the queue, or PoolError when it is full |
| MysqlConnection.CursorEvents | dulwich/mysqlconnection.py:65-77 | a rollback happens exactly when the call raised, and close-cursor, commit and release always end the sequence |
| MysqlConnection.ConnectionModule.constructor | dulwich/mysqlconnection.py:24-32 | the configuration read at import and no pool yet |
| MysqlConnection.ConnectionModule.SetDbUrl | dulwich/mysqlconnection.py:27-29 | the configuration becomes the parsed URL; the pool is not touched |
| MysqlConnection.ConnectionModule.GetConnection | dulwich/mysqlconnection.py:38-49 | the pool is created only when absent, over the current configuration; the connection handed out is the oldest idle one with READ COMMITTED set, or PoolError |
| MysqlConnection.ConnectionModule.DbCursor | dulwich/mysqlconnection.py:52-81 | the call runs iff a connection was idle; it returns the call's outcome after rollback-on-error, close, commit and release; the connection goes back to the queue; PoolError when none is idle |
| MysqlConnection.ConnectionModule.Replenish | dulwich/mysqlconnection.py:91-94 | at most POOL_SIZE connections are added, stopping when the queue is full; the queue grows to min(old + POOL_SIZE, size) |
| MysqlConnection.ConnectionModule.ReplenishingCursor | dulwich/mysqlconnection.py:84-98 | the call runs once, plus exactly one more time iff the first attempt met PoolError; the second attempt's outcome is the result |
| MysqlConnection.RetryOperation | dulwich/mysqlconnection.py:101-120 | returns the first success with no further calls, stops at the first uncaught error, and otherwise raises the last caught error after exactly `retries` calls; no retries raises TypeError |
| SwiftWeb.InputStream.Read | dulwich/swift-web.py:171 | the underlying `read(n)`: up to n bytes, or the whole rest for a negative n |
| SwiftWeb.ReadFrom | dulwich/swift-web.py:171 | a read returns a slice of the remaining data: all of it for a negative size, otherwise min(size, remaining) bytes |
| SwiftWeb.Clamp | dulwich/swift-web.py:168-169 | sizes within the budget pass through; -1, any other negative size, or an oversized request becomes the whole budget |
| SwiftWeb.ClampWithinBudget | dulwich/swift-web.py:168-170 | with a positive budget the size passed on is between 0 and the budget, and agrees with the code as written except for sizes below -1 |
| SwiftWeb.NegativeSizeEscapesLimit | dulwich/swift-web.py:168-171 | as written, `read(-2)` with 5 bytes left raises the budget to 7 and reads past the limit |
| SwiftWeb.LengthLimitedFile.constructor | dulwich/swift-web.py:161-163 | the budget starts at max_bytes with nothing requested |
| SwiftWeb.LengthLimitedFile.Read | dulwich/swift-web.py:165-171 | a spent budget gives '' without touching the input; otherwise the clamped size is read and subtracted; the total requested never exceeds max_bytes |
| SwiftWeb.StripSpace | dulwich/swift-web.py:189 | the result neither starts nor ends with whitespace, and text without whitespace at its ends is kept whole |
| SwiftWeb.StripSpaceSlice | dulwich/swift-web.py:189 | the result is a slice of the input with only whitespace before and after it |
| SwiftWeb.ParseInt | dulwich/swift-web.py:189 | `int(content_length)` gives the decimal value of an unsigned digit string, and every failure is ValueError |
| SwiftWeb.ShowNatValue | dulwich/swift-web.py:189 | the decimal digits of n have value n |
| SwiftWeb.ContentLengthRoundTrip | dulwich/swift-web.py:186-189 | a Content-Length written in decimal is read back as the same length |
| SwiftWeb.ContentTypeHeaders | dulwich/swift-web.py:92-93 | a non-empty content type adds exactly one Content-Type header, and none otherwise |
| SwiftWeb.HTTPGitRequest.constructor | dulwich/swift-web.py:79-84 | no headers, no cache headers, nothing started |
| SwiftWeb.HTTPGitRequest.AddHeader | dulwich/swift-web.py:86-87 | appends one header |
| SwiftWeb.HTTPGitRequest.Respond | dulwich/swift-web.py:89-96 | the caller's headers, then Content-Type, then the cache headers are appended in that order, and start_response receives the whole list |
| SwiftWeb.HTTPGitRequest.NotFound | dulwich/swift-web.py:98-101 | clears the cache headers and answers 404 text/plain with the message |
| SwiftWeb.HTTPGitRequest.Error | dulwich/swift-web.py:103-106 | clears the cache headers and answers 500 text/plain with the message |
| SwiftWeb.HTTPGitRequest.Forbidden | dulwich/swift-web.py:124 | the missing `forbidden`, made to answer 403 text/plain like its siblings |
| SwiftWeb.SearchSuffix | dulwich/swift-web.py:194-211 | an anchored literal is found iff the path ends with it or with it plus one newline, and the match is that literal at that place |
| SwiftWeb.LeadingAreSlashes | dulwich/swift-web.py:116 | `strip('/')` removes only slashes at the front |
| SwiftWeb.TrailingAreSlashes | dulwich/swift-web.py:116 | `strip('/')` removes only slashes at the end |
| SwiftWeb.UrlPrefix | dulwich/swift-web.py:108-116 | the prefix starts with one '/' and, unless it is "/", neither starts with a second '/' nor ends with one |
| SwiftWeb.UrlPrefixOnlyStrips | dulwich/swift-web.py:108-116 | the text before the match is slashes, then the prefix's core, then slashes |
| SwiftWeb.UrlPrefixNormal | dulwich/swift-web.py:108-116 | a prefix that is already normal is returned unchanged |
| SwiftWeb.RouteMatch | dulwich/swift-web.py:208-212 | a route matches iff the method is equal and the path ends with its literal, or with the literal plus a newline |
| SwiftWeb.Dispatch | dulwich/swift-web.py:193-214 | a selected route is one of the three, with its match |
| SwiftWeb.RoutesUnambiguous | dulwich/swift-web.py:193-197 | at most one route matches any request, so the dictionary's order does not matter |
| SwiftWeb.DispatchComplete | dulwich/swift-web.py:208-217 | no handler is chosen iff no route matches |
| SwiftWeb.MatchDispatched | dulwich/swift-web.py:208-214 | whichever route matches is the one chosen |
| SwiftWeb.InfoRefsReply | dulwich/swift-web.py:118-139 | 200 iff a non-empty service has a handler and the repository opens; then the advertisement content type and the `# service=` pkt-line plus flush; 403 iff the service is unsupported; 404 otherwise |
| SwiftWeb.InfoRefsAsWrittenDiffers | dulwich/swift-web.py:118-139 | the code as written and the corrected reply differ exactly on unsupported services, where the code raises |
| SwiftWeb.UnsupportedServiceRaises | dulwich/swift-web.py:124 | `?service=git-foo-pack` raises AttributeError as written, and the corrected reply is 403 |
| SwiftWeb.ServiceReply | dulwich/swift-web.py:141-151 | the service is the matched text without its leading '/'; 200 with `application/x-<service>-result` iff it has a handler, 403 otherwise |
| SwiftWeb.ServiceAsWrittenDiffers | dulwich/swift-web.py:141-151 | the code as written and the corrected reply differ exactly on unsupported services, where the code raises |
| SwiftWeb.UnsupportedPackServiceRaises | dulwich/swift-web.py:146 | a POST to `/git-receive-pack` with only upload-pack offered raises AttributeError as written, and the corrected reply is 403 |
| SwiftWeb.Handle | dulwich/swift-web.py:203-219 | no matching route gives 404 "Sorry, that method is not supported"; a repository is served only for a dispatched route, at that match's url prefix |
| SwiftWeb.DispatchPackService | dulwich/swift-web.py:195-196 | a POST ending in a pack service's literal selects that route |
| SwiftWeb.InfoRefsRoute | dulwich/swift-web.py:194-219 | a GET ending in `/info/refs` is answered by `get_info_refs` at the path's prefix |
| SwiftWeb.ServiceRequestReply | dulwich/swift-web.py:141-151 | a routed service request with a handler is 200 with its result content type |
| SwiftWeb.PackServiceRequest | dulwich/swift-web.py:141-196 | a POST to `<prefix>/git-upload-pack` or `/git-receive-pack` with a handler is served as 200 for that prefix |
| SwiftWeb.GetInfoRefs | dulwich/swift-web.py:118-139 | the started response, the written pkt-lines and the served repository are those of InfoRefsReply |
| SwiftWeb.HandleServiceRequest | dulwich/swift-web.py:141-151 | the started response and the served repository are those of ServiceReply |
| SwiftWeb.SelectRoute | dulwich/swift-web.py:207-214 | the loop with its break chooses exactly the route Dispatch names |
| SwiftWeb.HTTPGitApplication.constructor | dulwich/swift-web.py:199-201 | the backend and the handler table |
| SwiftWeb.HTTPGitApplication.Call | dulwich/swift-web.py:203-219 | a new request; its one `start_response`, its body, its pkt-lines and its served repository are those of Handle |
| SwiftWeb.LimitedInputFilter.constructor | dulwich/swift-web.py:178-179 | wraps the application |
| SwiftWeb.LimitedInputFilter.Call | dulwich/swift-web.py:181-190 | `wsgi.input` is replaced iff CONTENT_LENGTH is non-empty, by a wrapper of the server's stream with the parsed length as its budget, and the application's request holds the replaced environ; a bad length raises ValueError before the application runs; otherwise the application's reply |

## Left out

- I/O and process plumbing are not modelled: gevent patching, the wsgiref server and its logging subclasses, `main()` and the module-level logger (dulwich/swift-web.py:6-7, 34-76, 228-240), and the `logger.info` call in `handle_service_request`.
- `parse_qs` is not modelled. The `service` query parameter arrives already parsed in the environ record.
- The protocol handlers (`handler_cls(...)`, `handle()`) and `ReceivableProtocol` are left out. The model records which repository path a handler would serve and the two pkt-lines `get_info_refs` writes before handing over. dulwich/server.py is not part of this model, so `DEFAULT_HANDLERS` is a parameter: the set of service names.
- `SwiftSystemBackend` / `SwiftRepo` are not modelled. `open_repository` is the predicate `opens`, and a false answer stands for InvalidRepoException.
- The handlers are generators in the source, which run lazily as the server iterates the body. The model runs them eagerly.
- Exceptions raised inside a handler after the response has started are not modelled.
- SwiftWeb.ParseInt: accepts optional surrounding whitespace, an optional sign and decimal digits. Its contract states only the unsigned case and the error kind. It does not model every corner of Python 2 `int()`, such as a trailing `L` or non-ASCII digits.
- The pack library is uninterpreted: `write_pack_header`, `write_pack_object`, `compute_file_sha`, `PackIndexer`, `PackStreamCopier` and `PackInflater`, as well as zlib `COMPRESS` / `UNCOMPRESS` and SHA-1.
- ObjectStore.MysqlObjectStore.AddThinPack: the stream copier's outcome is a parameter.
- ObjectStore.MysqlObjectStore.Commit: `commit()` uses a cursor that is already closed when `add_pack` returns. It is modelled as the batch insert it is meant to be.
- The SQL engine is reduced to maps, and the `MySQLConnectionPool` internals to a bounded queue with a creation counter. Column types, collation and the `varchar(64)` / `binary(40)` truncation are not modelled.
- Transactions are events in a log. A rollback does not undo map writes.
- Isolation between concurrent workers is not modelled, nor any other concurrency. `set_if_equals` reads through a separate connection before writing, so it is not atomic across workers; the model is sequential.
- Decorated database methods are modelled by their cursor bodies over the maps. The pool-level behaviour of the decorators is in `DbCursor` and `ReplenishingCursor`, with the call's outcome as a parameter. Connections taken by nested decorated calls are not tracked.
- The environment lookup for `DB_URL` at import is the constructor's parameter. `urlparse` is the `SplitUrl` record, already split, so hostname lowercasing and port validation are not modelled.
- `USE_PREPARED_STATEMENTS` is not modelled: it only selects the cursor class.
- `RefsContainer._follow` and `_check_refname` belong to dulwich/refs.py, which is not part of this model.
  - `_follow` is modelled with the base class's bound of five symbolic hops, after which it raises KeyError.
  - `_check_refname` is a predicate parameter, and a false answer is RefFormatError.
- Refs.MysqlRefsContainer.SetSymbolicRef and Refs.MysqlRefsContainer.AddIfNew: in the source, the call to `_update_ref` is missing its `cursor` argument (dulwich/mysqlrepo.py:227, 233). The intended `REPLACE` write is modelled instead.
- SwiftWeb.LimitedInputFilter.Call: requires `wsgi.input` to be the server's own stream. The filter is the outermost middleware (dulwich/swift-web.py:232), so nothing wraps the stream before it. Wrapping an already-wrapped input is not modelled.
- SwiftWeb.HTTPGitRequest.Forbidden: `HTTPGitRequest` has no `forbidden` method. The model adds one that answers `403 Forbidden` text/plain like `not_found`. The as-written behaviour is under Findings.
- SwiftWeb.LengthLimitedFile.Read: uses the corrected clamp, which treats every negative size as "the rest of the budget". The as-written behaviour is under Findings.
- `repo_exists`, `list_repos` and `delete_repo` are class methods over the shared database. `setup` only calls `set_db_url` and is not modelled separately.
- dulwich/fsrepo.py is not modelled: it has no logic beyond filesystem calls.

## Findings

| source | as written | input that shows it | evidently intended | confidence | as-written member | corrected member |
|---|---|---|---|---|---|---|
| dulwich/swift-web.py:124 | an unsupported service calls `req.forbidden`, which `HTTPGitRequest` does not define, so the request raises AttributeError | `GET /repo/info/refs?service=git-foo-pack` | answer 403 with "Unsupported service git-foo-pack" | not executed | SwiftWeb.UnsupportedServiceRaises | SwiftWeb.InfoRefsReply |
| dulwich/swift-web.py:146 | `handle_service_request` calls the same missing `req.forbidden` for a service without a handler | `POST /repo/git-receive-pack` on a server whose handlers offer only `git-upload-pack` | answer 403 with "Unsupported service git-receive-pack" | not executed | SwiftWeb.UnsupportedPackServiceRaises | SwiftWeb.ServiceReply |
| dulwich/swift-web.py:168-171 | only `size == -1` is clamped; a size below -1 increases `_bytes_avail` and reaches `input.read(size)`, which reads the whole rest of the stream | `read(-2)` with 5 bytes of budget on a 10-byte input: the budget becomes 7 and 10 bytes are returned | every negative size reads at most the remaining budget | not executed | SwiftWeb.NegativeSizeEscapesLimit | SwiftWeb.ClampWithinBudget |
