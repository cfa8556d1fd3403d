# Cache simulator and caching proxy, modelled in Dafny

This project models two sequential cores of a systems-programming lab repository and proves properties of them.

**The trace-driven cache simulator** (`csim.c`, module `CacheSim`):
- The cache has 2^s sets of E lines. Each line holds a valid bit, a tag and an age counter (`timestamp`).
- Each access splits a 32-bit address into tag, set index and block offset.
- A valid line of the set holding the tag is a hit.
- Otherwise the access is a miss. It fills the lowest invalid line. When the set is full it evicts the line with the largest age, which is the least recently used one.
- `update` ages every valid line of the set and resets the touched line to age 0.
- The trace driver performs one access for `L` and `S` records, two for `M`, and none for anything else.
- The class `CacheSim.Cache` keeps the `array2` of lines and the hit, miss and eviction counters. Its methods change them in place, as `init_cache`, `update_cache` and `update` do.
- The same simulator is also written on values: `Sim` holds the sets as sequences of lines and the three counters, and `SimAccess`, `SimStep` and `SimRun` perform one access, one record and a whole trace. The class's methods are proved to follow them, so the final lines and counters of a run are determined by the trace, record by record in order.
- A ghost record of the access that last touched each line connects the age counters to recency. From it the model proves:
  - eviction picks the least recently used line;
  - the tags in a set are distinct;
  - evictions never exceed misses;
  - the second access of an `M` record always hits.

**The sequential request path of the caching HTTP proxy** (`proxy.c`, modules `CStrings`, `HttpCodec`, `ProxyCache`, `Proxy`):
- **Version rewrite:** the first `HTTP/1.1` of the request line becomes `HTTP/1.0`.
- **Request-line reading:** the method and the URI are read with `sscanf`'s `%s`, and only `GET` is accepted, in any mix of cases.
- **`parse_uri`:** splits an absolute URI into host field, port and file name.
- **`strtok` split:** takes the host name out of the host field.
- **Outbound request:** an HTTP/1.0 Request-Line as in section 5.1 of RFC 1945, then the fixed header block.
- **Forwarding loop:** relays every response line and caches the body only when its total size is strictly below `MAX_OBJECT_SIZE`.
- **Object cache:** a fixed array of 1024 slots, looked up by exact URI and filled at the first empty slot. There is no eviction.
- **`get_filetype`:** the content-type table.
- **C library routines:** the ones the proxy relies on (`strstr`, `strtok`, `sscanf`'s `%s`, `strcasecmp`, `strcat`) are modelled in `CStrings` as functions over strings without NUL.
- **Sockets:** each connection's sockets are replaced by values: the request line the client sends, or end of input, and the lines the origin server answers with.

Some behaviour of `proxy.c` is easy to assume otherwise:
- the cache never evicts, and the `LRU` field is written but never read;
- `parse_uri` has no default port, and its host field runs up to the first `/`, port included;
- an object is cached only when its size is strictly below `MAX_OBJECT_SIZE`.

Files:
- `wrappers.dfy`: `Option` and `Result`.
- `csim.dfy`: the simulator.
- `cstrings.dfy`: the C string routines.
- `http_codec.dfy`: URI, request line, outbound request, file types.
- `object_cache.dfy`: the slot array.
- `proxy.dfy`: `forward_request` and `handle_request`.

## Model

| member | source | states |
|---|---|---|
| CacheSim.Tag | cache/cachelab-handout/csim.c:95 | the tag is the number of whole 2^(s+b)-byte regions below the address: tag · 2^(s+b) ≤ address < (tag + 1) · 2^(s+b) |
| CacheSim.SetIndex | cache/cachelab-handout/csim.c:97 | the set index of any address is below 2^s |
| CacheSim.SplitAddress | cache/cachelab-handout/csim.c:95-97 | tag, set index and block offset of an address put together again give the address |
| CacheSim.AddressFields | cache/cachelab-handout/csim.c:95-97 | a tag, a set index below 2^s and an offset below 2^b are recovered from the address they form |
| CacheSim.TraceAccessesByOp | cache/cachelab-handout/csim.c:69-90 | a trace performs #L + #S + 2·#M accesses; other records perform none |
| CacheSim.HitLine | cache/cachelab-handout/csim.c:162-173 | on a set given as a value: the lowest line that is valid and holds the tag; -1 exactly when none does |
| CacheSim.FreeLine | cache/cachelab-handout/csim.c:175-183 | on a set given as a value: the lowest invalid line; -1 exactly when every line is valid |
| CacheSim.OldestLine | cache/cachelab-handout/csim.c:145-159 | on a set given as a value: a line with the largest age, the lowest such one |
| CacheSim.SimAccess | cache/cachelab-handout/csim.c:93-129 | one access on the state as a value: the sets keep their shape, either hits or misses grows by one, evictions grows only together with misses, and every set other than the address's is unchanged |
| CacheSim.SecondAccessHits | cache/cachelab-handout/csim.c:82-84 | accessing an address right after accessing it is a hit, from any state |
| CacheSim.SimStep | cache/cachelab-handout/csim.c:72-89 | one record on the state as a value: hits + misses grows by the record's accesses, and evictions grow by no more than misses |
| CacheSim.SimRunCounts | cache/cachelab-handout/csim.c:63-91 | after a whole trace, hits + misses has grown by the trace's accesses, and evictions by no more than misses |
| CacheSim.SimRunAppend | cache/cachelab-handout/csim.c:63-91 | records are simulated one after another in trace order: running two traces in turn is running their concatenation |
| CacheSim.InitOverrunsAllocation | cache/cachelab-handout/csim.c:50-51 | as written, `init_cache` allocates s sets, which is fewer than the 2^s its loop initialises, for every s |
| CacheSim.Cache.constructor | cache/cachelab-handout/csim.c:44-61 | 2^s sets of E lines, all invalid with tag -1 and age 0; counters at 0; the cache invariant holds |
| CacheSim.Cache.GetIndex | cache/cachelab-handout/csim.c:162-173 | the lowest line that is valid and holds the tag; -1 exactly when no valid line of the set holds it; the same line `HitLine` picks |
| CacheSim.Cache.FirstInvalid | cache/cachelab-handout/csim.c:175-183 | the lowest invalid line; -1 exactly when every line of the set is valid; the same line `FreeLine` picks |
| CacheSim.Cache.FindLRU | cache/cachelab-handout/csim.c:145-159 | a line with the largest age, the lowest such one (line 0 when all ages are 0); the same line `OldestLine` picks |
| CacheSim.Cache.OldestIsLeastRecent | cache/cachelab-handout/csim.c:145-159 | in a full set of a valid cache, the line with the largest age was touched before every other line |
| CacheSim.Cache.Update | cache/cachelab-handout/csim.c:131-143 | the touched line becomes valid with the tag and age 0; every other valid line of the set ages by exactly one; invalid lines and other sets are unchanged |
| CacheSim.Cache.Touch | cache/cachelab-handout/csim.c:131-143 | `update` keeps every set consistent: distinct tags, distinct ages ordered by recency, invalid lines as initialised |
| CacheSim.Cache.Placement | cache/cachelab-handout/csim.c:102-125 | hit iff a valid line holds the tag; a miss into a set that is not full takes its lowest invalid line; a miss into a full set evicts its least recently used line; no other line holds the tag; verdict and line are those `Choose` gives for the set as a value |
| CacheSim.Cache.Access | cache/cachelab-handout/csim.c:93-129 | one access: exactly one of hits and misses grows by one, evictions grows only on a miss into a full set, the line is placed as above and now holds the tag, other sets are unchanged, the access is recorded as the line's last use, and the invariant is kept; the new lines and counters, as a value, are `SimAccess` of the old ones |
| CacheSim.Cache.Step | cache/cachelab-handout/csim.c:72-89 | L and S access the record's address once, M twice with its second access a hit, any other record changes nothing; the first access is a hit exactly when the address's set held its tag, an eviction exactly when it did not and the set was full; the counters grow accordingly; the line returned now holds the tag with age 0, every other line of the set has aged once (L, S) or twice (M), and every other set is unchanged; the line chosen is the one that held the tag on a hit, the lowest invalid line on a miss, and the least recently used line on an eviction; the new lines and counters, as a value, are `SimStep` of the old ones |
| CacheSim.Cache.Run | cache/cachelab-handout/csim.c:63-91 | over a trace, hits + misses grows by the number of accesses of the trace, and evictions never exceed misses; the final lines and the three counters `printSummary` reports are `SimRun` of the initial state over the trace, record by record in order |
| CStrings.Find | proxy/proxylab-handout/proxy.c:98 | `strstr`: the first index where the pattern occurs, none when it occurs nowhere |
| CStrings.Tokens | proxy/proxylab-handout/proxy.c:103 | the fields `%s` reads are non-empty and hold no white space |
| CStrings.TokensSkipSpace | proxy/proxylab-handout/proxy.c:103 | white space before a field is skipped |
| CStrings.TokensOfWord | proxy/proxylab-handout/proxy.c:103 | a word ended by white space is read as one field and reading resumes after it |
| CStrings.EqualIgnoringCaseGet | proxy/proxylab-handout/proxy.c:104 | `strcasecmp(m, "GET") == 0` holds exactly for the eight case spellings of GET |
| CStrings.FirstToken | proxy/proxylab-handout/proxy.c:183 | `strtok`: no token exactly when the string holds only delimiters; a token is non-empty and free of the delimiter |
| CStrings.FirstTokenSkipDelimiter | proxy/proxylab-handout/proxy.c:183 | `strtok` skips delimiters before the token |
| CStrings.FirstTokenOfPrefix | proxy/proxylab-handout/proxy.c:183 | a token that does not start with the delimiter runs up to the next delimiter or the end |
| CStrings.ConcatNulFree | proxy/proxylab-handout/proxy.c:201 | appending NUL-free lines gives a NUL-free body |
| HttpCodec.HostFieldSplit | proxy/proxylab-handout/proxy.c:219-226 | cut at its first '/' and first ':', the text after the prefix splits into a host field without '/' whose first ':' is that ':', and a file name starting with '/' |
| HttpCodec.ParseUri | proxy/proxylab-handout/proxy.c:216-227 | host field ++ file name is the text after the first "http://"; the file name starts with '/'; host field and port hold no '/'; the port is what follows the host field's first ':' |
| HttpCodec.ParseAbsoluteUri | proxy/proxylab-handout/proxy.c:216-227 | "http://H:P/F" with no ':' or '/' in H and no '/' in P is parsable and yields host field H:P, port P, file name /F |
| HttpCodec.ConnectHost | proxy/proxylab-handout/proxy.c:183 | no host name exactly when the host field holds only ':'; the name is non-empty and free of ':'; for a field not starting with ':', it is the field's prefix up to its first ':' or its end |
| HttpCodec.ConnectHostOfField | proxy/proxylab-handout/proxy.c:183 | the connect name of a host field "H:P" with non-empty H is H |
| HttpCodec.ConnectHostOfUri | proxy/proxylab-handout/proxy.c:183 | the connect name is the part of the parsed host field before its first ':' when that part is non-empty |
| HttpCodec.RewriteVersion | proxy/proxylab-handout/proxy.c:96-101 | the length is unchanged; without "HTTP/1.1" the line is unchanged; otherwise its first occurrence now reads "HTTP/1.0" and every other character is unchanged |
| HttpCodec.RewriteDropsFirstOccurrence | proxy/proxylab-handout/proxy.c:97-101 | after the rewrite, "HTTP/1.1" occurs exactly where it did before, except at its first occurrence |
| HttpCodec.VersionOfClientLine | proxy/proxylab-handout/proxy.c:98 | in "head SP HTTP/1.1 CRLF", where head does not mention "HTTP/1.1", `strstr` finds the version field |
| HttpCodec.ParseRequestLine | proxy/proxylab-handout/proxy.c:96-105 | accepted exactly when the first field of the rewritten line is GET in any case; then the method and the URI are the first two fields of the rewritten line, and the method is one of GET's eight spellings |
| HttpCodec.ParseOneWordLine | proxy/proxylab-handout/proxy.c:103-105 | a line holding only a method other than GET is readable and refused with NotImplemented |
| HttpCodec.TokensOfRequestLine | proxy/proxylab-handout/proxy.c:103 | "method SP uri SP version CRLF" reads as exactly those three fields |
| HttpCodec.ParseClientRequestLine | proxy/proxylab-handout/proxy.c:96-105 | a client line "m SP u SP HTTP/1.1 CRLF" is rewritten to HTTP/1.0 in its version field alone, and reads as (m, u) when m is GET in any case, and as NotImplemented otherwise |
| HttpCodec.BuildRequest | proxy/proxylab-handout/proxy.c:167-177 | the built request is exactly the eight forwarded lines, each ended by CRLF, in order |
| HttpCodec.SplitJoin | proxy/proxylab-handout/proxy.c:167-177 | lines without CR, joined with CRLF, split back into the same lines |
| HttpCodec.BuildRequestLines | proxy/proxylab-handout/proxy.c:167-177 | read line by line, the request is the request line with HTTP/1.0, then Host, Filename, Method, User-Agent, Connection, Proxy-Connection and the empty line |
| HttpCodec.ForwardedRequestLineFields | proxy/proxylab-handout/proxy.c:167 | the forwarded request line reads as method, file name and HTTP/1.0 |
| HttpCodec.GetFiletype | proxy/proxylab-handout/proxy.c:267-279 | the type of the first extension of the table (.html, .gif, .png, .jpg) that occurs anywhere in the name; "text/plain" exactly when none does |
| ProxyCache.FindCached | proxy/proxylab-handout/proxy.c:281-291 | the lowest in-use slot holding the URI; none exactly when no in-use slot holds it |
| ProxyCache.FirstEmpty | proxy/proxylab-handout/proxy.c:146-153 | the lowest slot marked empty; none exactly when every slot is in use |
| ProxyCache.Inserted | proxy/proxylab-handout/proxy.c:146-153 | the block goes into the first empty slot and every other slot is unchanged; a full cache is unchanged |
| ProxyCache.InsertPreservesInvariant | proxy/proxylab-handout/proxy.c:146-153 | inserting after a failed lookup keeps in-use URIs unique and every cached object NUL-free and below MAX_OBJECT_SIZE |
| ProxyCache.InsertThenLookup | proxy/proxylab-handout/proxy.c:146-153 | after a miss, a block that is not marked empty lands in the first empty slot, and the next lookup of its URI finds it there |
| ProxyCache.InsertKeepsOtherLookups | proxy/proxylab-handout/proxy.c:146-153 | inserting changes no lookup of another URI, and inserting an empty-marked block changes no lookup at all |
| ProxyCache.ObjectCache.constructor | proxy/proxylab-handout/proxy.c:46-53 | every one of the 1024 slots starts marked empty, and the cache invariant holds |
| ProxyCache.ObjectCache.Lookup | proxy/proxylab-handout/proxy.c:281-291 | `get_Cache` returns the slot FindCached names, and -1 exactly when there is none |
| ProxyCache.ObjectCache.Insert | proxy/proxylab-handout/proxy.c:146-153 | the block is copied into the first empty slot and every other slot is unchanged; a full cache is unchanged |
| Proxy.ForwardRequest | proxy/proxylab-handout/proxy.c:158-214 | sends the built request to the `strtok` host name; relays every response line in order; the block keeps the concatenated response exactly when its size is below MAX_OBJECT_SIZE, and is marked empty otherwise |
| Proxy.MissBlock | proxy/proxylab-handout/proxy.c:135-138 | the block is keyed by the URI with LRU 0; it is marked empty exactly when the response reaches MAX_OBJECT_SIZE, and otherwise holds the concatenated response; it is storable when the response lines are |
| Proxy.ForwardAndStore | proxy/proxylab-handout/proxy.c:133-153 | a miss forwards the built request and relays the response, inserts the miss block, keeps the cache invariant, makes a small response findable under its URI, and changes no other URI's lookup |
| Proxy.HandleRequest | proxy/proxylab-handout/proxy.c:85-156 | end of input does nothing; a non-GET method is refused; a hit serves the cached object and leaves the cache alone; a miss forwards and inserts, keeps the cache invariant, makes a small response findable under its URI, and changes no other URI's lookup |

## Findings

| source | as written | input that shows it | evidently intended | confidence | as-written member | corrected member |
|---|---|---|---|---|---|---|
| cache/cachelab-handout/csim.c:50 | `malloc(sizeof(set) * sets)` allocates `s` sets, but the loop at line 51 initialises `1 << s` of them | s = 1: one set is allocated and sets 0 and 1 are written (s = 0: nothing is allocated and set 0 is written) | allocate `1 << s` sets | not executed | CacheSim.InitOverrunsAllocation | CacheSim.Cache.constructor |

## Left out

- Sockets and threads: the accept loop, `thread`, the `&connfd` handoff, `Open_listenfd`, `Open_clientfd` and every `Rio_*` read and write are I/O or concurrency. The request line and the response lines are parameters instead, and the bytes written are results.
- Per-slot semaphores and the reader count: their locking code is commented out in `proxy.c`, so the model has no locking. The slot datatype drops those fields.
- `serve_static` is file I/O and is never called, so it is left out.
- Proxy.HandleRequest: assumes the client's header block ends with an empty line, and leaves `read_requesthdrs` out. When input ends before that line, `Rio_readlineb` returns 0 and leaves its buffer unchanged, so the loop never ends and the request is never forwarded or cached.
- `printf` tracing, `getopt` and `fopen`, the `fscanf` parsing of trace lines, the `verbose` flag and the printing done by `printSummary` are left out. The trace is given as a sequence of records, and the three counters `printSummary` prints are the cache's `hits`, `misses` and `evictions`.
- `update_cache` ignores its `size` argument, so accesses that straddle a block are not simulated, exactly as in `csim.c`.
- Integers are unbounded: the overflow of `int` ages, counters and `total_size` is not modelled.
- CacheSim.Cache.TagFor: the conversion of `address >> (s + b)` into a signed `int` is modelled as the unsigned value. The two differ only when s + b = 0 and the address is at least 2^31, and since the conversion is one-to-one, hits and misses are unaffected.
- CacheSim.Cache.constructor: requires E ≥ 1, s < 31 and s + b < 32. With E = 0 every access indexes past its set. Larger shifts are undefined in C.
- The leaked `cache_block` is left out: memory is not modelled.
- The `strcat` into the uninitialised `cache_buf` is modelled as appending to an empty buffer.
- For an oversized response, the object `strcpy` never fills is modelled as the empty string. The block is marked empty then, and no lookup returns it.
- The last element of the 1025-slot `cache` array is never read or written, so the model has 1024 slots.
- The `LRU` field is carried but never read: the proxy cache has no eviction.
- `MAXLINE` and `MAX_OBJECT_SIZE` buffer limits on the request line, URI and host fields are not modelled. Strings are unbounded.
- HttpCodec.ParseUri: requires `http://`, then a ':' before the first '/'. Otherwise `parse_uri` does arithmetic on a NULL pointer or copies a negative length.
- HttpCodec.ParseUri: the unterminated `strncpy` copies of the host field and the port are modelled as the copied characters alone.
- HttpCodec.ParseRequestLine: requires a method field, and a URI field after GET. Without them, `strcasecmp` or the cache lookup reads a buffer `sscanf` left uninitialised.
- Proxy.HandleRequest: requires a NUL-free request line. `strstr` and `sscanf` stop at a NUL, while the model reads the whole line.
- Proxy.HandleRequest: `unix_error` ends the whole process when the method is not GET. The model returns `Rejected(NotImplemented)` for that connection instead.
- Proxy.HandleRequest: requires the URI of a forwarded request to be parsable, as `ParseUri` does.
- Proxy.ForwardRequest: requires NUL-free, non-empty response lines. `strcat` and `strlen` stop at a NUL, and `Rio_readlineb` returns 0 only at end of input.
- Strings are sequences of `char`, and each `char` stands for one byte. For example, `total_size` adds up the byte counts `Rio_readlineb` returns, and `ForwardRequest` adds up the lengths of the response lines. No character encoding is modelled.
- The origin server's host name resolution and connection failure are not modelled. `Open_clientfd` is outside this model.
