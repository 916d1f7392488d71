# Verified model of the ys HTTP framework

ys is an HTTP framework in C. This project models the parts of it that carry state, arithmetic or protocol logic, in
the form the C code has (loops, buffers, heap nodes, fields updated in place), and proves what they promise. Each method
is tied by its `ensures` to a specification function; what the framework promises is then proved about those functions,
for every input, every history or every schedule.

| part | files | main results |
|---|---|---|
| request parser and read loop | `HttpSyntax`, `HttpPrefix`, `HttpStream`, `HttpFailure`, `HttpParser`, `HttpRoundTrip`, `HttpAnswers` | chunking does not matter for success, and exactly when it matters for failure; the parser decides a grammar; printing and parsing are inverse; when exactly it rejects and when it asks for more |
| hash table and hash set | `Counting`, `Primes`, `Probing`, `Growth`, `HashTable`, `HashSet`, `FullTables` | the table is a map, the set a set; probes cover every slot; the counted cut-off is exact |
| route trie | `Splitting`, `RoutePath`, `Routing`, `RouteTable`, `RouteParameters`, `RouteLabels`, `Trie`, `TrieTable` | the heap trie refines a map of label paths, and that map the list of routes, with and without parameters |
| thread pool | `ThreadPool`, `ThreadPoolRuns`, `GlueList` | safety in every interleaving, no lost wakeup, no deadlock, each job exactly once |
| IP addresses | `IpText`, `IpSyntax`, `IpValidator` | the scanner decides the grammar and computes the address |
| queries and cookies | `QueryText`, `QueryForms`, `CookieText`, `CookieLines`, `CookieAttributes`, `CookieDomains`, `CookieRoundTrip`, `CookieReading`, `CookieCodec` | round trips, with the exact condition where one fails; what every other text is read as |
| header keys | `HeaderKey`, `HeaderNames` | the canonical form is a complete case invariant |

`dafny verify dfyconfig.toml` checks the whole project.

## What the proofs show that the code does not say

- The read loop accepts the same requests however the bytes are cut, but not with the same errors. For bytes that hold no
  request, all cuts fail alike if and only if a condition on the bytes holds (`FailureSettledIff`): rejected bytes must not
  leave the guard of the call right behind the last accepted byte waiting for more, and unfinished bytes must not be
  rejected by any guard. `ErrorDependsOnChunks` is a two-byte stream that fails in two ways.
- The parser rejects bytes as soon as no more bytes can make them a head, but for two late cases (`IncompleteIff`): it
  looks at the version only once nine bytes are there, and at an empty method only once the target is over.
- `REQ_TOO_LONG` is never returned (`NeverTooLong`): the test on the buffer's length stands behind tests for every value
  a call can return, and a full buffer then reads zero bytes.
- A search in a table that has no free slot ends only for stored keys (`SearchStopsIff`). From five slots on the 70
  percent rule keeps a slot free (`RoomFromFive`); a full table has a base capacity of at most three (`FullIsSmall`), and
  each of those fills up (`TwoInTwo`, `ThreeInThree`). A full table of negative base capacity stays full for good
  (`TwoForGood`). One of base capacity one cannot take a third key, since the doubling gives two slots again
  (`OneDoublingTooFew`); but overwriting a stored key doubles it too, and the insertion after that makes room
  (`ThreeAfterOverwriting`). A set may fill up as well, as the singleton header set does, and `Contains` still answers.
- A registered path is found whatever parameter routes stand beside it (`RegisteredPathFound`), but there is no second
  try: "/a/b" hides "/:x/c" from the path "/a/c" (`NoSecondTry`). `SelectedAnswer` says on the list of routes which
  one a path reaches.
- In the trie a first unmatched segment that repeats a leaf's own label ends the walk at that leaf, as if the path
  stopped there (`WalkSound`, `FlatNode`).
- Printed cookies come back exactly if all are legal and either each has an attribute or none has one (and then no value
  is empty): one cookie without attributes makes the reader treat every line as plain pairs (`RoundTripIff`,
  `WhatComesBack`; `OneBareCookie` is a list of two that does not survive). A negative maximum age is printed as zero
  and ignored on reading, and a path with a quote or a backslash is printed but not read (`RecoveredIff`).
- Of the pairs that a browser sends in one line, as in "a=1; b=2", only the first is read: the others pass for unknown
  attributes (`BrowserPairsLost`).

## Model

| member | source | states |
|---|---|---|
| HttpParser.ParseToken | deps/picohttpparser/picohttpparser.c:239-273 | ends at the stop byte, rejects a byte that is no token character, and asks for more at the end of the bytes |
| HttpParser.AdvanceToken | deps/picohttpparser/picohttpparser.c:71-94 | ends at the next space; control bytes and DEL are errors, bytes above DEL are not |
| HttpParser.ScanToEol | deps/picohttpparser/picohttpparser.c:137-184 | the scan unrolled eight bytes at a time stops exactly where the byte-by-byte scan stops |
| HttpParser.GetTokenToEol | deps/picohttpparser/picohttpparser.c:137-200 | the value up to CRLF or LF, and where the next line starts |
| HttpParser.ParseHttpVersion | deps/picohttpparser/picohttpparser.c:276-292 | fewer than nine bytes ask for more; otherwise "HTTP/1." and one digit, and anything else is an error (`IncompleteIff`, `MalformedIff`) |
| HttpParser.ParseHeaderLine | deps/picohttpparser/picohttpparser.c:311-349 | one header or continuation line, its value trimmed at the end |
| HttpParser.ParseHeaders | deps/picohttpparser/picohttpparser.c:294-352 | the header slots hold, in order, the fields of the grammar; too many are an error |
| HttpParser.ParseRequest | deps/picohttpparser/picohttpparser.c:354-398 | the whole head: leading empty line, request line, headers |
| HttpParser.IsComplete | deps/picohttpparser/picohttpparser.c:202-228 | the search for two line ends in a row from three bytes before the earlier length |
| HttpParser.PhrParseRequest | deps/picohttpparser/picohttpparser.c:400-428 | the guard for a repeated call, then the parser; length, -1 or -2, which `MalformedIff` and `IncompleteIff` fix on the bytes |
| HttpStream.Receive | src/request.c:50-61 | a read takes no more than there is room for, in order, loses nothing, and is empty only at the end of input or without room |
| HttpParser.Connection.Read | src/request.c:50-61 | the bytes read and those still to come are together those that were to come; nothing is read only at the end of input or without room |
| HttpParser.ReadAndParse | src/request.c:48-92 | the loop over a buffer of 4096 bytes and 100 headers, with its tests on the returned int and on the buffer's length, has the outcome of the streaming specification |
| HttpPrefix.ParseStable | deps/picohttpparser/picohttpparser.c:239-398 | success or error on a prefix is the answer on every extension, with the same length and slices; a success is there once its bytes are |
| HttpStream.ParsedHead | deps/picohttpparser/picohttpparser.c:137-200 | a head that parses has no CR without LF and ends with the blank line |
| HttpStream.ScanFindsBlank | deps/picohttpparser/picohttpparser.c:202-228 | started at or before the first of the two line ends, the scan finds the end inside the head |
| HttpStream.ScanNeverRejects | deps/picohttpparser/picohttpparser.c:202-228 | before the head is complete the scan reports no error |
| HttpStream.CallAtBoundary | deps/picohttpparser/picohttpparser.c:400-428 | at every chunk boundary of a stream that parses: -2 until the head is complete, then its answer, so restarting at `last_len - 3` misses nothing |
| HttpStream.StreamingEqualsOneShot | src/request.c:48-92 | for all bytes and all cuts into non-empty chunks the loop succeeds iff one call on all the bytes does, with the same request and length |
| HttpStream.ReceivedIs | src/request.c:48-92 | on success the loop holds all bytes of the chunks read so far, as far as they fit, and has read none behind the one that completed the head |
| HttpFailure.RejectionIsFinal | src/request.c:74-77 | no continuation of a stream the loop rejected parses |
| HttpFailure.ErrorDependsOnChunks | src/request.c:66-82 | the same two bytes give a parse error in one chunk and an I/O error in two |
| HttpFailure.FailsAs | src/request.c:48-88 | if the condition on the bytes holds, every cut fails with a parse error when the parser rejects the bytes and with an I/O error otherwise |
| HttpFailure.FailureSettledIff | src/request.c:48-88 | for bytes that hold no request, all cuts into non-empty chunks give the same failure iff the condition on the bytes holds |
| HttpFailure.StillStops | deps/picohttpparser/picohttpparser.c:202-228 | a scan that runs out of the received bytes and would end later ends as well when it restarts at `last_len - 3` |
| HttpFailure.EarlierStops | deps/picohttpparser/picohttpparser.c:202-228 | a scan started earlier ends whenever one started later does |
| HttpFailure.NeverTooLong | src/request.c:70-87 | the too-long branch is dead; a full buffer ends in an I/O error |
| HttpRoundTrip.PrintThenParse | deps/picohttpparser/picohttpparser.c:294-398 | every printed head (sections 3.1.1 and 3.2 of RFC 7230, and the looser layouts the code takes) followed by any bytes parses to its texts and its length |
| HttpRoundTrip.ParseThenPrint | deps/picohttpparser/picohttpparser.c:294-398 | whatever parses is a printing of the texts found |
| HttpRoundTrip.ParserDecidesGrammar | deps/picohttpparser/picohttpparser.c:294-428 | head length and message are found iff the input starts with a printing of them |
| HttpAnswers.IncompleteIff | deps/picohttpparser/picohttpparser.c:239-398 | -2 exactly for the proper prefixes of the heads it accepts and in two late cases: fewer than nine bytes behind the target that no version starts with, and a line that starts with a space and holds no more than a target |
| HttpAnswers.MalformedIff | deps/picohttpparser/picohttpparser.c:239-398 | -1 exactly for the bytes that hold no head, are no part of one and are no late case |
| HttpAnswers.ParseGrows | deps/picohttpparser/picohttpparser.c:239-398 | outside the late cases, the bytes that complete what it asks for more of |
| HttpAnswers.TooShortAsksForMore | deps/picohttpparser/picohttpparser.c:276-282 | fewer than nine bytes behind the target ask for more, whatever they are |
| HttpAnswers.NoMethodAsksForMore | deps/picohttpparser/picohttpparser.c:367-383 | an empty method is noticed only once something stands behind the target |
| HttpAnswers.BlankLineAnswers | deps/picohttpparser/picohttpparser.c:202-228 | the scan stops behind the first two line ends in a row; a CR without LF before them is an error; without either it asks for more |
| HttpAnswers.TokenByteIff | deps/picohttpparser/picohttpparser.c:96-104 | the token bytes are the visible ASCII characters but for the delimiters of section 3.2.6 of RFC 7230 |
| HttpAnswers.OtherBytesIff | deps/picohttpparser/picohttpparser.c:71-94 | targets exclude spaces, control bytes and DEL; values exclude control bytes but for the tab, and DEL |
| HttpAnswers.WordsSpelled | deps/picohttpparser/picohttpparser.c:283-289 | the version starts with "HTTP/1."; line ends are CRLF or LF |
| Primes.IsPrime | deps/libhash/prime.c:11-27 | trial division by odd numbers up to the square root decides primality for every integer |
| Primes.NextPrime | deps/libhash/prime.c:36-42 | the search ends, with the least prime not below its start |
| Primes.PrimeAbove | deps/libhash/prime.c:36-42 | there is a prime above every bound |
| Primes.NoZeroDivisors | deps/libhash/hash.c:47-52 | modulo a prime, a product of non-zero residues is not zero |
| Primes.NextPrimeBelowDouble | deps/libhash/hash_table.c:105-118 | in the range of the C ints the next prime is less than twice the base capacity |
| Probing.ProbesDistinct | deps/libhash/hash.c:47-52 | different attempts below the capacity probe different slots |
| Probing.ProbesCover | deps/libhash/hash.c:47-52 | the first `capacity` attempts hit every slot |
| Probing.ProbeFitsInt | deps/libhash/hash.c:51 | no product formed while probing leaves the 32-bit int range |
| Probing.KeyOnce | deps/libhash/hash_table.c:138-154 | a key is stored in at most one slot |
| Probing.FreeMeansAbsent | deps/libhash/hash_table.c:162-172 | a free slot on the probe sequence proves the key absent |
| Probing.PassesBound | deps/libhash/hash_set.c:146-150 | as many probes as keys settle membership, since they met distinct keys |
| Probing.CountBound | deps/libhash/hash_set.c:146-150 | there are at most as many keys as slots, and as many exactly when no slot is free |
| Probing.SearchStopsIff | deps/libhash/hash_table.c:157-173 | a search ends iff the key is stored or a slot is free |
| Probing.StoreFresh | deps/libhash/hash_table.c:153-154 | filling the free slot that ends the probe sequence adds the key and keeps every other key reachable |
| Probing.StoreOver | deps/libhash/hash_table.c:140-145 | overwriting the key's slot changes that value only |
| Growth.LoadIff | deps/libhash/hash_table.c:125-128 | what the truncated load percentage says about count and capacity |
| Growth.GrownCapacity | deps/libhash/hash_table.c:61-65 | doubling the base capacity leaves room for all records without growing again |
| Growth.MovedStep | deps/libhash/hash_table.c:32-38 | each copied record is new to the larger table and adds exactly itself |
| HashTable.HashTable.constructor | deps/libhash/hash_table.c:105-118 | an empty map over the least prime number of slots from the base capacity on, which may be one or negative |
| HashTable.HashTable.Insert | deps/libhash/hash_table.c:120-155 | the map with the key set to the value; `count` stays the map's size; grows exactly above 70 percent; a full table that cannot grow takes stored keys only |
| HashTable.HashTable.Place | deps/libhash/hash_table.c:130-154 | the probe loop ends and stores the key, overwriting a present one |
| HashTable.HashTable.CopyInto | deps/libhash/hash_table.c:32-38 | rehashing every record gives the same map, without growing on the way |
| HashTable.HashTable.ResizeUp | deps/libhash/hash_table.c:25-65 | a resize leaves the map and its count unchanged, in a new, larger slot array from base capacity two on |
| HashTable.HashTable.RoomFromFive | deps/libhash/hash_table.c:125-128 | from five slots on there is always a free slot |
| HashTable.HashTable.Search | deps/libhash/hash_table.c:157-173 | the record of the key as the map has it, or none; the loop ends |
| HashTable.HashTable.Get | deps/libhash/hash_table.c:175-179 | the value of the key as the map has it, or none |
| FullTables.FullIsSmall | deps/libhash/hash_table.c:120-155 | a table without a free slot has a base capacity of at most three |
| FullTables.ThreeInThree | deps/libhash/hash_table.c:120-173 | three insertions into a table of base capacity three fill it; a search for any other key never ends |
| FullTables.TwoInTwo | deps/libhash/hash_table.c:120-173 | with base capacity one, two or below zero two insertions fill the table; a search for any other key never ends |
| FullTables.TwoForGood | deps/libhash/hash_table.c:25-65 | a resize leaves a full table of negative base capacity as it is |
| FullTables.OneDoublingTooFew | deps/libhash/hash_table.c:61-155 | the resize before an insertion gives a full table of base capacity one base capacity two and two slots again, so the probe for a new key never ends |
| FullTables.ThreeAfterOverwriting | deps/libhash/hash_table.c:61-155 | if a stored key is overwritten first, the insertion of a third key doubles once more, to at least five slots, and ends |
| HashSet.HashSet.constructor | deps/libhash/hash_set.c:84-97 | an empty set over the least prime number of slots from the base capacity on, which may be one or negative |
| HashSet.HashSet.Insert | deps/libhash/hash_set.c:99-130 | the set with the key added |
| HashSet.HashSet.Place | deps/libhash/hash_set.c:109-129 | the probe loop ends and adds the key once |
| HashSet.HashSet.CopyInto | deps/libhash/hash_set.c:30-36 | rehashing every key gives the same set, without growing on the way |
| HashSet.HashSet.ResizeUp | deps/libhash/hash_set.c:23-63 | a resize leaves the set and its count unchanged |
| HashSet.HashSet.CountIsSize | deps/libhash/hash_set.c:129 | `count` is the size of the set |
| HashSet.HashSet.Contains | deps/libhash/hash_set.c:132-154 | the loop that gives up after `count` probes answers membership at every fill level and capacity, asking only for well-formed, counted slots, and ends on a full set |
| RoutePath.CutQuery | src/url.c:122-146 | the two parts joined by '?' are the text, with no further '?' on either side, a query that is not empty and no '#' in the path; the text is left whole exactly if it has no such parts |
| RoutePath.QueryCutIff | src/trie.c:129-141 | a path and a query joined by '?' come apart iff the query is neither empty nor holds another '?' and the path holds no '#' |
| Splitting.SplitText | src/util.c:21-72 | the loop over delimiters yields the tokens of `SplitIff`; a text without the delimiter yields none |
| Splitting.SplitIff | src/util.c:21-72 | the tokens are `ws` iff the delimiter occurs and the text is `ws` laid out with any number of delimiters at both ends and at least one between two tokens; otherwise there are none |
| Splitting.SplitIsTokens | src/util.c:53-67 | every token is non-empty and free of the delimiter |
| Splitting.SplitOfDelimited | src/util.c:53-67 | every list of tokens comes back from the text that delimits them |
| Routing.InsertMeans | src/trie.c:72-120 | an insertion adds the path's nodes, gives its last node the handler for its methods, and leaves all other label paths' actions unchanged |
| Routing.WalkUnique | src/trie.c:143-221 | with at most one parameter child per node the order of the children does not matter |
| Routing.WalkSound | src/trie.c:143-221 | labels line up with segments: equal, or a parameter whose pattern matches and no literal child exists; left-over segments only behind a leaf that repeats its label |
| Routing.LastBindingWins | src/trie.c:196-197 | a parameter holds the segment of the last label that binds its key |
| Routing.UnboundKeyKept | src/trie.c:196-197 | a key no label binds keeps what it had |
| RouteTable.BuildMeans | src/trie.c:72-120 | after any run of registrations the nodes are the known paths and the actions the latest handlers |
| RouteParameters.TargetIff | src/trie.c:72-90 | "/" registers at the root, any other path at its segments, if it has any |
| RouteTable.TrieRefinesTable | src/trie.c:122-249 | for literal routes every search answers as the flat table: latest handler, not allowed, or not found |
| RouteTable.RegisteredPathFound | src/trie.c:122-249 | among any routes, with parameters or without, every search for a registered path and method answers with the latest handler registered for it |
| RouteParameters.WalkReachesIff | src/trie.c:143-222 | the walk can end at a node iff its labels line up with the segments and none are left over, or it is a leaf whose label the next segment repeats |
| RouteParameters.OneParameterIff | src/trie.c:166-214 | each node has at most one parameter child iff no two routes with the same labels up to some place have different parameters there |
| RouteParameters.SelectsIff | src/trie.c:143-222 | the labels the walk can end at, and their bindings, read off the list of routes |
| RouteParameters.FailsIff | src/trie.c:183-188 | the walk can fail iff the segments lead to a parameter whose pattern does not compile |
| RouteParameters.SelectedAnswer | src/trie.c:122-249 | with one parameter at each place a path selects at most one list of labels and is answered there with its bindings; otherwise the search fails exactly for a pattern that does not compile, and finds nothing in all other cases |
| RouteParameters.NoSecondTry | src/trie.c:190-194 | beside "/a/b" the route "/:x/c" does not answer "/a/c", which it selects alone |
| RouteLabels.KeyIff | src/path.c:31-40 | a parameter label binds exactly the name it shows: the text behind the colon, up to a bracket or the end |
| RouteLabels.PatternIff | src/path.c:19-29 | a label asks for exactly the pattern between its first brackets, and for "(.+)" without both brackets |
| RouteLabels.LabelMeans | src/path.c:19-40 | ":name" and ":name[pattern]" bind `name` and ask for "(.+)" and for `pattern` |
| RouteLabels.ParameterHolds | src/trie.c:196-197 | along the labels of a search each name holds the segment at the last label that shows it |
| RouteLabels.ParameterFound | src/trie.c:122-249 | among any routes with one parameter at each place, a path of one segment that no route has literally is answered by the parameter's handler, with the segment under the parameter's name |
| Trie.RouteTrie.constructor | src/trie.c:59-70 | a root without label, children and actions |
| Trie.RouteTrie.AddActions | src/trie.c:108-113 | every method of the list gets the handler, other methods keep theirs |
| Trie.RouteTrie.Descend | src/trie.c:93-102 | the child with the label, created if missing; no other node changes |
| Trie.RouteTrie.Insert | src/trie.c:72-120 | the heap after an insertion is the map-level insertion |
| Trie.RouteTrie.RegexCacheGet | src/cache.c:5-19 | the cached handle is the one compiling would give; a pattern that compiles is cached, nothing else changes |
| Trie.RouteTrie.FindParameter | src/trie.c:166-176 | a parameter child under its own label, or none when there is none, in any slot order |
| Trie.RouteTrie.TryParameter | src/trie.c:166-214 | the first parameter decides: not found, failure, or on to that child; the second lookup cannot miss |
| Trie.RouteTrie.WalkDown | src/trie.c:143-222 | the loop over the segments takes the map-level walk and ends at its node; every parameter it binds has a name |
| Trie.RouteTrie.Search | src/trie.c:122-249 | query cut off, then the answer of the map-level walk: handler and parameters, not found, not allowed or failure; the trie is unchanged. What the labels bind is fixed by `KeyIff` and `PatternIff` |
| TrieTable.Serve | src/trie.c:72-249 | any literal routes registered in a heap trie: a search there answers as looking through the list does |
| TrieTable.ServeParameters | src/trie.c:72-249 | any routes with one named parameter at each place, registered in a heap trie: a search there answers at the labels the path selects |
| TrieTable.ServeParameter | src/trie.c:72-249 | one route with a parameter, registered in a heap trie: a segment its pattern matches is answered with `Found(h, map[name := seg])` |
| ThreadPool.InitSafe | src/server.c:148-168 | the pool filled with threads that are not created yet satisfies the invariant |
| ThreadPool.StepSafe | deps/lib.thread/thread_pool.c:46-181 | every lock, unlock, wait, signal and access of dispatcher and workers keeps the invariant |
| ThreadPoolRuns.ListedThreadsWait | deps/lib.thread/thread_pool.c:125-140 | while the pool mutex is free, every listed thread is uncreated or waiting |
| ThreadPoolRuns.SignalIsHeard | deps/lib.thread/thread_pool.c:150-165 | a dispatch starts or wakes a thread that notices, with its argument in place; no wakeup is lost |
| ThreadPoolRuns.RefusedOnlyWhenAllBusy | deps/lib.thread/thread_pool.c:46-62 | no thread is found only when all threads are busy |
| ThreadPoolRuns.ThreadsConserved | deps/lib.thread/thread_pool.c:46-140 | listed, busy and in-hand threads always add up to those inserted |
| ThreadPoolRuns.StepAccounted | deps/lib.thread/thread_pool.c:74-181 | accepted jobs are those that ran and those a thread still holds, kept by every step |
| ThreadPoolRuns.RunSafe | deps/lib.thread/thread_pool.c:46-181 | safety and the job account hold in every state of every run |
| ThreadPoolRuns.BlockingDispatchRuns | src/server.c:142 | with one thread or more a blocking dispatcher is never refused, and when it returns the routines that ran are the dispatched ones, in order, with their own arguments |
| ThreadPoolRuns.StepDescends | deps/lib.thread/semaphore.c:22-53 | every step but a new dispatch brings the system closer to rest |
| ThreadPoolRuns.NoDeadlock | deps/lib.thread/semaphore.c:22-66 | unless all is at rest, some step is possible |
| ThreadPoolRuns.EveryScheduleComesToRest | deps/lib.thread/thread_pool.c:74-181 | under every schedule the dispatch under way and all routines finish within a bound |
| ThreadPoolRuns.AcceptedJobsRan | deps/lib.thread/thread_pool.c:174-181 | at rest each job has run exactly as often as it was accepted |
| ThreadPoolRuns.EveryDispatchEnds | deps/lib.thread/thread_pool.c:74-114 | in every run each dispatch that is over was accepted or refused, and jobs are accepted in the order in which they were dispatched |
| GlueList.InsertAfter | deps/lib.cartilage/glthread.c:32-43 | the chain with the node behind the mark, linked in both directions |
| GlueList.Remove | deps/lib.cartilage/glthread.c:70-90 | the chain without the node, and the node detached |
| GlueList.DequeueFirst | deps/lib.cartilage/glthread.c:202-211 | takes the node inserted last behind the head, detached, or null on an empty list |
| GlueList.PriorityInsert | deps/lib.cartilage/glthread.c:151-194 | the node stands behind all elements it is not less than, before the first it is less than |
| GlueList.RankKeepsSorted | deps/lib.cartilage/glthread.c:179-193 | inserting there keeps a sorted list sorted, adds one key and puts it behind its equals |
| GlueList.PriorityInsertKeys | deps/lib.cartilage/glthread.c:151-194 | the same about the elements of the list after the insertion |
| IpValidator.Xtoi | src/ip.c:28-67 | the value of the leading hex digits and their number, or failure from the overflow limit on |
| IpValidator.Dtoi | src/ip.c:73-103 | the same for decimal digits |
| IpText.DigitValueIff | src/ip.c:28-103 | the digits and their values, written out |
| IpValidator.ParseDotted | src/ip.c:128-178 | reads four octets exactly as the specification does |
| IpValidator.ExpandEllipsis | src/ip.c:285-302 | the overlapping shift and the zero fill leave prefix, zeros and suffix, sixteen entries in all |
| IpValidator.ValidateIPv6 | src/ip.c:184-311 | accepts iff the specification does, and the sixteen entries then are those it gives, except for "::" alone, where none is written; every write is in bounds |
| IpValidator.ValidateIp | src/ip.c:313-328 | the first dot or colon chooses the scanner |
| IpSyntax.ParseIPv4Iff | src/ip.c:128-178 | accepted with given entries iff the text is four decimals up to 255 without leading zeros and the entries are those numbers, stored through a signed `char` |
| IpSyntax.IPv4Bytes | src/ip.c:132-172 | each entry, taken as a byte, is the octet; it is negative exactly from 128 on |
| IpSyntax.GroupBytes | src/ip.c:245-248 | the two entries of a group, taken as bytes, are its high and low byte; the second one holds more exactly from 256 on |
| IpSyntax.ParseIPv6Iff | src/ip.c:184-311 | accepted with given entries iff the text has a reading in the grammar of section 2.2 of RFC 4291 (groups of any digit count up to 0xFFFF) that fills those entries |
| IpSyntax.ValidateIff | src/ip.c:313-328 | `validate_ip` holds iff the text is an IPv4 or IPv6 form |
| QueryText.Unescape | src/url.c:10-67 | decodes percent sequences and plus signs, or fails on a malformed sequence anywhere; `UnescapedIff` says for which texts and to what |
| QueryForms.UnescapedIff | src/url.c:10-67 | the result is `s` iff the text is an encoding of `s` (each byte itself, '+' for a space, or '%' and two digits of either case), and it fails iff the text encodes nothing |
| QueryForms.UnhexIff | src/util.c:115-126 | a digit has the value of its place in "0123456789abcdef", in either case |
| QueryText.UnescapeInvertsEscape | src/url.c:10-67 | percent-encoding (section 2.1 of RFC 3986, plus for space) is undone, for every text without NUL |
| QueryText.ParseQuery | src/url.c:69-120 | the table groups the pairs of the query by key, values in order |
| QueryText.PairsOfQuery | src/url.c:69-120 | every list of non-empty pairs comes back in order from the query printed for it |
| QueryForms.PairOfIff | src/url.c:82-108 | a piece gives a pair iff it has something on both sides of its first '=', both well encoded, and no ';' |
| QueryForms.PairsOfPieces | src/url.c:72-118 | a query is read piece by piece between ampersands; a piece without a pair takes no other with it |
| QueryText.NoValueLost | src/url.c:110-116 | a value occurs under a key as often as the pair occurs |
| CookieCodec.Sanitize | src/cookie.c:31-60 | the text without its illegal characters, itself if it has none |
| CookieCodec.IsValidDomainName | src/cookie.c:103-170 | the scan with its early exits decides what `IsDomainName` says |
| CookieCodec.IsValidDomain | src/cookie.c:176-186 | a domain name or an IPv4 address |
| CookieCodec.ParseCookieValue | src/cookie.c:204-225 | strips one pair of quotes where allowed and fails on an illegal character |
| CookieCodec.Serialize | src/cookie.c:257-337 | name, value and attributes, piece by piece; nothing for an invalid name |
| CookieCodec.ReadBrowserCookie | src/cookie.c:339-381 | the plain pairs of all lines |
| CookieCodec.ReadInto | src/cookie.c:438-497 | the attributes, trimmed and read one after the other into the cookie, as `KnownSets`, `UnknownIgnored` and `PartReads` say |
| CookieCodec.Read | src/cookie.c:387-505 | the cookies of all lines, or the plain pairs of all lines once one line has no part; `BrowserPairsLost` says what that means for browsers |
| CookieDomains.DomainNameIff | src/cookie.c:103-170 | a valid domain name is at most 255 characters of dotted labels of at most 63 letters, digits and inner dashes, with a letter somewhere; one dot may follow the last label |
| CookieLines.QuotedBack | src/cookie.c:204-244 | quoting a value is undone by reading it |
| CookieLines.SplitLine | src/cookie.c:399-410 | a printed line splits into its pair and its attributes |
| CookieAttributes.AtoiBack | src/cookie.c:474-485 | a printed age is read back |
| CookieRoundTrip.ReadPrinted | src/cookie.c:438-497 | reading all printed attributes in order recovers each field |
| CookieRoundTrip.LineBack | src/cookie.c:396-502 | one printed line is read with all its attributes iff it has one |
| CookieRoundTrip.PlainLine | src/cookie.c:347-378 | read as plain pairs, a printed line is its name and value alone, or nothing if the value is empty |
| CookieRoundTrip.WhatComesBack | src/cookie.c:257-505 | what every list of cookies turns into when printed and read |
| CookieRoundTrip.RecoveredIff | src/cookie.c:227-337 | a cookie with an attribute is recovered iff its value, path, domain, expiry and age are legal |
| CookieRoundTrip.BareIff | src/cookie.c:268-334 | a legal cookie prints no attribute iff path, domain, expiry, age, flags and site mode are all unset |
| CookieRoundTrip.OneBareCookie | src/cookie.c:387-505 | of two legal cookies, one without and one with an attribute, the second comes back without it |
| CookieRoundTrip.RoundTripIff | src/cookie.c:257-505 | a list survives iff all are legal and each has an attribute, or none has one and no value is empty |
| CookieReading.KnownSets | src/cookie.c:458-496 | each of the seven attribute names, in any case and with any value, sets its own field and no other |
| CookieReading.UnknownIgnored | src/cookie.c:458-496 | a name that is none of the seven leaves the cookie as it was |
| CookieReading.ReadingKeepsPair | src/cookie.c:438-497 | no list of attributes changes the cookie's name or value |
| CookieReading.PartReads | src/cookie.c:445-457 | a trimmed attribute counts iff its name is not empty and its value is legal; the value starts behind the first '=' |
| CookieReading.LineReadsIff | src/cookie.c:415-436 | a line gives a cookie iff its first part is a name, or a name and a legal value, with quotes or without; then it has that name and value |
| CookieReading.AtoiOf | src/cookie.c:474-485 | blanks, a sign, then the decimal number up to the first other character |
| CookieReading.LowerCaseIs | deps/libutil/str.c:115-121 | the case of the 26 letters does not count, and nothing else is changed |
| CookieReading.LetterIff | src/cookie.c:103-150 | the letters of a domain name are those of the alphabet, in either case |
| CookieReading.ParseValueIff | src/cookie.c:204-225 | a raw value is read as `v` iff it is `v`, or `v` in quotes where allowed, and `v` is legal |
| CookieReading.PlainPairIff | src/cookie.c:356-374 | which texts are plain pairs: a name, '=' and a legal value that is not empty, with quotes or without |
| CookieReading.PlainPairOrNone | src/cookie.c:356-374 | every other text between semicolons gives nothing |
| CookieReading.PlainPairsOfParts | src/cookie.c:347-378 | plain reading takes the texts between semicolons one by one |
| CookieReading.BrowserPairsLost | src/cookie.c:387-505 | of several pairs in one line, none but the first named as an attribute, only the first is read |
| CookieReading.QuotedWhereNeeded | src/cookie.c:230-266 | a printed pair has quotes iff it has a comma or a blank, and then around all of them |
| CookieReading.FullText | src/cookie.c:257-337 | the order and the spelling of the printed attributes |
| CookieReading.PrintedIff | src/cookie.c:83-95 | a cookie is printed unless its name is empty or has a character that is no token character |
| CookieReading.ValueCharIff | src/cookie.c:62-76 | values may hold the octets of section 4.1.1 of RFC 6265, spaces and commas; paths any printable ASCII character but ';' |
| CookieReading.TrimOf | deps/libutil/str.c:152-168 | trimming takes away the blanks at both ends and nothing else |
| CookieReading.FilterOf | src/cookie.c:31-60 | sanitizing works character by character and keeps their order |
| CookieReading.FilterOne | src/cookie.c:31-76 | which single characters sanitizing drops, from a path and from a value |
| HeaderKey.CanonicalIff | src/header.c:132-171 | the canonical form is the one well-cased key that equals the token key without regard to case |
| HeaderKey.SameCanonicalIff | src/header.c:132-171 | two token keys have the same canonical form iff they differ only in case |
| HeaderKey.CanonicalTwice | src/header.c:132-171 | canonicalising twice changes nothing |
| HeaderNames.InitCommonHeaders | src/header.c:41-83 | the common set holds exactly the common names |
| HeaderNames.InitSingletonHeaders | src/header.c:91-97 | the singleton set holds its three names in three slots, all full |
| HeaderNames.CommonIsCanonical | src/header.c:41-83 | every common name is its own canonical form, so the shortcut changes no answer |
| HeaderNames.CanonicalMimeHeaderKey | src/header.c:132-171 | the rewriting loop and the shortcut compute the canonical form; a key with a byte that is no token character is unchanged |
| HeaderNames.ToCanonicalMimeHeaderKey | src/header.c:177-198 | the early exits compute the canonical form as well |

## Left out

Behaviour the model does not have:

- Sockets, TLS, `select`, signals, file reading, configuration, logging: input and output, and calls into code not in
  the repository. A connection is the list of chunks still to arrive; a failed read is an end of input.
- The SSE branch of the parser; the portable branch is modelled.
- The request body: `req_read_and_parse` keeps only what arrived together with the head.
- `h_hash`: an arbitrary function of key and capacity with a result below the capacity. The C code computes it with
  `pow` on doubles, and signed characters can make it negative.
- The bound `floor(sqrt(x))` of the trial division is `i * i <= x`.
- `ht_delete`, `hs_delete` and shrinking: a search stops at a deleted record, so the map refinement does not survive
  a deletion. Nothing in the framework itself deletes.
- HashTable.HashTable.constructor: a base capacity above 46337 is not covered; from there on the probe products can leave
  the range of the C ints.
- HashTable.HashTable.Insert: requires room to double within that range, and, for base capacities below two, a slot or
  a stored key, since the probe loop would not end.
- HashTable.HashTable.ResizeUp: requires room to double within that range.
- HashSet.HashSet.constructor: the same bound as for the table.
- HashSet.HashSet.Insert: the same two conditions as for the table.
- HashSet.HashSet.ResizeUp: the same bound as for the table.
- HashTable.HashTable.Search: on a full table (only below five slots) an absent key would be searched for forever.
- Trie.RouteTrie.WalkDown: the parameters that the segments come to bind must have names, since a bare ':' label is bound
  under a null key.
- Trie.RouteTrie.Search: the same, and a path that starts with its query leaves a null string. The query is handed back
  as text, not parsed. The root's
  label before "/" is registered, uninitialised in C, is modelled as unset. Regular expressions are a function from
  patterns to handles and a predicate that says what a handle matches.
- The children and actions of a trie node are maps in the model; that the C hash tables behave as maps is the result of
  `HashTable`. The order in which children are visited is arbitrary.
- ThreadPool.StepSafe: assumes no spurious wakeups, that threads can be created, that list nodes and semaphore pointers
  start out null, and one dispatcher; both kinds of dispatch are modelled, waiting for the routine or not.
- ThreadPool.StepSafe: `semaphore_destroy` also unlocks a mutex it does not hold and destroys it; the model only takes the
  semaphore away.
- Thread barriers, suspension flags and the circular list: not used by the server.
- GlueList.PriorityInsert: the comparator must return exactly -1 for "less", as the code tests for that value.
- `glthread_insert_before`, `glthread_push`, `glthread_del_list` and `glthread_size`: easy beside the operations kept.
- IpSyntax.ParseIPv6Iff: section 2.2 of RFC 4291 writes groups of one to four digits; the code takes any number of
  digits as long as the value fits 16 bits, and the theorem follows the code. The second entry of a group is stored
  without being masked to a byte. Octets go through a `char`, which is taken to be signed; where it is not, the entries
  from 128 on are the numbers themselves, and the bytes are the same.
- IpValidator.ValidateIPv6: for "::" alone nothing is promised about the entries, as the code returns before it writes
  any.
- QueryText.ParseQuery: an empty piece ("&" first, or "&&") reaches a null string in C and is excluded. "%00" decodes to
  nothing, as the decoded text is a C string.
- CookieRoundTrip.RoundTripIff: the date functions of the C library are a pair of functions, assumed inverse and printing
  legal text for the instants that are printed. Ages are unbounded integers, so the overflow of `atoi` is not modelled.
- CookieCodec.Serialize: a value all of whose characters are illegal, and the domain ".", reach null strings in C; the
  model treats them as an empty value and an invalid domain.
- CookieCodec.ParseCookieValue: the two-character value `""` reaches a null string in C; the model reads it as empty.
- CookieCodec.ReadInto: an attribute without a name ("=x") reaches a null string in C; the model skips it.
- Cookies are values in the model, so their aliasing with the request's strings is not captured.
- Memory management, string terminators and leaks; strings are sequences.
- Sub-router path peeling, middleware, CORS, MIME and status tables, cookie accessors, header insertion: they would only
  add easy members.
