# Eve core logic in Dafny

A model of the sequential, string- and map-level logic at the heart of the Eve agent
platform (Java), with proofs of what that logic promises. Five pieces are modelled.

- **Namespace dispatch** (`NamespaceUtil`). A call path such as `calendar.events.list`
  is split into a namespace prefix and a leaf method name. A cache maps
  `ClassName[.ns1.ns2…]` to the chain of accessor names that reaches the object
  serving that namespace. The chain is walked to produce a `CallTuple`.
  - The reflective accessors are an explicit namespace tree: the datatype `Obj`, whose
    `Accessor`s carry a namespace value, a method name and a target object. Because the
    datatype is inductive, the tree is finite and acyclic by construction.
  - The static cache is threaded through the calls as a value.
- **Game-of-Life cell** (`Cell`), in module `GameOfLife`.
  - The toroidal neighbour arithmetic, with Java's truncating `%` and `/`.
  - The `create` and `new_create` initialisations.
  - `putIfUnchanged` as a sequential compare-and-swap.
  - `calcCycle` as a transition over the agent's key/value state. It applies the B3/S23
    rule, writes `val_c` once, advances `current_cycle`, clears the neighbours' entries
    and repeats.
- **URL utilities** (`HttpUtil`).
  - `appendQueryParams`, `getQueryParams` and `removeQueryParams` work on the query
    component described in section 3.4 of RFC 3986.
  - `getTemplateParams`, `setTemplateParams`, `isTemplateParam` and `join` work on
    `/`-separated templates such as `http://host/:db/:id`.
  - `String.split`, `indexOf`, `Integer.toString` and `Integer.parseInt` are in module
    `JavaStrings`. A split with limit 0 drops trailing empty pieces, and a split with
    limit n keeps the rest in the last piece. `parseInt` reads an optional sign and ASCII
    decimal digits and fails outside the 32-bit `int` range.
- **Calendar helpers** (`GoogleCalendarAgent`), in module `GoogleCalendar`.
  - Moving the agent URL between the Eve shape `event.agent` and the Google shape
    `event.extendedProperties.shared.agent`, with Jackson's `with()` and cast failures.
  - The token expiry, with the clock as a parameter.
  - The `Authorization: token_type SP access_token` header of section 2.1 of RFC 6750.
  - The classification of error replies in `getEvent` and `deleteEvent`.
- **File context registry** (`FileContextFactory`), in module `FileContexts`. It covers
  path normalisation, file names, and create-once / delete-idempotent semantics over an
  abstract set of existing file names.

Module `Results` holds the `Option` and `Result` types. Errors that the Java code throws
are `Failure` values or outcome constructors. Examples:
- the "Non resolveable path" exception;
- a `ClassCastException` from `(ObjectNode)` casts;
- the `ArrayIndexOutOfBoundsException` that `getTemplateParams` raises on a template made
  only of slashes;
- the `NullPointerException` that `calcCycle` raises when `Stopped` is missing, or when
  exactly two neighbours live and the cell's own previous state is missing.

Source paths below are relative to the repository root.

## Model

| member | source | states |
|---|---|---|
| NamespaceUtil.ReducedMethod | java/eve-core/src/main/java/com/almende/util/NamespaceUtil.java:33 | the leaf method name is a dot-free suffix of the path, and the whole path when the path has no `.` |
| NamespaceUtil.ReducedPath | java/eve-core/src/main/java/com/almende/util/NamespaceUtil.java:32 | with no `.` the prefix is empty; when the path has a `.` and does not end in one, prefix + "." + leaf rebuilds the path and the leaf is non-empty; an empty path or one ending in `.` is left as it is |
| NamespaceUtil.FullPath | java/eve-core/src/main/java/com/almende/util/NamespaceUtil.java:35-36 | the cache key is the class name, extended by "." + prefix only when the prefix is non-empty |
| NamespaceUtil.Populate | java/eve-core/src/main/java/com/almende/util/NamespaceUtil.java:19-27 | population writes a fixed set of entries over whatever was cached before, independent of that cache |
| NamespaceUtil.PopulateFromOverwrites | java/eve-core/src/main/java/com/almende/util/NamespaceUtil.java:19-27 | the recursive population from any accessor on equals the old cache overwritten by the entries of the reference definition |
| NamespaceUtil.EntriesFromRoot | java/eve-core/src/main/java/com/almende/util/NamespaceUtil.java:21-26 | the class's own key is always written, mapped to the split of its method list |
| NamespaceUtil.EntriesFromKeys | java/eve-core/src/main/java/com/almende/util/NamespaceUtil.java:21-26 | every key population writes is the path itself or lies under path + "." |
| NamespaceUtil.EntriesFromLacks | java/eve-core/src/main/java/com/almende/util/NamespaceUtil.java:21-26 | a key that no remaining accessor's subtree writes, and that is not the path, is absent |
| NamespaceUtil.EntriesFromOnly | java/eve-core/src/main/java/com/almende/util/NamespaceUtil.java:21-26 | a key only accessor j's subtree writes is present exactly when that subtree writes it, with the same chain |
| NamespaceUtil.KeyOwner | java/eve-core/src/main/java/com/almende/util/NamespaceUtil.java:21-24 | on a well-formed graph, the key of a namespace path is written by no accessor's subtree except that of the first accessor declaring its first namespace |
| NamespaceUtil.FindAccessor | java/eve-core/src/main/java/com/almende/util/NamespaceUtil.java:47 | `getMethod(name)` finds nothing exactly when no accessor has that name, and otherwise returns the target of an accessor of that name |
| NamespaceUtil.Walk | java/eve-core/src/main/java/com/almende/util/NamespaceUtil.java:45-50 | a walk fails only with a missing method, and then names a non-empty name of the chain |
| NamespaceUtil.Get | java/eve-core/src/main/java/com/almende/util/NamespaceUtil.java:29-53 | a cached key leaves the cache alone, a missing key populates it; resolution fails as non-resolvable exactly when the key is still missing; a success carries the leaf name |
| NamespaceUtil.ApplyCached | java/eve-core/src/main/java/com/almende/util/NamespaceUtil.java:41-53 | the cache is kept; the result is the non-resolvable failure exactly when the key is missing; a success carries the leaf name |
| NamespaceUtil.ResolveTwice | java/eve-core/src/main/java/com/almende/util/NamespaceUtil.java:38-40 | resolving the same path again on the cache the first call left gives the same result and the same cache |
| NamespaceUtil.GetKeepsCacheOf | java/eve-core/src/main/java/com/almende/util/NamespaceUtil.java:38-40 | a cache holding only entries of this graph still holds only such entries after a resolution |
| NamespaceUtil.GetKeepsClassCacheOf | java/eve-core/src/main/java/com/almende/util/NamespaceUtil.java:38-40 | the static cache is shared by all classes; if the keys under this class's name hold only this graph's entries, they still do after a resolution, whatever other classes have cached |
| NamespaceUtil.CacheOfIsClassCacheOf | java/eve-core/src/main/java/com/almende/util/NamespaceUtil.java:12 | a cache holding only this graph's entries has, in particular, a correct part for this class |
| NamespaceUtil.ForeignEntryKeepsClassCacheOf | java/eve-core/src/main/java/com/almende/util/NamespaceUtil.java:12 | an entry another class `B` has cached leaves class `A`'s part of the shared cache correct, although the cache no longer holds only `A`'s entries |
| NamespaceUtil.CachedEntry | java/eve-core/src/main/java/com/almende/util/NamespaceUtil.java:38-44 | with a shared cache whose keys under this class's name hold only this graph's entries, after `_get` the key of the path holds exactly what population writes for it, or is absent exactly when population does not write it |
| NamespaceUtil.ChainOfNames | java/eve-core/src/main/java/com/almende/util/NamespaceUtil.java:26 | the stored method list "" + ".m1.m2…" splits into the empty name followed by the accessor names |
| NamespaceUtil.SegmentsDiffer | java/eve-core/src/main/java/com/almende/util/NamespaceUtil.java:24 | two different dot-free namespace values never lead to the same key or to one key under the other |
| NamespaceUtil.EntryOfNamespacePath | java/eve-core/src/main/java/com/almende/util/NamespaceUtil.java:19-27 | on a well-formed graph, the key path + ".ns1.ns2…" is cached exactly when the namespaces can be followed, and then holds the accessor names passed |
| NamespaceUtil.EntryOfMissingNamespace | java/eve-core/src/main/java/com/almende/util/NamespaceUtil.java:21-26 | a namespace path whose first namespace no accessor declares gets no entry, and cannot be followed |
| NamespaceUtil.EntryInOwner | java/eve-core/src/main/java/com/almende/util/NamespaceUtil.java:21-26 | the key of a namespace path is found in the subtree of the accessor declaring its first namespace, with the same chain |
| NamespaceUtil.WalkFollowsNames | java/eve-core/src/main/java/com/almende/util/NamespaceUtil.java:44-50 | walking the accessor names passed while following a namespace path reaches the same object |
| NamespaceUtil.CallPathParts | java/eve-core/src/main/java/com/almende/util/NamespaceUtil.java:32-36 | for the call path "ns1…nsk.m" with non-empty dot-free parts, the leaf is m and the key is the class name + ".ns1…nsk" |
| NamespaceUtil.ResolveNamespacePath | java/eve-core/src/main/java/com/almende/util/NamespaceUtil.java:29-53 | on a well-formed graph, with a shared cache whose keys under this class's name hold only this graph's entries (other classes' keys may hold anything), "ns1…nsk.m" resolves to the object reached by following the namespaces, paired with m, and otherwise fails as non-resolvable with the class name + ".ns1…nsk" |
| GameOfLife.JavaRem | java/eve-gol-demo/src/main/java/com/almende/eve/goldemo/Cell.java:78 | Java's remainder lies in [0, \|b\|) for a non-negative dividend, and in (-\|b\|, 0] for a negative one |
| GameOfLife.JavaDivRem | java/eve-gol-demo/src/main/java/com/almende/eve/goldemo/Cell.java:78-79 | Java's truncating quotient and remainder satisfy (a / b) * b + a % b == a |
| GameOfLife.CoordinatesRoundTrip | java/eve-gol-demo/src/main/java/com/almende/eve/goldemo/Cell.java:77-80 | for 0 <= agentNo < N·N, the row and column are on the grid and `calcBack` of them gives agentNo back |
| GameOfLife.CalcBackInRange | java/eve-gol-demo/src/main/java/com/almende/eve/goldemo/Cell.java:95-97 | on-grid coordinates give an agent number in [0, N·M) |
| GameOfLife.CalcBackInjective | java/eve-gol-demo/src/main/java/com/almende/eve/goldemo/Cell.java:95-97 | distinct coordinates with the column on the grid give distinct agent numbers, and equal ones give equal numbers |
| GameOfLife.NeighborIsMooreStep | java/eve-gol-demo/src/main/java/com/almende/eve/goldemo/Cell.java:99-117 | case id is the cell one Moore step away in direction id, wrapping around the torus |
| GameOfLife.NeighborInRange | java/eve-gol-demo/src/main/java/com/almende/eve/goldemo/Cell.java:99-120 | cases 0 to 7 give an on-grid agent number; any other case gives 0 |
| GameOfLife.NeighborsDistinct | java/eve-gol-demo/src/main/java/com/almende/eve/goldemo/Cell.java:100-117 | on a square grid of side at least 3 the eight neighbours are pairwise distinct and never the cell itself |
| GameOfLife.NeighborSymmetric | java/eve-gol-demo/src/main/java/com/almende/eve/goldemo/Cell.java:100-117 | the cell is case 7 - id of its own case-id neighbour |
| GameOfLife.AddPath | java/eve-gol-demo/src/main/java/com/almende/eve/goldemo/Cell.java:91-93 | even agent numbers get the even prefix, odd ones the odd prefix, followed by the path |
| GameOfLife.CalcNeighbours | java/eve-gol-demo/src/main/java/com/almende/eve/goldemo/Cell.java:71-89 | an empty grid fails with a division by zero; otherwise there are exactly eight neighbour addresses, address `id` being the one `NeighbourAddresses` describes |
| GameOfLife.NeighbourAddresses | java/eve-gol-demo/src/main/java/com/almende/eve/goldemo/Cell.java:81-87 | the address at index `id` is the parity prefix of the number `getNeighborNo(id, …)` computes, then the agent prefix and that number; that number is the on-grid cell one Moore step in direction `id` away on the torus, and it is not the cell's own when N >= 3 |
| GameOfLife.NeighbourAddressesDistinct | java/eve-gol-demo/src/main/java/com/almende/eve/goldemo/Cell.java:81-87 | when N >= 3 and the odd and even prefixes have equal length, the eight addresses are pairwise distinct and none is the cell's own address |
| GameOfLife.Create | java/eve-gol-demo/src/main/java/com/almende/eve/goldemo/Cell.java:41-47 | afterwards Stopped is false, the neighbours are stored, val_0 is cycle 0 with the initial liveness, current_cycle is 1, and every other key is kept |
| GameOfLife.AgentNumberOfId | java/eve-gol-demo/src/main/java/com/almende/eve/goldemo/Cell.java:62-63 | an id made of a prefix without `_`, then `_` and a rendered number, yields that number when it lies in the 32-bit `int` range and fails otherwise |
| GameOfLife.NewCreate | java/eve-gol-demo/src/main/java/com/almende/eve/goldemo/Cell.java:56-65 | the first three writes always happen; an id not ending in a number, or ending in one outside the `int` range, fails with a number-format error, an empty grid with a division by zero, and otherwise the eight computed neighbours are stored; no other key is added or changed, so a failure keeps the old `neighbors` entry |
| GameOfLife.PutIfUnchanged | java/eve-gol-demo/src/main/java/com/almende/eve/goldemo/Cell.java:305-306 | the compare-and-swap writes exactly when the current value is the expected one (a null expectation means absent) and otherwise changes nothing |
| GameOfLife.FirstWriterWins | java/eve-gol-demo/src/main/java/com/almende/eve/goldemo/Cell.java:305-306 | among writers expecting absence, exactly the first succeeds and its value stays |
| GameOfLife.WritersAfterLose | java/eve-gol-demo/src/main/java/com/almende/eve/goldemo/Cell.java:305-306 | once the key is present every writer expecting absence fails and the state is unchanged |
| GameOfLife.AliveCount | java/eve-gol-demo/src/main/java/com/almende/eve/goldemo/Cell.java:276-290 | the live count is at most the number of neighbours, and 0 exactly when none lives |
| GameOfLife.NextState | java/eve-gol-demo/src/main/java/com/almende/eve/goldemo/Cell.java:297-304 | the rule has no answer exactly when two neighbours live and the own state is missing (a null dereference); otherwise the new state is for the current cycle |
| GameOfLife.NextStateIsLife | java/eve-gol-demo/src/main/java/com/almende/eve/goldemo/Cell.java:297-304 | the new liveness is Conway's B3/S23: alive with 3 live neighbours, kept with 2, dead otherwise |
| GameOfLife.NeighbourStates | java/eve-gol-demo/src/main/java/com/almende/eve/goldemo/Cell.java:278-290 | the neighbours' states are missing exactly when some neighbour's entry is missing; otherwise there is one per neighbour, read from its key |
| GameOfLife.RemoveNeighbourStates | java/eve-gol-demo/src/main/java/com/almende/eve/goldemo/Cell.java:334-337 | exactly the neighbours' keys for the cycle are removed, and every remaining value is kept |
| GameOfLife.PlanStep | java/eve-gol-demo/src/main/java/com/almende/eve/goldemo/Cell.java:273-304 | a null or zero cycle waits; a planned write is for the current non-zero cycle, with all neighbours known and at least eight of them |
| GameOfLife.Commit | java/eve-gol-demo/src/main/java/com/almende/eve/goldemo/Cell.java:305-338 | an existing val_c loses and changes nothing; a step that ends otherwise ends halted or faulted; an advance announces the new state and moves the counter to c + 1 |
| GameOfLife.Step | java/eve-gol-demo/src/main/java/com/almende/eve/goldemo/Cell.java:272-275 | with current_cycle null or 0 the step waits and changes nothing |
| GameOfLife.CalcCycle | java/eve-gol-demo/src/main/java/com/almende/eve/goldemo/Cell.java:272-341 | a run announces at most `fuel` states, numbered from the starting cycle on; a run that announced something and then waits, loses or runs out leaves the counter one past the last announced cycle; a run that announces nothing and waits or loses changes nothing |
| GameOfLife.RunExtends | java/eve-gol-demo/src/main/java/com/almende/eve/goldemo/Cell.java:338 | an announcement in front of a run that continues from the next cycle is numbered from the announcement's cycle |
| GameOfLife.StepWaits | java/eve-gol-demo/src/main/java/com/almende/eve/goldemo/Cell.java:273-294 | a null or zero cycle, a missing neighbour state for the previous cycle, or fewer than eight neighbours each make the step wait without changes |
| GameOfLife.StepAdvances | java/eve-gol-demo/src/main/java/com/almende/eve/goldemo/Cell.java:305-338 | an advance from cycle c claims the empty val_c with the announced state, sets the counter to c + 1, happens only when not stopped, and removes nothing but the neighbours' c - 1 entries |
| GameOfLife.CommitAdvances | java/eve-gol-demo/src/main/java/com/almende/eve/goldemo/Cell.java:305-337 | the writing half of an advance: val_c was empty and now holds the new state, the counter is c + 1, Stopped was false, and only neighbour entries of c - 1 are gone |
| GameOfLife.StepCounts | java/eve-gol-demo/src/main/java/com/almende/eve/goldemo/Cell.java:305-308 | an advance announces the state of the current cycle and moves the counter one on |
| GameOfLife.StepEnds | java/eve-gol-demo/src/main/java/com/almende/eve/goldemo/Cell.java:272-341 | a single step never ends for want of fuel, and waiting or losing leaves the state as it was |
| GameOfLife.StepLosesToEarlierWrite | java/eve-gol-demo/src/main/java/com/almende/eve/goldemo/Cell.java:305-306 | when val_c already exists the step ends without changing the state |
| GameOfLife.StepHalts | java/eve-gol-demo/src/main/java/com/almende/eve/goldemo/Cell.java:305-311 | a step that stops after writing has written only val_c and the counter; it halts exactly when Stopped is true and faults exactly when Stopped is missing |
| GameOfLife.CommitHalts | java/eve-gol-demo/src/main/java/com/almende/eve/goldemo/Cell.java:305-311 | the writing half that stops: val_c was empty, only val_c and the counter change, and it halts or faults according to Stopped |
| GameOfLife.StepFollowsLife | java/eve-gol-demo/src/main/java/com/almende/eve/goldemo/Cell.java:295-304 | the announced liveness follows B3/S23 from the neighbours' previous states and the cell's own |
| HttpUtil.AppendQueryParams | java/eve-planning/src/main/java/com/almende/util/HttpUtil.java:276-295 | null or empty params leave the URL unchanged; otherwise the URL gets `?` if it had none (else `&`) and the encoded `k=v` segments joined by `&` |
| HttpUtil.AppendEachShape | java/eve-planning/src/main/java/com/almende/util/HttpUtil.java:280-291 | the loop adds one separator, then each parameter's segment with `&` between them |
| HttpUtil.AppendKeepsUrl | java/eve-planning/src/main/java/com/almende/util/HttpUtil.java:276-295 | the result always starts with the input URL |
| HttpUtil.RemoveQueryParams | java/eve-planning/src/main/java/com/almende/util/HttpUtil.java:454-461 | the result is the prefix before the first `?`, has no `?`, and is the URL itself when it had none |
| HttpUtil.RemoveQueryParamsIdempotent | java/eve-planning/src/main/java/com/almende/util/HttpUtil.java:454-461 | removing the query twice is removing it once |
| HttpUtil.RemoveAfterAppend | java/eve-planning/src/main/java/com/almende/util/HttpUtil.java:454-461 | removing the query after appending parameters gives what removing it from the original URL gives |
| HttpUtil.ToMap | java/eve-planning/src/main/java/com/almende/util/HttpUtil.java:332-333 | the map's keys are exactly the names read, and each name holds the value it was read with last |
| HttpUtil.PassOf | java/eve-planning/src/main/java/com/almende/util/HttpUtil.java:311-333 | a pass that goes on resumes strictly later in the text at an `&` |
| HttpUtil.ScanQueryStalls | java/eve-planning/src/main/java/com/almende/util/HttpUtil.java:311-334 | the loop never ends exactly when some part of the query from its `?` or an `&` on holds no `=` |
| HttpUtil.GetQueryParams | java/eve-planning/src/main/java/com/almende/util/HttpUtil.java:306-337 | a URL without `?` gives the empty map; the method does not return exactly when the query stalls |
| HttpUtil.ScanOfSegments | java/eve-planning/src/main/java/com/almende/util/HttpUtil.java:311-334 | reading back a query made of encoded segments gives the encoded pairs in order |
| HttpUtil.QueryRoundTrip | java/eve-planning/src/main/java/com/almende/util/HttpUtil.java:276-337 | `getQueryParams(appendQueryParams(base, p))` returns p as a map when base has no `?` and encoding is invertible and free of `&`, `=` and `?` |
| HttpUtil.GetQueryParamsFixed | java/eve-planning/src/main/java/com/almende/util/HttpUtil.java:306-337 | the corrected method always returns, with the empty map exactly when the URL has no `?` |
| HttpUtil.GetQueryParamsFixedAgrees | java/eve-planning/src/main/java/com/almende/util/HttpUtil.java:306-337 | wherever the method as written returns, the corrected one returns the same map |
| HttpUtil.QueryRoundTripFixed | java/eve-planning/src/main/java/com/almende/util/HttpUtil.java:276-337 | the corrected method reads back what `appendQueryParams` wrote |
| HttpUtil.QueryWithoutEqualsHangs | java/eve-planning/src/main/java/com/almende/util/HttpUtil.java:311-334 | on `a?b` the method as written never returns, while the corrected one maps the decoded `b` to the decoded empty value |
| HttpUtil.JoinArray | java/eve-planning/src/main/java/com/almende/util/HttpUtil.java:431-443 | the elements in order with the delimiter between neighbours, and no delimiter when it is null |
| HttpUtil.Filled | java/eve-planning/src/main/java/com/almende/util/HttpUtil.java:397-406 | one piece per template segment: literals copied, `:name` replaced by its value or "" when absent |
| HttpUtil.CollectParams | java/eve-planning/src/main/java/com/almende/util/HttpUtil.java:363-373 | the loop ends having recorded, for every parameter name, the URL segment at its first occurrence |
| HttpUtil.ReadStep | java/eve-planning/src/main/java/com/almende/util/HttpUtil.java:363-373 | each pass of the loop keeps that invariant for the segments seen so far |
| HttpUtil.ReadNew | java/eve-planning/src/main/java/com/almende/util/HttpUtil.java:368-371 | the pass that meets a name for the first time records the URL segment at that index, or "" past the end |
| HttpUtil.GetTemplateParams | java/eve-planning/src/main/java/com/almende/util/HttpUtil.java:355-376 | it fails exactly when the split template is empty; otherwise the keys are the template's names and each holds the URL segment at its first occurrence |
| HttpUtil.GetTemplateParamsFails | java/eve-planning/src/main/java/com/almende/util/HttpUtil.java:358-359 | the array index fails exactly on a non-empty template made only of slashes |
| HttpUtil.SplitFilled | java/eve-planning/src/main/java/com/almende/util/HttpUtil.java:393-410 | splitting a filled template with the template's segment rules gives back the filled segments when the values hold no `/` |
| HttpUtil.TemplateRoundTrip | java/eve-planning/src/main/java/com/almende/util/HttpUtil.java:355-410 | `getTemplateParams(t, setTemplateParams(t, p))` has exactly t's names as keys, each with p's value or "" |
| HttpUtil.LastParamAbsorbs | java/eve-planning/src/main/java/com/almende/util/HttpUtil.java:359-361 | when the last template segment is a new parameter it receives the whole rest of the URL, slashes included |
| JavaStrings.Split | java/eve-core/src/main/java/com/almende/util/NamespaceUtil.java:26 | text without the delimiter is one piece; limit 0 gives delimiter-free pieces with trailing empty ones dropped; a limit n > 0 gives exactly min(n, number of delimiter-separated pieces) pieces that join back to the text, every piece but the last free of the delimiter |
| JavaStrings.SplitOfJoin | java/eve-planning/src/main/java/com/almende/util/HttpUtil.java:358-361 | splitting a join gives the pieces back, under limit 0 when no piece holds the delimiter and the last is non-empty, and under the piece count as limit when only the last may hold it |
| JavaStrings.SplitZeroEmpty | java/eve-planning/src/main/java/com/almende/util/HttpUtil.java:358-359 | a split with limit 0 is empty exactly on non-empty text made only of the delimiter |
| JavaStrings.ParseIntOfIntToString | java/eve-gol-demo/src/main/java/com/almende/eve/goldemo/Cell.java:63 | parsing the decimal rendering of an integer gives it back when it lies in the 32-bit `int` range, and fails otherwise |
| JavaStrings.ParseInt | java/eve-gol-demo/src/main/java/com/almende/eve/goldemo/Cell.java:63 | only text made of an optional `-` or `+` and then ASCII digits parses, and its value lies in the 32-bit `int` range; a plain run of digits within that range parses to its decimal value |
| JavaStrings.ToInt32 | java/eve-planning/src/main/java/com/almende/eve/agent/google/GoogleCalendarAgent.java:594 | the result lies in the `int` range, agrees with the input modulo 2^32, and is the input itself when that is in range |
| JavaStrings.IndexOf | java/eve-planning/src/main/java/com/almende/util/HttpUtil.java:310 | -1 exactly when the character is absent; otherwise its first position |
| GoogleCalendar.With | java/eve-planning/src/main/java/com/almende/eve/agent/google/GoogleCalendarAgent.java:312 | `with(name)` fails exactly on a present non-object member; it yields the member's fields, or a new empty object when absent |
| GoogleCalendar.GetObject | java/eve-planning/src/main/java/com/almende/eve/agent/google/GoogleCalendarAgent.java:324-328 | the cast fails exactly on a present non-object member (null included); an absent member is null |
| GoogleCalendar.ToGoogleEvent | java/eve-planning/src/main/java/com/almende/eve/agent/google/GoogleCalendarAgent.java:308-316 | without a textual agent the event is unchanged; otherwise `extendedProperties.shared.agent` holds it, `extendedProperties` is the only key that may be added, and every other member is kept |
| GoogleCalendar.ToGoogleEventFails | java/eve-planning/src/main/java/com/almende/eve/agent/google/GoogleCalendarAgent.java:312 | the conversion fails exactly when the agent is textual and `extendedProperties` or its `shared` is present but not an object |
| GoogleCalendar.ToGoogleEventKeepsOthers | java/eve-planning/src/main/java/com/almende/eve/agent/google/GoogleCalendarAgent.java:312 | the other members of `extendedProperties` and of `shared` are kept |
| GoogleCalendar.ToEveEvent | java/eve-planning/src/main/java/com/almende/eve/agent/google/GoogleCalendarAgent.java:323-346 | on success at most `agent` is added or changed; every other member is kept |
| GoogleCalendar.ToEveEventFails | java/eve-planning/src/main/java/com/almende/eve/agent/google/GoogleCalendarAgent.java:324-328 | the conversion fails exactly when `extendedProperties` is present but not an object, or holds a `shared` that is not an object |
| GoogleCalendar.ToEveEventSetsAgent | java/eve-planning/src/main/java/com/almende/eve/agent/google/GoogleCalendarAgent.java:323-346 | a textual shared agent becomes `event.agent`; with none the event is unchanged |
| GoogleCalendar.ToEveEventIdempotent | java/eve-planning/src/main/java/com/almende/eve/agent/google/GoogleCalendarAgent.java:323-346 | converting a converted event again changes nothing |
| GoogleCalendar.EveGoogleRoundTrip | java/eve-planning/src/main/java/com/almende/eve/agent/google/GoogleCalendarAgent.java:308-346 | converting an Eve event to Google shape and back changes nothing, and the agent keeps its value |
| GoogleCalendar.GoogleEveRoundTrip | java/eve-planning/src/main/java/com/almende/eve/agent/google/GoogleCalendarAgent.java:308-346 | converting a Google event with a shared agent to Eve shape and back changes nothing |
| GoogleCalendar.CalculateExpiresAt | java/eve-planning/src/main/java/com/almende/eve/agent/google/GoogleCalendarAgent.java:152-158 | none exactly when expires_in is null or 0; otherwise now + expires_in seconds minus five minutes, in milliseconds |
| GoogleCalendar.RefreshFiveMinutesEarly | java/eve-planning/src/main/java/com/almende/eve/agent/google/GoogleCalendarAgent.java:268-279 | a token issued with a lifetime is refreshed exactly once more than its lifetime minus five minutes has passed |
| GoogleCalendar.AuthorizationHeaders | java/eve-planning/src/main/java/com/almende/eve/agent/google/GoogleCalendarAgent.java:244-260 | it fails for a missing access token first, then for a missing token type; on success the only header is `Authorization` |
| GoogleCalendar.AuthorizationHeaderRoundTrip | java/eve-planning/src/main/java/com/almende/eve/agent/google/GoogleCalendarAgent.java:258 | the header value is token_type SP access_token: splitting at its first space gives both back |
| GoogleCalendar.AsTextCancelled | java/eve-planning/src/main/java/com/almende/eve/agent/google/GoogleCalendarAgent.java:604-605 | only the JSON string "cancelled" reads as the text "cancelled" |
| GoogleCalendar.ClassifyError | java/eve-planning/src/main/java/com/almende/eve/agent/google/GoogleCalendarAgent.java:591-600 | an error object with code 404 or 410 is not-found, any other error object is passed on as-is, and a non-object error fails the cast |
| GoogleCalendar.NumericCodeWraps | java/eve-planning/src/main/java/com/almende/eve/agent/google/GoogleCalendarAgent.java:593-597 | a numeric code counts as not-found exactly when its low 32 bits are 404 or 410, as `asInt` keeps only those bits |
| GoogleCalendar.GetEvent | java/eve-planning/src/main/java/com/almende/eve/agent/google/GoogleCalendarAgent.java:588-609 | the reply is converted first, and a failed conversion is passed on; an `error` member is classified and passed on, so it is not-found exactly for a 404/410 code and otherwise the error object itself; with no error it is not-found exactly for a cancelled status, and otherwise the converted event is returned |
| GoogleCalendar.DeleteEvent | java/eve-planning/src/main/java/com/almende/eve/agent/google/GoogleCalendarAgent.java:791-808 | deletion succeeds exactly on an empty reply; a parsed reply with an error member is classified, any other parsed reply is an unexpected-reply failure, and a reply the parser rejects is unparsable |
| FileContexts.SetPath | java/src/EveCore/src/com/almende/eve/context/FileContextFactory.java:28-36 | the stored path ends with `/`; null gives `.eveagents/`; a path ending in `/` is kept, any other gets one |
| FileContexts.SetPathIdempotent | java/src/EveCore/src/com/almende/eve/context/FileContextFactory.java:35-36 | setting a normalised path again changes nothing |
| FileContexts.NewFactory | java/src/EveCore/src/com/almende/eve/context/FileContextFactory.java:11-17 | the path is the `path` parameter, or the default when the parameters or that entry are missing, normalised to end with `/` |
| FileContexts.NewFactoryAt | java/src/EveCore/src/com/almende/eve/context/FileContextFactory.java:19-22 | the stored path ends with `/`, and a path already ending in `/` is kept |
| FileContexts.Filename | java/src/EveCore/src/com/almende/eve/context/FileContextFactory.java:125-127 | the file name is the path (or "" when null) followed by the agent id |
| FileContexts.FilenameInjective | java/src/EveCore/src/com/almende/eve/context/FileContextFactory.java:125-127 | two agents share a file name exactly when they are the same agent |
| FileContexts.Get | java/src/EveCore/src/com/almende/eve/context/FileContextFactory.java:57-63 | none exactly when the agent's file, as the file system resolves its name, does not exist; otherwise a context for that agent on an existing file |
| FileContexts.Create | java/src/EveCore/src/com/almende/eve/context/FileContextFactory.java:72-86 | it fails exactly when the agent exists; otherwise the agent exists afterwards, `get` returns the new context, exactly one file is added, an id exists afterwards exactly when it existed before or names the same file, and no other file changes |
| FileContexts.Delete | java/src/EveCore/src/com/almende/eve/context/FileContextFactory.java:92-98 | afterwards no id naming the agent's file exists, a missing agent changes nothing, at most one file goes, and an id naming another file is unaffected |
| FileContexts.AliasedIdsShareAFile | java/src/EveCore/src/com/almende/eve/context/FileContextFactory.java:72-76 | two ids whose file names resolve to one file share it: once `a` is created, `./a` exists and creating it fails |
| FileContexts.DeleteIdempotent | java/src/EveCore/src/com/almende/eve/context/FileContextFactory.java:92-98 | deleting twice is deleting once |
| FileContexts.CreateThenDelete | java/src/EveCore/src/com/almende/eve/context/FileContextFactory.java:72-98 | creating a new agent's context and deleting it restores the files |
| FileContexts.CreateOnce | java/src/EveCore/src/com/almende/eve/context/FileContextFactory.java:72-76 | creation after a delete succeeds, and a second creation of the same agent fails as already existing |

## Left out

- I/O, messaging and asynchrony:
  - Cell's `send`/`sendAsync`, the `askCycleState` and `collect` callbacks, `register`/`stop`/`start`/`new_start`, `getCycleState` and `getAllCycleStates`;
  - the concurrent race on `putIfUnchanged`, of which only the sequential compare-and-swap is modelled;
  - the notification sent after an advance, which is modelled only as the announced state.
- GameOfLife.CalcCycle: carries a fuel bound because the Java recursion need not end. All eight neighbour ids equal to "val", for example, make the neighbour key `val_<c-1>` the cell's own value. Runs longer than the fuel are cut off as `OutOfFuel`.
- GameOfLife.CalcNeighbours: takes the grid side N directly instead of `Math.floor(Math.sqrt(totalSize))`, because the square root is floating point.
- `getNeighborId` is not modelled. It parses URIs and strips prefixes, so `calcCycle` takes the neighbours' ids already extracted.
- GameOfLife.GetInt: reads only an integer stored as an integer. Jackson's typed `get` would also convert, for example, a numeric string; that conversion is not modelled.
- GameOfLife.GetBool: reads only a boolean stored as a boolean; Jackson's conversion of other stored values is not modelled.
- GameOfLife.GetCycle: reads only a cycle record stored as one; Jackson's conversion of other stored values is not modelled.
- GameOfLife.NewCreate: an id whose number is written with non-ASCII Unicode digits, which Java's `Integer.parseInt` accepts, fails here with a number-format error.
- JavaStrings.ParseInt: accepts only the ASCII digits `0`-`9`; `Integer.parseInt` also accepts the other Unicode decimal digits.
- NamespaceUtil.ResolveNamespacePath: proved only for `WellFormed` trees, whose namespace values are non-empty, dot-free and distinct on each level. Java also accepts `@Namespace("a.b")`, whose cache key collides with a nested `a` then `b`, the last write winning; that case is not covered. Likewise a class whose name is another class's name + "." + a namespace (class `A.b` next to class `A` with namespace `b`) shares cache keys with it; the cache precondition asks this class's keys to hold its own entries, so such a collision is outside it.
- GameOfLife.CoordinatesRoundTrip: integers are unbounded, so Java's 32-bit overflow of `cN * M` and of `currentCycle + 1` is not modelled.
- Reflection in NamespaceUtil (`AnnotationUtil`, `Method.invoke`) is replaced by the explicit `Obj` tree. The thread-safety of the static `HashMap` is not modelled.
- NamespaceUtil.ReducedMethod: treats every character alike, whereas the regular expressions' `.` does not match line terminators. Paths are assumed to have none.
- HttpUtil.AppendQueryParams: takes the parameters as a sequence of pairs, because `HashMap` iteration order is unspecified; `null` keys and values are not modelled.
- `URLEncoder` and `URLDecoder` are an abstract pair of functions. `ValidCodec` requires that decoding inverts encoding and that encoded text holds no `&`, `=` or `?`. UTF-8 details and the `IOException` are not modelled.
- HttpUtil.GetQueryParams: decoding is total here, but Java's `URLDecoder.decode` throws `IllegalArgumentException` on a malformed `%` escape. On `a?%` Java throws on the first pass where the model stalls, and on `a?x=%zz` Java throws where the model returns a map.
- Network I/O: `HttpUtil.fetch` and its HTTP wrappers, and every HTTP/OAuth call of the calendar agent (`refreshAuthorization`, `getEvents`, `createEvent`, ...).
- Jackson parsing of the reply text is a parameter of `DeleteEvent` and is taken as done in `GetEvent`. Jackson's member order is not modelled.
- `DateTime.now()` is the `now` parameter, and times are milliseconds.
- GoogleCalendar.ClassifyError: numeric codes are integers; a floating-point code such as `404.0`, which `asInt` truncates, cannot be represented. A textual `code` is read as an optionally signed run of decimal digits (else 0); Jackson's `asInt` also trims whitespace and falls back to a decimal parse, which is not modelled.
- FileContexts.Create: which names denote one file is the `canon` resolver parameter. The `IOException` that `createNewFile` may throw and its ignored boolean result (a file that could not be made) are not modelled, so creation always adds the file.
- FileContexts.Delete: the ignored boolean result of `File.delete` is not modelled, so deletion always removes an existing file.
- FileContextFactory:
  - `mkdir`, logging and the canonical-path lookup are file-system effects and are not modelled;
  - the `FileContext` class is not part of this model; a context is only its agent id and file name;
  - `getEnvironment` returns the constant "Production" and has nothing to model;
  - a non-string `path` parameter, which would fail the cast in the constructor, is not modelled; parameters map strings to strings.

## Findings

| source | as written | input that shows it | evidently intended | confidence | as-written member | corrected member |
|---|---|---|---|---|---|---|
| java/eve-planning/src/main/java/com/almende/util/HttpUtil.java:311-334 | `start` only moves on when an `=` is found, so a part of the query with no `=` after its separator repeats the same pass forever | `getQueryParams("a?b")` | read `b` as a name with the empty value and stop | not executed | HttpUtil.QueryWithoutEqualsHangs | HttpUtil.QueryRoundTripFixed |
