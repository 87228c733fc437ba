# Lorica, modelled and proved in Dafny

Lorica is a CORBA proxy. It replaces every object reference that crosses it by a reference
to itself and later has to find the original again. This project models the parts that make
that work and proves what they promise.

| file | part of the program |
|---|---|
| `ReferenceTable.dfy` | the table of mapped references, read as a flat array: index counter, free stack, slots |
| `PagedTable.dfy` | the same table as it is stored: pages on the heap, updated in place, refining the flat one |
| `SharedTable.dfy` | every run of that table under request threads and the garbage collector |
| `Sweeping.dfy` | whole sweeps of the garbage collector |
| `ObjectId.dfy` | the sixteen bytes of a mapped object id and their recognition in a key |
| `Mapping.dfy` | the chain of mappers: adding, finding back and removing references |
| `Rewriting.dfy` | the type-guided rewriting of a value |
| `Evaluation.dfy` | requests and replies: argument lists, remembered types, sides |
| `OperationTable.dfy` | the search tree of operations, interfaces, shared argument lists |
| `Requests.dfy` | request, reply and user exception over table and evaluator together |
| `Registration.dfy` | the order of the mapper chain, evaluators made on demand |
| `Configuration.dfy` | the configuration file and the words handed to the ORB |

How the model is set up:

- The body that one lock protects is one atomic step. `next_index` takes `high_index_lock_`
  while `unbind` and the collector push to the same free stack under `gc_control_lock_`
  (src/lorica/RMVByMapped.cpp:54, 154, 183), and reference counts are changed without a lock;
  the code does not itself keep these apart, the model takes each as atomic.
- The collector is a small-step machine. Any step of any thread may come between any two of
  its steps, which is more than its lock allows, so what is proved holds for the real runs.
- A thread binds at an index only a value that `add_native_unchecked` made for that index,
  which is what its local variables give it (src/lorica/ProxyMapper.cpp:361-390). `rebind`,
  which the program never calls, is held to the same.
- ORB, POA, DynAny and interface repository calls are data: `create_reference_with_id` keeps
  type id and object id, a dynamic value carries its type, the repository is a set of types.
- 32-bit arithmetic wraps explicitly. Runs stay within the capacity that `LimitExactIff`
  shows to be the exact one.
- What comes off the wire as a value of a type is a well-typed value of that type.
- Undefined behaviour of the program (a null dereference, an index past the end of a list)
  is the value `Fault`, not an assumption.

Findings, each proved as a lemma:

- The collector compares addresses. If the allocator reuses a freed address while a ping is
  out, it reaps a value it never pinged (`AddressReuseReapsAnother`); `ReapsThePinged` shows
  that this is the only way.
- Object ids carry no generation. Once an index is free, one more native is enough for every
  reference ever made for that index to resolve to it (`StaleResolvesToAnother`).
- `bind` and `rebind` accept indices nobody issued (`BindKeepsIff`, `RebindKeepsIff`); past the
  32-bit limit an issued index cannot be bound (`LimitExactIff`); `rebind` releases before it
  counts (`RebindSafeIff`).
- A reference of the other side whose entry is gone is dereferenced without a check
  (`MapRefFaultsIff`).
- An array with references stops the rewriting (`ProxifyExact`, `RoundTrip`).
- References in user exceptions are mapped for the wrong side (`SideOfNewReference`): an
  argument handed back in an exception comes back as it was sent if and only if no mapper
  handles any reference in it (`EchoedArgument`, with an input in `EchoedInException`).
- `add_interface` hands back the last list of a name, among operations or among accessors as
  the name looks, while lookups find the first of all, and it leaves a count behind for each
  further one (`RequestAndReplyAgree`, `PlainIsStraight`, `GivenPerMatch`). The comment at
  src/OCI/OperationTable.h:202 calls the tree balanced; nothing in the code balances it, and
  the proofs do not need it.
- A configuration token whose hash collides with another's takes over its words (`WordsExact`).

## Model

| member | source | states |
|---|---|---|
| `ReferenceTable.Partition` | src/lorica/RMVByMapped.cpp:51-172 | every index below the counter is bound, free or reserved, and only one of these |
| `ReferenceTable.PageCount` | src/lorica/RMVByMapped.cpp:65-68 | the slots are whole pages, and the number of pages is max(1, ceil(counter / page size)) |
| `ReferenceTable.NextIndexReserves` | src/lorica/RMVByMapped.cpp:51-76 | an issued index was held by nobody, becomes reserved, can be bound, and growth keeps all slots |
| `ReferenceTable.LimitExactIff` | src/lorica/RMVByMapped.cpp:65-88 | the 32-bit limit check stays exact, and the issued index bindable, if and only if the index plus the page size fits or no page is added |
| `ReferenceTable.BindKeepsIff` | src/lorica/RMVByMapped.cpp:78-102 | `bind` keeps the partition if and only if it is refused or its index is reserved |
| `ReferenceTable.OperationsExact` | src/lorica/RMVByMapped.cpp:78-172 | `bind` never overwrites, `unbind` hands out what was bound and frees its index, and no operation touches another slot |
| `ReferenceTable.ClearKeeps` | src/lorica/RMVByMapped.cpp:163-165 | freeing a bound slot moves exactly that index to the free stack, where it was not before |
| `ReferenceTable.RebindKeepsIff` | src/lorica/RMVByMapped.cpp:104-125 | `rebind` succeeds below the limit, and keeps the partition if and only if it is refused or its index is bound or reserved |
| `ReferenceTable.IssueAndBind` | src/lorica/ProxyMapper.cpp:370-390 | issue and bind together add one entry at a fresh index and disturb no other |
| `PagedTable.PositionOf` | src/lorica/RMVByMapped.h:126-129 | division and remainder find the one page and slot of an index |
| `PagedTable.ReferenceMapValue.Reverse` | src/lorica/ReferenceMapValue.cpp:53-65 | a new value, owned by the caller, with original and mapped reference exchanged, as secure as the old one, without agent and table name |
| `PagedTable.RMVByMapped.constructor` | src/lorica/RMVByMapped.cpp:28-39 | one empty page, nothing issued |
| `PagedTable.RMVByMapped.NextIndex` | src/lorica/RMVByMapped.cpp:51-76 | on pages in place, what the flat table does |
| `PagedTable.RMVByMapped.AddPage` | src/lorica/RMVByMapped.h:118-124 | a page of empty slots after the last; all others keep place and contents |
| `PagedTable.RMVByMapped.Bind` | src/lorica/RMVByMapped.cpp:78-102 | the flat bind, and a count for the value exactly on success |
| `PagedTable.RMVByMapped.Rebind` | src/lorica/RMVByMapped.cpp:104-125 | the flat rebind; old value one count less, new one more; a value put over itself is used after its deletion if and only if it has no second owner |
| `PagedTable.RMVByMapped.Find` | src/lorica/RMVByMapped.cpp:127-148 | the flat lookup, and a count for the caller |
| `PagedTable.RMVByMapped.Unbind` | src/lorica/RMVByMapped.cpp:150-172 | the flat unbind; the table's count goes to the caller |
| `PagedTable.RMVByMapped.Peek` | src/lorica/RMVByMapped.cpp:198-205 | the collector's slot on a page is the slot of the global index |
| `PagedTable.RMVByMapped.Recheck` | src/lorica/RMVByMapped.cpp:222-233 | reaps exactly if the pinged value is still there and expired, and frees the global index of that slot |
| `SharedTable.StepKeepsInv` | src/lorica/RMVByMapped.cpp:51-237 | every step of threads and collector keeps partition, reference counts, the match of references and indices, and the collector's position |
| `SharedTable.Exec` | src/lorica/RMVByMapped.cpp:51-237 | over every run the invariant holds at the end |
| `SharedTable.ReachableStates` | src/lorica/RMVByMapped.cpp:51-172 | in every reachable state: the three-way split, a free stack without repetition, counts equal to slots plus handles, a value live exactly as long as it has an owner, every bound value made for its index |
| `SharedTable.HandlesExact` | src/lorica/ReferenceMapValue.cpp:67-162 | which step gives or takes which handle |
| `SharedTable.ReverseSwaps` | src/lorica/ReferenceMapValue.cpp:53-65 | a reversed value leads back the other way, and is counted once |
| `SharedTable.BindKeeps` | src/lorica/RMVByMapped.cpp:78-102 | binding a pending index always succeeds and keeps the invariant |
| `SharedTable.RebindSafeIff` | src/lorica/RMVByMapped.cpp:118-122 | releasing first leaves the new value alive if and only if it is another one or has a second owner |
| `SharedTable.ReapFreesItsIndex` | src/lorica/RMVByMapped.cpp:222-233 | the index a reap frees is the one `find` uses for that slot; it was bound to the pinged value and not free |
| `Sweeping.SweepPingsAll` | src/lorica/RMVByMapped.cpp:190-237 | over every run that brings the collector to rest, each entry ahead of it that is not unbound is pinged, whatever the threads do |
| `Sweeping.SweepReapsTheDead` | src/lorica/RMVByMapped.cpp:190-237 | from every state of a sweep the collector alone comes to rest, and exactly the dead entries ahead are gone |
| `Sweeping.FullSweep` | src/lorica/RMVByMapped.cpp:182-237 | once woken, a whole sweep pings every bound entry and takes away exactly the dead ones |
| `Sweeping.RestsAtLastPage` | src/lorica/RMVByMapped.cpp:198-236 | the collector rests only when its place is the number of slots |
| `SharedTable.PingRecords` | src/lorica/RMVByMapped.cpp:203-210 | what is pinged is what `find` gives for the collector's index |
| `SharedTable.ReapsThePinged` | src/lorica/RMVByMapped.cpp:203-233 | whatever runs in the unlocked window, the value reaped is the one pinged if and only if nothing was allocated at its address meanwhile |
| `SharedTable.AddressReuseReapsAnother` | src/lorica/RMVByMapped.cpp:222-233 | from every state where the table is the only owner, address reuse makes the recheck pass on another value |
| `SharedTable.AddNativeMaps` | src/lorica/ProxyMapper.cpp:355-398 | `add_native_unchecked` runs from every state with room; its entry is bound and leads from the reference made for that index to the native |
| `SharedTable.BindableLater` | src/lorica/ProxyMapper.cpp:361-390 | a value made for an index can be bound there whatever other threads and the collector do in between |
| `SharedTable.AddNativeRefines` | src/lorica/ProxyMapper.cpp:355-398 | in every state the entries are sound for the sequential mapper, and that run gives the entries its `AddUnchecked` gives |
| `SharedTable.BoundResolves` | src/lorica/ProxyMapper.cpp:528-544 | in every state each bound entry's mapped reference, read through the bytes of its id, resolves to the native it was made from |
| `SharedTable.ResolvesWhileBound` | src/lorica/ProxyMapper.cpp:528-566 | a mapped reference resolves to the native it was made from over every run that does not remove its entry |
| `SharedTable.NilUntilReissued` | src/lorica/ProxyMapper.cpp:528-566 | after that a reference made for the index resolves to nothing over every run that does not issue the index again |
| `SharedTable.StaleResolvesToAnother` | src/lorica/ProxyMapper.cpp:528-544 | from every state with a free index, one more native makes every reference ever made for that index resolve to it |
| `SharedTable.RemovalFrees` | src/lorica/RMVByMapped.cpp:150-233 | unbinding and reaping free the index |
| `ObjectId.ClassifyMade` | src/lorica/ProxyMapper.cpp:215-314 | an id behind any prefix is recognised with its index, as mapped or as reversed by its side, in either byte order |
| `ObjectId.MappedIsMade` | src/lorica/ProxyMapper.cpp:255-298 | what is recognised ends with an id of this process with the reported index and side |
| `ObjectId.ClassifyExact` | src/lorica/ProxyMapper.cpp:234-314 | a key is native if and only if it ends with no id of this process |
| `ObjectId.MakeIdInjective` | src/lorica/ProxyMapper.cpp:215-232 | ids are equal only for equal side and index |
| `ObjectId.IdBytes` | src/lorica/ProxyMapper.h:42-50 | the sixteen bytes one by one: magic, version, side, and the numbers in either byte order |
| `Mapping.WalkActsAtPicked` | src/lorica/ProxyMapper.cpp:400-492 | the recursion down the chain acts on the first mapper with an evaluator and on no other |
| `Mapping.HandlesIff` | src/lorica/NullProxyMapper.cpp:44-56 | which types a list of evaluators, the repository and the null mapper take |
| `Mapping.AddsAtPicked` | src/lorica/ProxyMapper.cpp:400-467 | `add_native` acts on that mapper |
| `Mapping.RemovesAtPicked` | src/lorica/ProxyMapper.cpp:469-492 | `remove_mapped` acts on the same one |
| `Mapping.NativeGetsEntry` | src/lorica/ProxyMapper.cpp:355-398 | a native reference gets an entry at a fresh index, and the key of the outside POA if it is mapped for the outside, of the inside POA if for the inside |
| `Mapping.AddNativeKeeps` | src/lorica/ProxyMapper.cpp:400-467 | mapping keeps all tables sound, adds one entry to the picked table if the key is native and none if not, leaves the other tables alone and removes nothing |
| `Mapping.MapRefFaultsIff` | src/lorica/ProxyMapper.cpp:428-443 | mapping dereferences an empty handle if and only if the picked mapper takes the key for one of the other side and has no entry at its index |
| `Mapping.MissingStays` | src/lorica/ProxyMapper.cpp:410-426 | a reference of the same side whose entry is gone stays as it is |
| `Mapping.NativeChangesIff` | src/lorica/ProxyMapper.cpp:410-466 | a native reference is mapped, to another reference, if and only if some mapper handles its type |
| `Mapping.RefRoundTrip` | src/lorica/ProxyMapper.cpp:410-442 | mapped for one side then the other, a native reference comes back; for the same side again, it stays; tables unchanged |
| `Mapping.AllRoundTrip` | src/lorica/ProxyMapper.cpp:400-467 | the same for any list of references mapped one after the other |
| `Mapping.RemoveUndoesAdd` | src/lorica/ProxyMapper.cpp:469-492 | removing the reference just made gives its entry back, leaves the same entries bound and frees the index |
| `Mapping.RemoveReads` | src/lorica/ProxyMapper.cpp:476-486 | removing works exactly on a key that starts with that of the POA asked for, and takes out what is bound at the index behind it |
| `Rewriting.PrunedHoldsNone` | src/lorica/GenericEvaluator.cpp:249-311 | a well-typed value of a type without references holds none |
| `Rewriting.HasObjrefIff` | src/lorica/GenericEvaluator.cpp:249-311 | `has_objref` is true if and only if some value of the type holds a reference |
| `Rewriting.ProxifyExact` | src/lorica/GenericEvaluator.cpp:347-466 | the pruned rewrite gives what mapping all references left to right gives, same state, same flag, same shape; it fails if and only if that fails or there is an array with references |
| `Rewriting.UnchangedIsSame` | src/lorica/GenericEvaluator.cpp:332-345 | a rewrite that reports no change has changed nothing |
| `Rewriting.RoundTrip` | src/lorica/GenericEvaluator.cpp:347-466 | a value of native references rewritten for one side and later for the other is the original value |
| `Evaluation.SameIff` | src/lorica/GenericEvaluator.cpp:347-466 | a value of native references is rewritten to itself if and only if no mapper handles any reference in it |
| `Evaluation.RewriteAsIsProxify` | src/lorica/GenericEvaluator.cpp:216-228 | skipping by declared type and skipping the write-back lose nothing |
| `Evaluation.ResultExact` | src/lorica/GenericEvaluator.cpp:313-330 | a result is rewritten in full; one that is not there faults if and only if its type has references, and is left alone when nothing is returned |
| `Evaluation.ArgsExact` | src/lorica/GenericEvaluator.cpp:188-230 | the arguments of the wanted directions, and only those, are rewritten in full, one after the other |
| `Evaluation.AlignFull` | src/lorica/GenericEvaluator.cpp:188-230 | on the full list each parameter meets its own value and the list never runs out |
| `Evaluation.AlignCut` | src/lorica/GenericEvaluator.cpp:93-109 | the same on the list cut down to INOUT and OUT for the reply |
| `Evaluation.AlignRunsOut` | src/lorica/GenericEvaluator.cpp:208-214 | a list with fewer entries than the parameters ask for is read past its end |
| `Evaluation.ArgList.constructor` | src/OCI/OperationTable.cpp:106-137 | a new list has one count and remembers nothing about parameters, result and exceptions |
| `Evaluation.ArgList.MustProxy` | src/lorica/GenericEvaluator.cpp:216-226 | the remembered answer is always that of `has_objref` |
| `Evaluation.ArgList.ResultMustProxy` | src/lorica/GenericEvaluator.cpp:318-327 | the same for the result |
| `Evaluation.ArgList.ExceptionMustProxy` | src/lorica/GenericEvaluator.cpp:237-244 | the same for a user exception |
| `Evaluation.ArgList.FindException` | src/OCI/OperationTable.cpp:158-179 | the last exception with the id, or nothing |
| `Evaluation.Evaluator.ProxifyValue` | src/lorica/GenericEvaluator.cpp:347-466 | the recursive method computes the specified rewrite |
| `Evaluation.Evaluator.ProxifyComponents` | src/lorica/GenericEvaluator.cpp:388-420 | the loops over members and elements compute it in order |
| `Evaluation.Evaluator.RewriteValue` | src/lorica/GenericEvaluator.cpp:332-345 | writes back only on change |
| `Evaluation.Evaluator.ProxifyParams` | src/lorica/GenericEvaluator.cpp:188-230 | the two-cursor loop with remembered types computes the alignment without them, and keeps the memory right |
| `Evaluation.Evaluator.ProxifyResult` | src/lorica/GenericEvaluator.cpp:313-330 | a result that exists is rewritten by its type; one that does not is touched only if its type has references, so never when nothing is returned |
| `Evaluation.Evaluator.ProxifyException` | src/lorica/GenericEvaluator.cpp:232-247 | the remembered rewrite of an exception is the one that asks its type anew |
| `Evaluation.Evaluator.EvaluateException` | src/lorica/GenericEvaluator.cpp:146-186 | an exception is decoded by the type listed last for its id and rewritten in full; for an id that is not listed nothing changes |
| `Evaluation.SideOfNewReference` | src/lorica/ProxyMapper.cpp:619-671 | request arguments get the key of the other POA, replies and forwards that of the receiving one, user exceptions that of the other one |
| `Evaluation.EchoedArgument` | src/lorica/ProxyReplyHandler.cpp:72-119 | an argument echoed in the reply comes back as sent; echoed in a user exception it does if and only if no mapper handles any reference in it |
| `Evaluation.EchoedInException` | src/lorica/ProxyReplyHandler.cpp:113-119 | a concrete argument that does not |
| `OperationTable.SearchLeadsTo` | src/OCI/OperationTable.cpp:425-437 | for any comparison that is 0 exactly on equal names, the search for a node's name leads to it |
| `OperationTable.UniqueNames` | src/OCI/OperationTable.cpp:441-475 | no two nodes have one name |
| `OperationTable.OperationTable.Search` | src/OCI/OperationTable.cpp:420-439 | finds the first row for operation and id, or nothing |
| `OperationTable.OperationTable.Find` | src/OCI/OperationTable.cpp:420-439 | the same, with one count for the caller; rows and lists stay |
| `OperationTable.OperationTable.FindOrAdd` | src/OCI/OperationTable.cpp:441-475 | the node of the name, linked in if missing; all other nodes and lookups as before |
| `OperationTable.Operation.Args` | src/OCI/OperationTable.cpp:376-387 | the first entry for the id |
| `OperationTable.Operation.AddSet` | src/OCI/OperationTable.cpp:389-403 | appends at the end |
| `OperationTable.OperationTable.AddRow` | src/OCI/OperationTable.cpp:271-282 | one row more, one count more |
| `OperationTable.OperationTable.AddDecl` | src/OCI/OperationTable.cpp:564-607 | a new list under every id, its count equal to rows plus handles |
| `OperationTable.OperationTable.AddInterface` | src/OCI/OperationTable.cpp:477-617 | the nested loops declare exactly the listed operations in order and hand back the last match; what nodes and lists are added is new |
| `OperationTable.DeclaredIsFound` | src/OCI/OperationTable.cpp:603-605 | every declared operation is found under each of its ids |
| `OperationTable.InterfaceIsFound` | src/OCI/OperationTable.cpp:477-617 | after `add_interface` all its declarations are found |
| `OperationTable.OperationIsOffered` | src/OCI/OperationTable.cpp:556-607 | for every operation of the interface or a direct base a list with its parameters, result and exceptions is listed under the id of its interface and of all before; lookups give it if the name is new and declared once |
| `OperationTable.AccessorsAreOffered` | src/OCI/OperationTable.cpp:509-553 | the same for `_get_` and, unless read-only, `_set_` of every attribute |
| `OperationTable.NothingElseIsDeclared` | src/OCI/OperationTable.cpp:487-613 | no other declaration is made, and none under other ids |
| `OperationTable.ImplicitIsDeclared` | src/OCI/OperationTable.cpp:619-644 | `_is_a` and `_non_existent` are declared for the interface |
| `OperationTable.DeclsCount` | src/OCI/OperationTable.cpp:487-613 | nothing is declared twice over |
| `OperationTable.MatchesIff` | src/OCI/OperationTable.cpp:480-483 | a desired name with `et_` after an underscore and one character is looked for among accessors, any other among operations |
| `OperationTable.FoundStays` | src/OCI/OperationTable.cpp:389-403 | an earlier successful lookup gives the same list for ever: adding appends rows, lookups keep them |
| `OperationTable.RequestAndReplyAgree` | src/lorica/GenericEvaluator.cpp:66-140 | a request that adds the interface uses the list its reply will find if and only if the name is not declared or its first declaration is the only one of its kind |
| `OperationTable.PlainIsStraight` | src/OCI/OperationTable.cpp:480-607 | if no operation has an accessor's name, that is the same as being declared at most once |
| `OperationTable.RequestListSigned` | src/lorica/GenericEvaluator.cpp:66-87 | a request for an operation declared once works with the signature its interface gives it |
| `OperationTable.OperationTable.RequestThenReply` | src/lorica/GenericEvaluator.cpp:66-140 | finding, adding if missing and finding again on the table itself give that |
| `OperationTable.RowsPerList` | src/OCI/OperationTable.cpp:183-296 | a list is shared by one row for every id of its declaration |
| `OperationTable.GivenPerMatch` | src/OCI/OperationTable.cpp:597-606 | the counts given out by a call equal the declarations of the desired name and kind |
| `Requests.EvaluateRequest` | src/lorica/GenericEvaluator.cpp:50-126 | every argument is rewritten by its own parameter; the table stays valid, memory included; an operation found before, or whose first declaration is the only one of its kind, is found again with the same list |
| `Requests.EvaluateReply` | src/lorica/GenericEvaluator.cpp:128-143 | by the list that the table gives for the operation: the server's result rewritten in full, then the values of the parameters |
| `Requests.EvaluateException` | src/lorica/GenericEvaluator.cpp:146-186 | the same for a user exception |
| `Requests.ReplyIsAligned` | src/lorica/GenericEvaluator.cpp:93-109 | on the list built for the reply of its own request, aligning gives each value its own parameter |
| `Requests.Serve` | src/lorica/GenericEvaluator.cpp:50-143 | of a request and its reply: for an operation found before, or whose first declaration is the only one of its kind, arguments, result and answer are all rewritten by one list, each for its side |
| `Registration.MapperRegistry.InitMappers` | src/lorica/MapperRegistry.cpp:146-203 | after any calls the chain is the added mappers in order, then the last generic one, then the null one with all its types |
| `Registration.ChainAfterInit` | src/lorica/MapperRegistry.cpp:78-203 | for every order of calls the chain is added mappers, last generic, null with all its types, and no later call changes it |
| `Registration.WhoMaps` | src/lorica/MapperRegistry.cpp:146-203 | a type goes to the first added mapper that takes it, else to the generic one, else to the null one, else to nobody |
| `Registration.NullProxyMapper.Takes` | src/lorica/NullProxyMapper.cpp:44-56 | the search loop: a type on the list, or any if there is none |
| `Registration.GenericMapper.FindEvaluator` | src/lorica/EvaluatorBase.cpp:55-64 | found if and only if in the list |
| `Registration.OneEvaluatorPerType` | src/lorica/GenericMapper.cpp:99-126 | over any questions no type gets two evaluators, and with a steady repository the answer is the repository's |
| `Configuration.WordsJoin` | src/lorica/FileConfig.cpp:129-133 | splitting a joined value is joining the split ones |
| `Configuration.WordsOfPiece` | src/lorica/ConfigBase.cpp:509-530 | a piece without blanks is one word, itself |
| `Configuration.Split` | src/lorica/ConfigBase.cpp:509-530 | the loop gives the words between the blanks |
| `Configuration.Blank` | src/lorica/FileConfig.cpp:96-110 | every occurrence of the character becomes a blank, all else stays |
| `Configuration.Clean` | src/lorica/FileConfig.cpp:84-124 | the setting of a line after comments and blanks |
| `Configuration.ParseExact` | src/lorica/FileConfig.cpp:84-124 | a line sets a token to a value if and only if they stand at its start with one blank between, CR and TAB counting as blanks, and only blanks before the comment or the end |
| `Configuration.LoadFile` | src/lorica/FileConfig.cpp:65-139 | the loop over the lines gives the accrued values |
| `Configuration.WordsExact` | src/lorica/FileConfig.cpp:65-139 | the words of a token are those of its own lines in file order if and only if no line sets another token with the same hash |

## Left out

- Reference caching switched off: mappers then have no table and nothing is found back.
- Native references that carry security policy overrides, and the SSL checks that add them.
- `ProxyMapper::destroy_chain` and `remove_mapper`: their counts do not balance as written.
- The destructors, among them that of the table, which keeps the counts of bound values.
- Exactly one reply per request: the error paths of `handle_response_i` fall through to a second reply.
- References inside value types, which the program does not walk either, and recursive type codes.
- Freed memory as such: a deleted value is one whose count is 0, or that has left the heap.
- The linked lists of pages, free indices, argument sets, evaluators and mappers are sequences; the tree of operations is linked nodes.
- Evaluation.Evaluator.ProxifyValue: returns the rewritten value where the program updates a DynAny in place; aliasing between a DynAny and its components is not modelled.
- The one-way flag of an operation: nothing is rewritten for it beyond its arguments.
- The two operations that the operation table's constructor adds: `AddImplicit` adds them for any interface.
- Endpoint parsing, network interfaces, hostnames, UUID aliases, IFR options, logging, daemon and service loaders.
