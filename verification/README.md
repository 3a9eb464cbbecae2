# OpenScraper framework: a verified model of its algorithms

The framework is mostly glue around Kafka, Redis, HTTP and proxy libraries. This project models the parts that
are algorithms of their own and proves what they promise, for all inputs and all runs:

| files | what they model |
|---|---|
| `Basics` | what several modules use |
| `Numerals`, `FloatText`, `Atof`, `AtofTheorems`, `AtofValue`, `AtofRoundTrip` | the float scanner of `util/atof` |
| `QueryArgs` | the raw query-string editor of `reqwest/fasthttp_args.go` |
| `SpiderChain`, `SpiderTask` | the middleware chain, the retry loop and the task loop of a spider |
| `WorkerPool` | the workers of a main spider draining its item channel |
| `ItemPacking` | context items and the batcher that packs them |
| `ReuseFilter` | the proxy reuse filter and the selection loop around it |
| `KvScan` | the paging scan iterator |
| `MemStore` | the slice-backed key store with immutable entries |
| `TlsHeaders` | the ordered header list and the cookie string |
| `IndexingSlice` | the slice with a key index |

How the model is built:

- Loops and objects of the source are Dafny methods, loops and classes; each is proved against a function or a
  predicate that says what it computes, and the theorems are lemmas about those.
- Go's 64-bit mantissa wraps explicitly (`Push64`), and the scanner is proved never to wrap. `int` counters such
  as digit counts are unbounded: they are limited by the length of a string in memory.
- Bytes of float texts and query strings are characters. The code compares them and takes digit values, nothing else.
- Handlers and spider callbacks are arbitrary: every invocation runs a script of context calls (Next,
  StopExecution, Ok, Fail, Skip, NewRequest), and the theorems hold of all scripts. An `Env` gives, for a whole
  task run, the scripts of every callback and pass and what the stop and cancel checks see; the engine's trace and
  context are then equal to those of a pure language of runs.
- Arbitrary choice stands for map iteration order and for what a combiner returns.
- The worker pool is a transition system: every read of a channel length, send, receive, check and exit is a step,
  and theorems hold of every schedule of steps.
- A Go slice with spare capacity is an array and a length; appending writes in place when there is room.
- Time is an input wherever a property speaks of it.

Where the source and its comments or intentions differ, the model follows the code. Each item below is a property
one might expect and that the code does not have, with the exact condition under which it does:

- `parseItems` is commented as taking the earliest deadline of a batch; it takes that of the first item. The packed
  item expires no later than its children exactly when the first item does (`PackedExpiresWithTheFirst`,
  `EarliestIsMissed`).
- In a mixed batch a plain item is handed to the combiner as the packed parent itself. A combiner is given items
  only, each in its place, exactly when the batch is of context items (`ParentStandsForPlainItems`, `MixedBatch`).
- A batch that does not begin with a context item with a deadline is given to the combiner without copying, and
  the next arrival overwrites its first item; exactly the copied ones last (`ArriveBehind`, `OnlyCopiesLast`).
- The reuse filter's eviction is invisible exactly for reuse distances up to 10801 seconds
  (`EvictionIsInvisible`); accepted uses are at least the smaller of that limit and the distance apart
  (`AcceptedUsesAreApart`).
- An item that another worker adds to a worker's own channel can be left behind. Own channels always drain exactly
  when no worker does that, or no channel that holds anything belongs to a worker beside whom another one can be
  given a task (`OwnChannelsDrainExactly`); with one capacity for all, when there is one worker or the capacity is
  zero (`DrainWithOneCapacity`).
- A StopExecution that Start makes during a retry does not last: the next pass runs all the same, and the context
  is stopped behind it exactly when there are no handlers or one that the pass begins stops it
  (`StopInRetryIsUndone`, `StopInRetryHappens`).
- Handlers do not begin in passes only. A callback begins one exactly when the chain is live with a handler to come
  and the callback calls Next before any StopExecution of its own (`CallbackBeginsExactly`,
  `CallbackBeginsHandler`).
- Deleting the last cookie leaves the header of the request untouched. It is in step with the cookies exactly when
  some remain or it had none before (`DelCookie`, `LastCookieStays`).
- Deleting a cookie is by prefix. It is by name exactly for names without `=`, and for those that no cookie can
  begin with (`DeletesExactlyNames`).
- The query-string editor agrees with the list of pairs exactly for keys without `&` and `=` and values without `&`
  (`ReadsExactlyKeys`, `EditsExactlyKeysAndValues`), and a read panics only for keys with `&` (`PanicsExactlyOnAmp`).
- Reading keys and values off scan pages gives the consecutive pairs of all items exactly when every page has an
  even number of them (`PairsAreConsecutive`).

## Model

| member | source | states |
|---|---|---|
| Atof.LowerIs | util/atof/atof.go:3-5 | or-ing 0x20 into a character gives a lower-case letter exactly for that letter in either case |
| Atof.UnderscoreOK | util/atof/atof.go:10-55 | the state machine answers true exactly when every underscore follows a digit or the base prefix and precedes a digit |
| Atof.UnsignedUnderscoreOK | util/atof/atof.go:24-54 | the same for the text behind the sign |
| Atof.KeptFits | util/atof/atof.go:74-78 | 19 decimal or 16 hexadecimal digits never overflow 64 bits |
| Atof.ReadMantissa | util/atof/atof.go:83-132 | the digits loop leaves the significant digits counted, the kept ones as the mantissa (no wrap), the lost ones in `trunc`, and the point in `dp` |
| Atof.ReadExponentDigits | util/atof/atof.go:165-174 | the exponent loop consumes the run of digits and underscores and leaves the saturated exponent |
| Atof.ReadExponent | util/atof/atof.go:150-179 | an optional decimal, or mandatory hexadecimal, exponent part: where reading stops and whether it may |
| Atof.ReadFloat | util/atof/atof.go:57-191 | all seven results are those of the declarative reading `Scan`; negative exactly behind a minus |
| AtofTheorems.AcceptsExactlyLiterals | util/atof/atof.go:57-191 | ok with everything consumed exactly when the string is a literal of the grammar |
| AtofTheorems.AcceptedPrefixIsLiteral | util/atof/atof.go:57-191 | ok always means that the consumed prefix is a literal |
| AtofTheorems.ConsumedPrefixReadsAlike | util/atof/atof.go:57-191 | what follows the consumed prefix has no influence on any result |
| AtofTheorems.AcceptedPrefixIsLongest | util/atof/atof.go:57-191 | the prefix consumed is the longest literal that the text begins with |
| AtofTheorems.LiteralThenDelimiter | util/atof/atof.go:57-191 | a literal reads alike, to its end, in front of anything that cannot go on with one |
| AtofTheorems.SignAndBase | util/atof/atof.go:60-81 | for every text, negative exactly behind a minus, hexadecimal exactly behind 0x with something after it |
| AtofTheorems.ZeroHasNoExponent | util/atof/atof.go:181-183 | a zero mantissa comes with exponent zero |
| AtofTheorems.DigitValue | util/atof/atof.go:103-128 | the sixteen digits in either case, and their values |
| AtofTheorems.UnderscoreRule | util/atof/atof.go:32-54 | the rule for underscores spelled out in characters, with `BeforeUnderscore` |
| AtofTheorems.BrokenExponent | util/atof/atof.go:150-164 | an exponent mark without digits is rejected, with reading stopped behind the mark and its sign |
| AtofTheorems.RejectedReading | util/atof/atof.go:132-187 | of a rejected text the mantissa is read as if nothing followed it, and there is no exponent, unless only underscores were out of place |
| AtofValue.ReadingBracketsValue | util/atof/atof.go:83-183 | mantissa * B^exp <= V < (mantissa + 1) * B^exp for the exact value V under the exponent as read, with equality exactly when nothing was truncated |
| AtofValue.ReadingBracketsTrueValue | util/atof/atof.go:83-183 | the same for the true value of the literal when its exponent is below 100000 in magnitude |
| AtofValue.ExponentReadAsWritten | util/atof/atof.go:145-175 | exponents below 100000 are exact; larger ones keep their sign and read as 10000..99999 |
| AtofValue.AccumulatorIsExactBelow100000 | util/atof/atof.go:165-174 | the accumulator equals the number written below 100000 and is in 10000..99999 above, for any number of digits |
| AtofValue.KeptBrackets | util/atof/atof.go:109-116 | the kept digits bracket the value of all digits, tightly unless a nonzero digit was dropped |
| AtofValue.ValueIs | util/atof/atof.go:140-183 | moving the point: whole and fraction digits as one integer times one power |
| AtofRoundTrip.PrintedReadsBack | util/atof/atof.go:57-191 | printing a sign, a nonzero mantissa below 10^19, or below 16^16 in hexadecimal, with a point anywhere or none, and an exponent below 100000 or, in decimal, none, with either sign written or not, in capital letters or not, with an underscore inside the mantissa or the exponent or not, and reading it gives them back exactly, all consumed; each digit behind the point takes one place off the exponent |
| QueryArgs.NextValue | reqwest/fasthttp_args.go:8-15 | the index of the first `&`, or the length |
| QueryArgs.FindKeyIsLookup | reqwest/fasthttp_args.go:46-56 | the byte search finds where the first scanned pair named key that has an `=` begins, `key=` and its value standing there, or nothing exactly when there is none |
| QueryArgs.FindKeyIsFirstPlace | reqwest/fasthttp_args.go:46-56 | for any key at all, the search finds the first place where `key=` begins the string or a segment |
| QueryArgs.ReplaceValue | reqwest/fasthttp_args.go:59-64 | the bytes before, the new value, the bytes behind |
| QueryArgs.ReplacedIsEdit | reqwest/fasthttp_args.go:20-25 | overwriting the found value is the edit of the pair list |
| QueryArgs.AppendedIsEdit | reqwest/fasthttp_args.go:27-34 | appending an absent key is the edit of the pair list |
| QueryArgs.SetKeyValue | reqwest/fasthttp_args.go:17-35 | for keys and values without separators, scanning the result gives the scan of the trimmed string with the first such pair revalued, or the pair appended; for all others, the bytes written |
| QueryArgs.SetReplacesAtFirstPlace | reqwest/fasthttp_args.go:17-35 | for any key without `&` and any value, only the text behind the first `key=` up to the next `&` is replaced, or a last segment added |
| QueryArgs.EditsExactlyKeysAndValues | reqwest/fasthttp_args.go:17-35 | a set agrees with the pair list for every query string exactly when the key has no `&` or `=` and the value no `&` |
| QueryArgs.GetKeyValue | reqwest/fasthttp_args.go:37-43 | for keys without separators, the value of the first scanned pair named key that has an `=`, absent exactly when there is none; for all others, the bytes read, or the panic |
| QueryArgs.ReadsExactlyKeys | reqwest/fasthttp_args.go:37-43 | a read agrees with the pair list for every query string exactly when the key has no `&` or `=` |
| QueryArgs.PanicsExactlyOnAmp | reqwest/fasthttp_args.go:38-41 | some query string makes the read slice backwards exactly when the key has an `&` |
| QueryArgs.ArgsScanner.Next | reqwest/fasthttp_args.go:76-114 | one step reads the first segment into the reused pair and leaves the strictly shorter rest |
| QueryArgs.VisitAll | reqwest/tls_request.go:253-260 | the loop around Next visits exactly the scanned pairs in order |
| QueryPairs.PrintOfScan | reqwest/fasthttp_args.go:76-114 | printing the scanned pairs gives the string back, minus one trailing `&` |
| QueryPairs.ScanOfPrint | reqwest/fasthttp_args.go:76-114 | scanning a printed well-formed pair list gives the list back |
| QueryPairs.EditTouchesOnePair | reqwest/fasthttp_args.go:17-35 | a set replaces one pair in place or appends one; all other pairs, duplicates and empty segments keep their places |
| QueryPairs.SetThenScan | reqwest/fasthttp_args.go:17-35 | scanning after a set gives the edited pair list of the trimmed string |
| QueryPairs.GetAfterSet | reqwest/fasthttp_args.go:17-43 | the key reads back as set; every other key reads as before |
| QueryPairs.SecondSetOverridesFirst | reqwest/fasthttp_args.go:17-35 | of two sets of a key only the second counts, byte for byte; repeating a set changes nothing |
| QueryPairs.LookupTrimmed | reqwest/fasthttp_args.go:18 | trimming `&` changes no lookup |
| QueryPairs.TrimCutsAmps | reqwest/fasthttp_args.go:18 | trimming cuts a run of `&` off either end, all of it and nothing else |
| SpiderChain.ContextImpl.HandlerIndex | spider/context.go:160-167 | an index in range is stored and returned; any other returns the stored one |
| SpiderChain.ContextImpl.Next | spider/context.go:173-181 | index, status, request flag and calls become those of the interpreter `NextOn`: a live Next runs the next handler to its end, a stopped or exhausted one nothing |
| SpiderChain.ContextImpl.StopExecution | spider/context.go:202-204 | the chain is stopped from here on |
| SpiderChain.ContextImpl.Do | spider/context.go:122-128 | one pass leaves exactly the context of `PassOn`; without handlers it only resets the status, and a stop stays |
| SpiderChain.ContextImpl.Callback | spider/context.go:173-204 | a callback leaves the context its script leaves; it begins a handler exactly when the chain can begin one and the script calls Next before it stops; it takes back neither a stop nor a new request |
| SpiderChain.ContextImpl.StartAgain | spider/context.go:259-264 | a retry is counted once, Start runs under the status Retrying, and the status ends Failed |
| SpiderChain.PassBeginsHandlersInOrder | spider/context.go:122-210 | whatever handlers do, a pass begins exactly handlers 0..k in order, once each, k being the number of live Next calls as far as there are handlers; it ends stopped exactly when some invoked handler stopped it |
| SpiderChain.NoneBeginsAfterStop | spider/context.go:173-210 | in no pass does a handler begin after a StopExecution |
| SpiderChain.PassStopsExactly | spider/context.go:122-210 | a pass ends stopped exactly when the script of some handler it begins stops the context |
| SpiderChain.LastActionCounts | spider/context.go:173-204 | after any script: Ok, Fail and Skip set that status, a new request is noted, a stop stops, a Next that begins no handler changes nothing, and no action does anything else |
| SpiderChain.PassLeavesWhatHandlersDo | spider/context.go:122-128 | a pass ends with the last status set in it, Failed when none was; it wants a request, or is stopped, exactly when some action of it said so |
| SpiderChain.CallbackBeginsExactly | spider/context.go:173-204 | a callback begins a handler exactly when the chain is live with a handler to come and the callback calls Next before stopping |
| SpiderChain.CallbackBeginsHandler | spider/context.go:173-181 | a callback of a fresh task that begins the second handler |
| SpiderChain.HandlerStaysInLanguage | spider/context.go:173-204 | every handler, however it nests Next calls, keeps the calls in the chain language and the index where the chain is |
| SpiderChain.PlayIsSticky | spider/context.go:173-210 | nothing a script does un-stops a context or takes back a new request |
| SpiderTask.Retry | spider/factory.go:271-300 | between two passes: gives up when cancelled, or calls OnRetry, PreCheck and, unless stopped, Start, counting one retry |
| SpiderTask.DoRetry | spider/factory.go:263-305 | the retry loop runs one request to its end, tryTimes being the retries done; a Failed status then means stopped, exhausted or cancelled |
| SpiderTask.DoRequest | spider/factory.go:237-241 | with or without retries configured, the passes of one request are run to their end |
| SpiderTask.BeginTask | spider/factory.go:221-235 | PreCheck, PreStart and Start in order; OnFinished instead of a request when stopped or without one |
| SpiderTask.EndRequest | spider/factory.go:249-256 | OnFailed exactly after a Failed request, then OnFinished unless another request is wanted |
| SpiderTask.TaskLoop | spider/factory.go:207-259 | for any number of rounds and any environment: the loop is over, after OnFinished or at its checks, or it made that many requests and wants another; its events and context are those of the trace language |
| SpiderTask.DoTask | spider/factory.go:201-260 | the events of a task are a run of the trace language for its environment, complete and closed exactly when the task is over; with more rounds than the complete run has requests, it is that run |
| SpiderTask.OpenRunGoesOn | spider/factory.go:201-260 | no run is stuck before it is complete |
| SpiderTask.EnoughRounds | spider/factory.go:207-259 | every run is a prefix of the complete one, with no more requests |
| SpiderTask.StopInRetryIsUndone | spider/factory.go:264-300 | after a stop that Start makes during a retry the next pass runs all the same, and the context is stopped behind it exactly when there are no handlers or one that the pass begins stops it |
| SpiderTask.StopInRetryHappens | spider/factory.go:264-300 | a task in which such a stop is undone |
| SpiderTask.CompleteRunIsUnique | spider/factory.go:201-260 | for an environment there is one complete run, and every run is a prefix of it: nothing can be skipped, repeated or swapped |
| SpiderTask.EventsFollow | spider/factory.go:201-305 | which event comes behind which: the only way on is given by the last event, the status, stop and request of the context, the retries so far, the limit and the checks |
| SpiderTask.SuccessIsNotRetried | spider/factory.go:249-303 | a pass whose last status is Ok or Skipped is followed by no retry and no OnFailed |
| SpiderTask.SilentPassFails | spider/context.go:122-128 | a pass in which nobody sets a status fails, and so does one without handlers |
| SpiderTask.CallbackRuns | spider/factory.go:222-288 | every callback runs its whole script on the context from where the last event left it |
| SpiderTask.RetryLeavesFailed | spider/context.go:259-264 | the Start of a retry leaves the status Failed, and its stop and new request in place |
| SpiderTask.RunEndsOnce | spider/factory.go:201-260 | OnFinished occurs once, as the last callback, unless the run left at the checks; close occurs once, last |
| SpiderTask.LeavesOnlyAtTheChecks | spider/factory.go:208-218 | a run is left only when the checks say so, before the first request or between two requests |
| SpiderTask.FailedExactlyAfterFailure | spider/factory.go:249-251 | OnFailed is called exactly when a request ended Failed, and that means stopped, exhausted or cancelled |
| SpiderTask.PassesAreBounded | spider/factory.go:263-305 | tryTimes is the retries done, and no retry begins beyond MaxRetryTimes |
| SpiderTask.PassesPerRequest | spider/factory.go:201-305 | over any run at least one pass for each request and at most MaxRetryTimes + 1, or one without retries; OnFailed at most once for each request |
| SpiderTask.MaxRetryIsTheLastPass | spider/context.go:286-288 | IsMaxRetry holds in a pass exactly when retrying is not disabled by a negative limit and failing leaves no retry |
| WorkerPool.EveryAcceptedItemIsHandedOnce | spider/factory.go:158-198 | in every schedule each channel accepts exactly what it is offered while it has room, each accepted item is handed to do exactly once and in order, and when all workers have exited the channel is empty |
| WorkerPool.InvStep | spider/factory.go:174-197 | every step of source, cancel and workers keeps the invariant behind it |
| WorkerPool.AddIsAccepted | spider/register.go:58-65 | an add never waits, and puts its item in exactly when the channel has room |
| WorkerPool.SendIsAccepted | spider/factory.go:103 | the source waits for room and then puts its item in |
| WorkerPool.AcceptedIsOffered | spider/register.go:58-65 | over any schedule a channel accepts, in order, what it is offered while it has room |
| WorkerPool.SelectTakesAnyReadyCase | spider/factory.go:183-196 | a waiting worker can take the head of either of its channels, and can see the cancel, whenever that is ready |
| WorkerPool.CancelIsRemembered | spider/factory.go:193-195 | a worker comes to know of the cancel only by seeing it, and then for good |
| WorkerPool.EveryRunCanEnd | spider/factory.go:174-197 | after the cancel every schedule can be continued until all workers have exited |
| WorkerPool.GetsOut | spider/factory.go:174-197 | a worker gets to its exit by its own steps, whatever the others are doing, only taking items from its two channels |
| WorkerPool.ForeignAddStrands | spider/factory.go:172-187 | for any channel that holds something and any other worker that can be given a task, a schedule in which the item it adds there is never handed out |
| WorkerPool.OwnChannelsDrainExactly | spider/factory.go:172-187 | for any capacities, own channels are empty after every run exactly when no worker adds to another's, or none can strand an item |
| WorkerPool.DrainWithOneCapacity | spider/factory.go:172-187 | with one capacity: exactly without foreign adds, with a single worker, or with capacity zero |
| ContextItems.RecordKeepsLast | spider/item.go:123-133 | the stored maps hold the last value set for every key and id |
| ContextItems.LastSetIs | spider/item.go:123-133 | the last value set is that of the last setting for that key and id |
| ContextItems.RoutedGivesLast | spider/item.go:108-110 | giving a child what is stored gives it, under every key that was set, the last value set for its id |
| ContextItems.ContextItem.WithChildCtxValue | spider/item.go:123-133 | one more setting is recorded |
| ContextItems.ContextItem.AddChild | spider/item.go:88-95 | a context item becomes a child and gives its own item; any other gives the parent |
| ContextItems.ContextItem.Attach | spider/item.go:108-110 | in any map order, a child is given every stored key with its own value and nothing else |
| ContextItems.ContextItem.Release | spider/item.go:106-114 | a child's values are in place when it is cancelled |
| ContextItems.ContextItem.Cancel | spider/item.go:97-115 | a live cancel gives every child, under every key, the last value set for the id of its item, before cancelling it; a cancelled or expired item changes nothing |
| ItemPacking.Packer.Append | spider/item.go:39 | appending in place or into a larger array |
| ItemPacking.Packer.CopyChildren | spider/item.go:65-70 | the combiner's array is new and holds the unwrapped items position by position; the context items become the children |
| ItemPacking.Packer.FlushCopied | spider/item.go:60-73 | a batch that begins with a context item with a deadline is copied, packed and sent, whatever the combiner returns; the packed item is live and ready to be cancelled |
| ItemPacking.Packer.FlushPlain | spider/item.go:76 | any other batch is the buffer itself; exactly the combiner's result is sent, unless nil |
| ItemPacking.Packer.Arrive | spider/item.go:38-46 | an arrival is pending, or completes a batch of exactly the pending items and itself |
| ItemPacking.Packer.Tick | spider/item.go:47-53 | a tick flushes what is pending, if anything |
| ItemPacking.Handle | spider/item.go:36-54 | one round of the select keeps every copied batch as it was made |
| ItemPacking.Pack | spider/item.go:23-57 | in every interleaving batches plus pending are what was received, batches have 1 to max(1, bulkSize) items, what was sent are their results, and copies handed out still hold their items unwrapped, with the children and the deadline |
| ItemPacking.ArriveBehind | spider/item.go:38-46 | the next arrival leaves a copied batch as it is and replaces the first item of an uncopied one, in any packer |
| ItemPacking.OnlyCopiesLast | spider/item.go:60-76 | a batch keeps its contents whatever arrives next exactly when it begins with a context item with a deadline |
| ItemPacking.PlainBatchIsOverwritten | spider/item.go:45-76 | an item flushed alone and uncopied is gone from the combiner's slice with the next one, for any bulk size and items |
| ItemPacking.PackedExpiresWithTheFirst | spider/item.go:61-64 | a packed item expires no later than every child exactly when the first item of its batch does |
| ItemPacking.EarliestIsMissed | spider/item.go:61-64 | a batch whose second item expires before the packed item |
| ItemPacking.ParentStandsForPlainItems | spider/item.go:65-70 | a combiner is given each context item's own item in its place, and never the packed parent exactly when all are context items |
| ItemPacking.MixedBatch | spider/item.go:88-95 | a batch whose plain item reaches the combiner as the packed parent |
| ItemPacking.PackAndCancel | spider/item.go:60-133 | packing a batch, setting values and cancelling: every context item of the batch gets the last values set for the id of its item before it is cancelled, or nothing if the packed item has expired |
| ReuseFilter.ClassicPool.Filter | reqwest/proxz/pool_classic.go:72-90 | answer and new map of one call, the eviction loop in any order |
| ReuseFilter.ClassicPool.AcquireProxy | reqwest/proxz/pool_classic.go:43-70 | the first proxy that is neither expiring nor recently used, only that one being recorded |
| ReuseFilter.AnswersAgree | reqwest/proxz/pool_classic.go:72-90 | for nondecreasing times and distances up to 10801 seconds every answer is that of a filter that never evicts |
| ReuseFilter.BeyondTheLimitAnswersDiffer | reqwest/proxz/pool_classic.go:80-86 | for larger distances a run of calls on which they differ |
| ReuseFilter.EvictionIsInvisible | reqwest/proxz/pool_classic.go:72-90 | eviction changes no answer of any run exactly up to 10801 seconds |
| ReuseFilter.AcceptedUsesAreApart | reqwest/proxz/pool_classic.go:72-90 | accepted uses of one host are at least min(filterProxySec, 10801) apart |
| ReuseFilter.AcceptedExactlyWhenFar | reqwest/proxz/pool_classic.go:72-90 | up to 10801 seconds a host is accepted exactly when all its accepted uses are filterProxySec back at least |
| ReuseFilter.FarCallsAreAccepted | reqwest/proxz/pool_classic.go:75-78 | for any distance, a host whose accepted uses are all that far back is accepted |
| ReuseFilter.NothingIsEvictedEarly | reqwest/proxz/pool_classic.go:80-86 | up to 30000 hosts nothing is evicted |
| ReuseFilter.MapStaysSmall | reqwest/proxz/pool_classic.go:80-88 | after any run the map holds at most 30001 hosts, or at most one more than those with a use accepted within the three hours before the last accepted call |
| KvScan.KvScanIterator.Next | util/redis_ext/kvscan.go:121-158 | true exactly while items are to come, moving to the next one across empty pages, and false for ever after |
| KvScan.KvScanIterator.Fetch | util/redis_ext/kvscan.go:142-151 | the server is asked with the cursor of the last reply, so the page fetched is the next one of the chain |
| KvScan.KvScanIterator.KeyVal | util/redis_ext/kvscan.go:171-185 | the current item and the one after it on the page |
| KvScan.ScanAll | util/redis_ext/kvscan.go:121-169 | the Next and Val loop yields exactly the pages' concatenation |
| KvScan.ScanPairs | util/redis_ext/kvscan.go:121-185 | the Next and KeyVal loop yields exactly the pairs of each page, page by page, an odd item with the empty value |
| KvScan.PairsAreConsecutive | util/redis_ext/kvscan.go:171-185 | these are the consecutive pairs of all items exactly when every page has an even length |
| KvScan.LimitIsNoMatter | util/redis_ext/kvscan.go:135-157 | the pages of a finite chain do not depend on the bound by which it is known to be finite |
| KvScan.PagesAreThoseOfTheChain | util/redis_ext/kvscan.go:135-157 | for any replies chained by their cursors, of which the last alone fails or has cursor "0", the pages scanned are those of all of them |
| KvScan.ConsecutiveAt | util/redis_ext/kvscan.go:171-185 | pair k is made of the items 2k and 2k + 1 |
| MemStore.Store.Save | spider/memstore/store.go:695-739 | updates the entry in place or appends it, reusing a stale slot, respecting immutability |
| MemStore.Store.GetEntry | spider/memstore/store.go:769-779 | the entry of the key, if any |
| MemStore.Store.Remove | spider/memstore/store.go:1094-1109 | removes exactly the key's entry, shifting in place |
| MemStore.Store.Reset | spider/memstore/store.go:1112-1114 | empties the store, keeping its array |
| MemStore.Store.Perform | spider/memstore/store.go:695-763 | any run of operations does what the run does to the entry sequence, stale slots and all |
| MemStore.RunRefinesMap | spider/memstore/store.go:695-779 | over every run the store is a map with unique keys |
| MemStore.OperationLaws | spider/memstore/store.go:695-763 | what Set, SetImmutable, Remove and Reset each do to the entry of every key |
| MemStore.RunKeepsOrder | spider/memstore/store.go:718-739 | over every run the keys stay in the order in which they were first saved |
| MemStore.ImmutableStays | spider/memstore/store.go:703-715 | an immutable entry stays immutable, and unchanged but for SetImmutable, until removed or reset |
| TlsHeaders.TlsRequest.OrderKeys | reqwest/tls_request.go:130-151 | in any map order, a duplicate-free permutation of the stored keys, default names first in list order |
| TlsHeaders.DefaultNamesDiffer | reqwest/tls_request.go:29-47 | no two of the default names are equal in any case, which the order list relies on |
| TlsHeaders.MatchesAnyCase | reqwest/tls_request.go:138 | a stored name matches a default one exactly when it is that name in any case |
| TlsHeaders.TlsRequest.RankIs | reqwest/tls_request.go:135-144 | the place of a stored name in the order is that of the default name it matches |
| TlsHeaders.TlsRequest.SetHeader | reqwest/tls_request.go:126-166 | stores the header and rebuilds the request's header and order list |
| TlsHeaders.TlsRequest.SetCookie | reqwest/tls_request.go:168-171 | the cookie string is the printed list with one more cookie, or with the several it splits into; the request header carries it, and its order list is rebuilt |
| TlsHeaders.TlsRequest.DelCookie | reqwest/tls_request.go:178-197 | the cookie string is the printed list without the cookies of that name; the request header is rebuilt with it, and is in step exactly when cookies remain or it held none |
| TlsHeaders.LastCookieStays | reqwest/tls_request.go:192-196 | deleting the only cookie leaves it in the request header |
| CookieText.SplitOfPrint | reqwest/tls_request.go:178-180 | splitting a printed list gives its pieces and one empty string |
| CookieText.SplitConcat | reqwest/tls_request.go:169-180 | a cookie with separators inside splits into as many cookies, wherever it stands |
| CookieText.DeletingIsFiltering | reqwest/tls_request.go:178-191 | splitting, filtering by prefix and joining is printing the filtered list, for any name |
| CookieText.FilterIsByName | reqwest/tls_request.go:183-187 | for names without `=`, filtering by prefix is filtering by name |
| CookieText.NamedAsPrinted | reqwest/tls_request.go:169 | the name of a cookie is the key it was set with |
| CookieText.DeletesExactlyNames | reqwest/tls_request.go:183-187 | deleting is by name for all cookie lists exactly for names without `=`, or that no cookie can begin with |
| IndexingSlice.IndexingSlice.Add | util/collection/indexing_slice.go:50-60 | adds an absent key behind the others, keeping index and items in bijection |
| IndexingSlice.AddKeepsPlaces | util/collection/indexing_slice.go:50-60 | every earlier item keeps its place, and a new one goes behind them all |
| IndexingSlice.IndexingSlice.Delete | util/collection/indexing_slice.go:62-79 | swap-delete, keeping index and items in bijection |
| IndexingSlice.IndexingSlice.GetByKey | util/collection/indexing_slice.go:39-48 | the item of that key, if any |
| IndexingSlice.DeleteAgrees | util/collection/indexing_slice.go:62-79 | a deletion removes the key from the map and loses nothing else |
| IndexingSlice.DeleteMovesOnlyTheLast | util/collection/indexing_slice.go:72-78 | only the last item moves, into the freed place |
| IndexingSlice.RunRefinesMap | util/collection/indexing_slice.go:50-79 | over every run of Add and Delete the slice is a key-to-item map |

## Left out

- Network, broker, database, telemetry, signal and configuration code: I/O over libraries that are not part of this model.
- `Atof64`: its float64 arithmetic rounds, and it uses mantissa and exponent without looking at `ok` or `trunc`.
- SpiderTask.TaskLoop: callbacks can ask for new requests for ever, so the method runs a given number of rounds and says whether the task is over by then.
- Delays between passes, the error value and the log fields of a context.
- Handlers, callbacks and combiners that panic, or that do not return.
- Sub-spiders: their exit check reads the channel length and the parent's worker count separately (spider/factory.go:179), so the drain theorem is claimed for the main spider only. A global cancel and StopSpider end workers at once and are left out of it too, as is a SpiderFactory that returns nil.
- The worker's own channel shared between workers; each worker is given one of its own. A channel without a buffer, whose sends wait for a receiver, is not modelled; with capacity zero nothing is sent.
- QueryArgs.SetKeyValue: works on values, so it does not say that Go's `append` may write into spare capacity of the caller's slice. What a set or a get means for keys with `&` or `=` and values with `&` is left at the bytes.
- ItemPacking.Packer.FlushPlain: what the combiner does with the slice it is given is not modelled; combiners are taken not to write to it.
- ContextItems.ContextItem.Cancel: asking an item that embeds nil, or itself, for its id ends the program; the model covers cancels that ask only for ids that exist, and all of them when nothing was set for children.
- ReuseFilter.AnswersAgree: calls with decreasing times are not covered; the clock is read before the lock is taken, so concurrent callers can be slightly out of order.
- KvScan.KvScanIterator.Next: a malformed reply is modelled as an empty page with an empty cursor, which is how the code goes on from it; locks are left out.
- TlsHeaders.TlsRequest.SetHeader: case folding is that of a comparison with a lower-case ASCII name, which all default names are; it is not Unicode folding in general.
- `DelHeader` and `Clone`: they do not keep the stored headers, the request's header and the clone in step, so there is no invariant to prove.
- The typed getters of the key store and `Entry.Value` copies: shallow conversions.
- DNS cache, padding, compression pools, counters and the bulk writer.
