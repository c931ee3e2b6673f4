# Request registry and response dispatch of the baselib HTTP layer

This project models the request-tracking core of the `baselib` HTTP layer of
AssemblySample. It also proves properties of that model.

Every page owns a tag, its creation time written as a string.

- **`RequestManager`**: a process-wide registry. For each tag it keeps
  - the Retrofit calls still in flight, in registration order;
  - a composite of download subscriptions.

  Cancelling a tag cancels every call under it and disposes its subscriptions.
- **`RequestHelper.sendRequest`**: checks the network, registers the call and enqueues it. When the call completes, it
  1. drops the completion if the tag is no longer live;
  2. otherwise unregisters the call;
  3. classifies the outcome into the listener calls it makes. The outcomes are: transport failure, the three HTTP status bands, a missing body, a body that is not a `BaseResponse`, the success code, the token-invalid code with its `checkLogin` gate, and any other application code.
- **`RequestHelper.sendDownloadRequest`**: uses the same registration and status bands, then
  - resolves the target directory and file name, with a timestamp prefix when the name is taken;
  - streams the body to the file on a worker thread, reporting integer-percent progress after every chunk;
  - stops as soon as the page is gone;
  - reports I/O failures through `downLoadFileFail`.

The project has four modules:

- `Disposables` (`disposables.dfy`): RxJava's `CompositeDisposable` as a value. A container holds its member subscriptions and a disposed flag. `remove` also disposes the subscription it removes. `add` on a disposed container disposes the new subscription instead of keeping it.
- `Registry` (`registry.dfy`):
  - the call table as specification functions on `map<Tag, seq<CallId>>`;
  - the `RequestManager` class, whose methods update its fields in place. `CancelRequestWithTag` keeps the source's cancelling loop.
  - Its invariant `Valid()` says three things: no tag maps to an empty list, no call is cancelled twice, and no container held by the registry is disposed.
  - `cancel()` calls are recorded in `cancelLog`, and disposals in `disposed`.
- `Dispatch` (`dispatch.dfy`):
  - the classification of an ordinary request's completion, as the sequence of listener calls it makes;
  - the `sendRequest` entry point and its enqueue callbacks, as methods on the registry.
- `Download` (`download.dfy`):
  - target resolution;
  - the copy loop, as a method proved against the specification function `CopyFrom`;
  - the worker thread, as a method proved against `TransferSpec`;
  - the `sendDownloadRequest` entry point and its callbacks.

Everything outside the core is an oracle parameter:

- network availability;
- `ActivityFragmentManager.isReTagExist`: in a download, its k-th query is answered by `live(k)`;
- the answer of `checkLogin`;
- whether a token-invalid listener is installed;
- the file system: directory present, `mkdir` succeeds, file exists;
- the clock;
- the stream: the chunk lengths `read` returns, the declared length, and where an I/O exception is raised.

The codes `REQUEST_SUCCESS_CODE`, `ON_TOKEN_INVALID_CODE` and `REQUEST_FAILD_CODE` are the parameter `Codes`.

Listener calls are recorded as a trace of events. Events posted to the main-thread `Handler` are recorded in posting order.

Four behaviours of the code are easy to misread. The model follows the code in each, and a lemma or contract exhibits it:

- **Progress is posted after every chunk, repeats included** (`RequestHelper.kt:223-226`). Two chunks that leave the percentage unchanged post the same value twice (`Download.RepeatedProgressPosted`). What holds is that the values never decrease (`Download.ProgressNonDecreasing`).
- **The download directory is checked only once a 200 response arrives** (`RequestHelper.kt:198-202`). When it is missing, the code calls `mkdir` and returns whether or not `mkdir` succeeded, reporting `onFail` only on failure (`Download.ResolveTarget`).
- **A download's call is unregistered when the response arrives** (`RequestHelper.kt:185`), not when the copy ends (`Download.OnDownloadCompletion`).
- **Liveness is checked per tag, not per call** (`RequestHelper.kt:78-79`). A late completion of a cancelled call passes the check once a new call has been registered under the same tag (`Dispatch.StaleCompletionPassesTagCheck`).

`Dispatch.CancelledRequestIsSilent` runs the scenario of a page destroyed while its request is in flight: the call is registered, the tag is cancelled, the late completion calls no listener, and a second cancel leaves the empty table as it is.

## Model

Every source path below is under `baselib/src/main/java/com/zhoujiulong/baselib/http/`. The table cites each path in full.

| member | source | states |
|---|---|---|
| Disposables.Add | baselib/src/main/java/com/zhoujiulong/baselib/http/RequestManager.kt:116 | `add` on a live container keeps its members, adds the subscription and disposes nothing. On a disposed container it leaves the container as it is and disposes exactly the added subscription |
| Disposables.Remove | baselib/src/main/java/com/zhoujiulong/baselib/http/RequestManager.kt:126 | `remove` keeps the flag and every other member, takes the subscription out, and disposes it exactly when it was a member, and nothing else |
| Disposables.Dispose | baselib/src/main/java/com/zhoujiulong/baselib/http/RequestManager.kt:68 | after `dispose` the container is disposed. A live container gives up and disposes all its members; a disposed one is unaffected |
| Registry.LiveIsPresence | baselib/src/main/java/com/zhoujiulong/baselib/http/RequestManager.kt:47-49 | in a table with no empty lists, `hasRequest(t)` holds exactly when `t` is a key |
| Registry.Register | baselib/src/main/java/com/zhoujiulong/baselib/http/RequestManager.kt:77-85 | `addCall` appends the call to the end of the tag's list, creating the list when the tag is absent. Every other tag keeps its entry, and no empty list appears |
| Registry.IndexOf | baselib/src/main/java/com/zhoujiulong/baselib/http/RequestManager.kt:94-95 | the position found is the first occurrence of the call, and it is in range exactly when the call is in the list |
| Registry.RemoveFirst | baselib/src/main/java/com/zhoujiulong/baselib/http/RequestManager.kt:94-95 | `ArrayList.remove` cuts out the first occurrence and keeps the rest in order. A call that is not listed leaves the list as it is |
| Registry.RemoveFirstMultiset | baselib/src/main/java/com/zhoujiulong/baselib/http/RequestManager.kt:94-95 | removal takes exactly one copy of the call out of the list's multiset |
| Registry.Unregister | baselib/src/main/java/com/zhoujiulong/baselib/http/RequestManager.kt:91-101 | `removeCall` is a no-op on an absent tag. Otherwise the tag's new list is the old one with the first occurrence of the call cut out and the rest in order, and the entry goes when that list is empty. Every other tag keeps its entry |
| Registry.UnregisterMultiset | baselib/src/main/java/com/zhoujiulong/baselib/http/RequestManager.kt:91-101 | `removeCall` takes one copy of the call out of the tag's calls, if the call is there |
| Registry.RegisterAllAdds | baselib/src/main/java/com/zhoujiulong/baselib/http/RequestManager.kt:77-85 | a sequence of `addCall`s adds exactly those calls, as a multiset, to the tag's calls |
| Registry.RegisterAllFrame | baselib/src/main/java/com/zhoujiulong/baselib/http/RequestManager.kt:77-85 | a sequence of `addCall`s under a tag keeps the no-empty-list invariant and leaves every other tag alone |
| Registry.UnregisterAllRemoves | baselib/src/main/java/com/zhoujiulong/baselib/http/RequestManager.kt:91-101 | a sequence of `removeCall`s takes exactly those calls, as a multiset, out of the tag's calls |
| Registry.UnregisterAllFrame | baselib/src/main/java/com/zhoujiulong/baselib/http/RequestManager.kt:91-101 | a sequence of `removeCall`s under a tag keeps the invariant and leaves every other tag alone |
| Registry.RegisterThenRemoveAllLeavesNoEntry | baselib/src/main/java/com/zhoujiulong/baselib/http/RequestManager.kt:77-101 | registering c1..cn under a fresh tag and then removing each of them, in any order, leaves no entry for the tag and every other tag as it was |
| Registry.CancelOrderSound | baselib/src/main/java/com/zhoujiulong/baselib/http/RequestManager.kt:59-61 | the cancelling loop cancels every listed call, only listed calls, none already cancelled, and none twice |
| Registry.DeadTagStaysDead | baselib/src/main/java/com/zhoujiulong/baselib/http/RequestManager.kt:55-101 | a tag that is not live stays so under any interleaving of removals, cancellations and registrations under other tags |
| Registry.RequestManager.constructor | baselib/src/main/java/com/zhoujiulong/baselib/http/RequestManager.kt:24-28 | the registry starts with no calls and no containers, and satisfies its invariant |
| Registry.RequestManager.HasRequest | baselib/src/main/java/com/zhoujiulong/baselib/http/RequestManager.kt:47-49 | under the invariant, true exactly when the tag is a key. When true, the tag has at least one call |
| Registry.RequestManager.AddCall | baselib/src/main/java/com/zhoujiulong/baselib/http/RequestManager.kt:77-85 | the call table becomes `Register` of the old one, everything else is unchanged, and the invariant is kept |
| Registry.RequestManager.RemoveCall | baselib/src/main/java/com/zhoujiulong/baselib/http/RequestManager.kt:91-101 | the call table becomes `Unregister` of the old one, everything else is unchanged, and the invariant is kept |
| Registry.RequestManager.CancelRequestWithTag | baselib/src/main/java/com/zhoujiulong/baselib/http/RequestManager.kt:55-71 | the tag leaves both maps and every call formerly under it is cancelled, in list order, skipping calls already cancelled. Its container's members are disposed and nothing else changes. An unknown tag, or a second cancel, changes nothing. Afterwards `hasRequest` is false |
| Registry.RequestManager.AddDisposable | baselib/src/main/java/com/zhoujiulong/baselib/http/RequestManager.kt:107-117 | the tag's container is created when missing and gains the subscription. Other tags and the call table are unchanged |
| Registry.RequestManager.RemoveDisposable | baselib/src/main/java/com/zhoujiulong/baselib/http/RequestManager.kt:123-128 | the subscription leaves an existing container and is disposed. The map's keys never change, so an emptied container stays |
| Dispatch.StatusMessage | baselib/src/main/java/com/zhoujiulong/baselib/http/RequestHelper.kt:81-103 | 404 and 502 share one message, 504 has another, and every other status a third, each band given in both directions |
| Dispatch.Classify | baselib/src/main/java/com/zhoujiulong/baselib/http/RequestHelper.kt:76-161 | at most one terminal callback and at most three listener calls. Success only for a 200 envelope carrying the success code while the tag exists. Never a no-internet error after enqueueing |
| Dispatch.FailureIsCommonError | baselib/src/main/java/com/zhoujiulong/baselib/http/RequestHelper.kt:152-161 | a transport failure gives one common error with the local failure code |
| Dispatch.NonOkStatusBands | baselib/src/main/java/com/zhoujiulong/baselib/http/RequestHelper.kt:81-103 | a non-200 status gives exactly one common error, with a null body, the status as its code and its band's message |
| Dispatch.MalformedOkBody | baselib/src/main/java/com/zhoujiulong/baselib/http/RequestHelper.kt:104-105 | on 200, a null body gives an empty-data error with code 200. A non-envelope body gives an error with the local failure code (lines 141-148) |
| Dispatch.SuccessDeliveredOnlyIfTagExists | baselib/src/main/java/com/zhoujiulong/baselib/http/RequestHelper.kt:110-114 | on the success code the body is delivered exactly when the tag exists at that point. The success test wins when the two codes coincide |
| Dispatch.TokenInvalidGate | baselib/src/main/java/com/zhoujiulong/baselib/http/RequestHelper.kt:116-132 | without a token listener, nothing fires. With one, `checkLogin` is asked first. When it answers true, that question is the only listener call. When it answers false, the token-invalid error and then `onTokenInvalid` follow, in that order |
| Dispatch.OtherCodeIsCommonError | baselib/src/main/java/com/zhoujiulong/baselib/http/RequestHelper.kt:133-140 | any other application code gives one common error carrying the body, its message and its code |
| Dispatch.SendRequest | baselib/src/main/java/com/zhoujiulong/baselib/http/RequestHelper.kt:63-73 | without a network, one no-internet error with the local failure code, and the registry is untouched. Otherwise the call is registered under its tag |
| Dispatch.OnCompletion | baselib/src/main/java/com/zhoujiulong/baselib/http/RequestHelper.kt:76-161 | a completion under a dead tag calls no listener and leaves the registry unchanged. Otherwise the call is unregistered once and the listener calls are those of `Classify` |
| Dispatch.CancelledTagDropsCompletions | baselib/src/main/java/com/zhoujiulong/baselib/http/RequestHelper.kt:78 | after a cancel, and while nothing new is registered under the tag, every completion under it is dropped, whatever else happens meanwhile |
| Dispatch.StaleCompletionPassesTagCheck | baselib/src/main/java/com/zhoujiulong/baselib/http/RequestHelper.kt:78-79 | a cancelled call's late completion passes the tag check once a new call is registered under the same tag. It leaves the table as it was and still reaches the listener |
| Download.Digit | baselib/src/main/java/com/zhoujiulong/baselib/http/RequestHelper.kt:204 | one decimal digit character with the digit's value |
| Download.Decimal | baselib/src/main/java/com/zhoujiulong/baselib/http/RequestHelper.kt:204 | the rendering of the clock reading is a non-empty string of decimal digits with no leading zero (only 0 itself starts with `0`) |
| Download.DecimalRoundTrip | baselib/src/main/java/com/zhoujiulong/baselib/http/RequestHelper.kt:204 | the timestamp prefix reads back as the clock reading it was made from |
| Download.ResolveTarget | baselib/src/main/java/com/zhoujiulong/baselib/http/RequestHelper.kt:197-205 | a missing directory always aborts, with `onFail` exactly when `mkdir` fails. Otherwise the file goes into the directory under its own name exactly when that name is free, and under the timestamp followed by the name when it is taken |
| Download.LongDiv | baselib/src/main/java/com/zhoujiulong/baselib/http/RequestHelper.kt:223 | Kotlin's `Long` division truncates toward zero: the remainder `a - q*b` is smaller than the divisor in magnitude and is zero or has the dividend's sign. On non-negative operands it agrees with mathematical division |
| Download.ToInt | baselib/src/main/java/com/zhoujiulong/baselib/http/RequestHelper.kt:223 | `toInt()` yields a 32-bit value that differs from its argument by a multiple of 2^32, so it is the argument itself whenever that fits |
| Download.Percent | baselib/src/main/java/com/zhoujiulong/baselib/http/RequestHelper.kt:223 | while the bytes read do not exceed the declared length, the progress is the integer percentage `sum * 100 / total` |
| Download.UnknownLengthWraps | baselib/src/main/java/com/zhoujiulong/baselib/http/RequestHelper.kt:223 | with the unknown declared length -1, the progress is `toInt()` of minus a hundred times the bytes read, for every length. It is exactly that from 1 to 21,474,836 bytes. Past that, `toInt()` wraps it modulo 2^32: positive from 21,474,837 bytes (2,147,483,596) up to 42,949,672 bytes (96), and negative again from 42,949,673 bytes (-4) |
| Download.CopyLoop | baselib/src/main/java/com/zhoujiulong/baselib/http/RequestHelper.kt:217-231 | the loop posts the progress values, exits, and makes the liveness queries that `CopyFrom` specifies |
| Download.Transfer | baselib/src/main/java/com/zhoujiulong/baselib/http/RequestHelper.kt:210-251 | the worker thread's listener calls and liveness queries are those of `TransferSpec`, exceptions and the closing of both streams included |
| Download.WriteBody | baselib/src/main/java/com/zhoujiulong/baselib/http/RequestHelper.kt:217-249 | once both streams are open, the listener calls and liveness queries are those of `Written`: the copy, then the failure or the flush and `onDone`, then the closing of both streams |
| Download.ReportFileFail | baselib/src/main/java/com/zhoujiulong/baselib/http/RequestHelper.kt:263-273 | `downLoadFileFail` makes one liveness query and posts `onFail` exactly when the page exists, and nothing otherwise, as `FileFail` specifies |
| Download.CloseStream | baselib/src/main/java/com/zhoujiulong/baselib/http/RequestHelper.kt:240-249 | closing a stream posts nothing and makes no liveness query when it succeeds. When it throws, it makes exactly one liveness query and posts `onFail` with the file-failure message exactly when the page is alive, nothing otherwise |
| Download.SumPrefixMonotone | baselib/src/main/java/com/zhoujiulong/baselib/http/RequestHelper.kt:222 | the bytes read never decrease from chunk to chunk |
| Download.ProgressIsPercentOfBytesRead | baselib/src/main/java/com/zhoujiulong/baselib/http/RequestHelper.kt:220-226 | the k-th posted value is the percentage of the bytes read up to and including the k-th chunk, with at most one value per chunk |
| Download.PercentMonotone | baselib/src/main/java/com/zhoujiulong/baselib/http/RequestHelper.kt:223 | more bytes read never give a smaller percentage, and the percentage stays in 0..100 |
| Download.PercentsOrdered | baselib/src/main/java/com/zhoujiulong/baselib/http/RequestHelper.kt:220-226 | the progress computed after an earlier chunk never exceeds that after a later one, and both lie in 0..100, when the body does not exceed its positive declared length |
| Download.PrefixPercentsOrdered | baselib/src/main/java/com/zhoujiulong/baselib/http/RequestHelper.kt:220-226 | any sequence of prefix percentages lies in 0..100 and never decreases |
| Download.ProgressNonDecreasing | baselib/src/main/java/com/zhoujiulong/baselib/http/RequestHelper.kt:217-231 | the progress values the loop posts lie in 0..100 and never decrease |
| Download.StopsAtFirstDeadCheck | baselib/src/main/java/com/zhoujiulong/baselib/http/RequestHelper.kt:225-229 | the loop leaves at the first liveness query answered false, having posted one value per chunk before it |
| Download.LiveCopyReadsToEnd | baselib/src/main/java/com/zhoujiulong/baselib/http/RequestHelper.kt:220-231 | while the page stays alive, the loop reads to the end, posting one value per chunk |
| Download.NoCallbackOnceTagGone | baselib/src/main/java/com/zhoujiulong/baselib/http/RequestHelper.kt:225-271 | a transfer that starts after the page is gone posts nothing, not even a failure |
| Download.DoneOnlyWhenLiveAfterLoop | baselib/src/main/java/com/zhoujiulong/baselib/http/RequestHelper.kt:232-236 | `onDone` is posted, with the target path, exactly when the streams opened, neither the copy nor the flush threw, and the page is alive at the query after the loop |
| Download.CompleteTransfer | baselib/src/main/java/com/zhoujiulong/baselib/http/RequestHelper.kt:210-251 | with no I/O failure, a non-zero length and the page alive, one progress value is posted per chunk, then `onDone` with the target path |
| Download.TenThousandBytes | baselib/src/main/java/com/zhoujiulong/baselib/http/RequestHelper.kt:217-236 | 10,000 bytes read 2,048 at a time post 20, 40, 61, 81, 100 and then `onDone` |
| Download.TenThousandBytesCopy | baselib/src/main/java/com/zhoujiulong/baselib/http/RequestHelper.kt:217-231 | with the page alive, the copy loop over that body posts exactly 20, 40, 61, 81 and 100 |
| Download.RepeatedProgressPosted | baselib/src/main/java/com/zhoujiulong/baselib/http/RequestHelper.kt:223-226 | an unchanged percentage is posted again: two 1-byte chunks of 1,000 post 0 and 0 |
| Download.ZeroLengthThrows | baselib/src/main/java/com/zhoujiulong/baselib/http/RequestHelper.kt:223-238 | a declared length of 0 makes the first progress division throw, which `downLoadFileFail` reports without any progress |
| Download.SendDownloadRequest | baselib/src/main/java/com/zhoujiulong/baselib/http/RequestHelper.kt:173-181 | without a network, `onFail` and no registration. Otherwise the call is registered under its tag |
| Download.OnDownloadCompletion | baselib/src/main/java/com/zhoujiulong/baselib/http/RequestHelper.kt:183-259 | a completion under a dead tag is dropped. Otherwise the call is unregistered at once, and then: a failure reports its reason, a non-200 status reports its band, and a 200 response goes to the resolved target with `onStart` and the worker's events when the page exists |

## Left out

- Concurrency: `@Synchronized`, `ConcurrentHashMap` and the worker `Thread`. Registry operations are modelled as atomic steps. `Registry.DeadTagStaysDead` covers interleavings of those steps.
- The double-checked-locking singletons of `RequestManager` and `RequestHelper`. A `RequestManager` object is passed explicitly.
- Delivery through `Handler.post`: events are recorded in posting order, on the assumption that the main looper runs them in that order.
- The Retrofit/OkHttp transport. A completion is an abstract datatype, and calls are identified by number, with `isCanceled` read from the cancel log.
- `setOnTokenInvalidListener`: whether a listener is installed is a parameter.
- `NetworkUtil`, `ContextUtil`, `ActivityFragmentManager.isReTagExist` and `CodeConstant` are not part of this model. They enter as parameters.
- Files and streams are oracles: chunk lengths, the declared length and failure flags. The bytes themselves and the partial file left behind are not modelled.
- Exception messages: the `onFail` message for file failures is one opaque value, and the transport's reason is a parameter.
- The user-facing strings are distinct opaque constants.
- Download.Percent: does not model `Long` overflow of `sum * 100`, because the bytes read are unbounded integers. The truncation of `toInt()` is modelled.
- Download.Stream: a read or write that throws is modelled only after the listed chunks (`failsAtEnd`), and a flush that throws is folded into it. After the loop leaves early, the flush is taken to succeed.
- Download.ProgressNonDecreasing: proved only when the declared length is positive and the body does not exceed it, which is what the source relies on. For a declared length of -1 (unknown), the progress is `toInt()` of minus a hundred times the bytes read. It is negative from 1 to 21,474,836 bytes, positive from 21,474,837 to 42,949,672 bytes, negative again from 42,949,673 bytes, and keeps alternating as `toInt()` wraps modulo 2^32 (`Download.UnknownLengthWraps`). For a body longer than declared, the progress passes 100.
- The timestamp prefix is the clock reading in decimal, as `Long.toString` gives it for a non-negative reading. Negative readings are not modelled.
- `SimpleFragment`, which only supplies the tag, is not part of this model.
