# kikaha core, modelled in Dafny

This project models four parts of the kikaha micro-framework and proves properties about them.

- **Graceful shutdown** (`GracefulShutdown`, `graceful_shutdown.dfy`). `GracefulShutdownHandler` is an admission gate in front of a wrapped handler. It counts the requests in flight. Once shutdown is requested, it answers new requests with 503. It tells its shutdown listeners `true` when the count drains to zero or when shutdown is forced. The model is a class with the handler's own fields: `shutdown`, `activeRequests`, `shutdownListeners` and `next`. Ghost logs record:
  - every listener registered;
  - every `listener.shutdown(..)` call;
  - every call made on an exchange or on `next`;
  - the exchanges that carry the completion listener.

  `Valid()` ties the logs to the fields. Every registration is either still pending or has been notified exactly once, and the counter equals the number of forwarded exchanges not yet completed. Each public method is one atomic step.
- **Mergeable configuration** (`MergeableConfig`, `mergeable_config.dfy`). A YAML tree is a `Value`: null, a scalar, a list or a map.
  - `deepMerge` and `shouldMergeAnyWay` are methods proved equal to the merge function `MergedMaps`.
  - `readPath` is a loop proved equal to the walk function `Walk`.
  - `read` and the getters are functions. The model includes `String.split("\\.")` exactly, with empty trailing segments dropped.
- **Handler chaining** (`RequestHandlers`, `request_handler.dfy`). `andThen` and `AndNext.wrap` build a tree of `AndNext` nodes over leaf handlers. `HandleRequest` runs the tree as the Java code does. It is proved equal to a reference semantics: run the flattened leaves left to right until one stops.
- **Filter** (`Filters`, `filter.dfy`). `filter` and `first` are loops over a sequence. They are proved against the reference selection function `Selected`.

`wrappers.dfy` holds `Option` (a Java `null`) and `Result` (a thrown exception).

Two facts about the shutdown handler's code shape the model:
- There is no separate "drained" flag. The stored listeners fire when a call to `decrementRequests` brings the count to zero while shutdown is set, or when shutdown is forced. That call comes from a completed request or from a rejected one.
- `awaitShutdown` looks only at the count. A `forceShutdown` with requests still in flight does not make a waiter return `true`.

## Model

| member | source | states |
|---|---|---|
| `Filters.SelectedSound` | kikaha-injection/source/kikaha/core/cdi/helpers/filter/Filter.java:11-13 | every selected element is in the input and satisfies the condition |
| `Filters.SelectedComplete` | kikaha-injection/source/kikaha/core/cdi/helpers/filter/Filter.java:11-13 | every input element that satisfies the condition is selected |
| `Filters.SelectedIsSubsequence` | kikaha-injection/source/kikaha/core/cdi/helpers/filter/Filter.java:10-14 | the selection is a subsequence of the input, so it keeps the input order and is never longer |
| `Filters.Filter` | kikaha-injection/source/kikaha/core/cdi/helpers/filter/Filter.java:9-15 | the loop returns exactly the elements satisfying the condition, in input order (the reference selection) |
| `Filters.First` | kikaha-injection/source/kikaha/core/cdi/helpers/filter/Filter.java:17-22 | the earliest element satisfying the condition; null exactly when none does, that is, exactly when `filter` is empty; otherwise the head of `filter` |
| `RequestHandlers.Wrap` | kikaha-undertow/source/kikaha/undertow/http/RequestHandler.java:51-53 | a null next gives `current` itself; otherwise an `AndNext` of `current` and `next`; the leaves are those of `current` followed by those of `next` |
| `RequestHandlers.AndThen` | kikaha-undertow/source/kikaha/undertow/http/RequestHandler.java:26-28 | `h.andThen(n)` is `wrap(h, n)` |
| `RequestHandlers.HandleRequest` | kikaha-undertow/source/kikaha/undertow/http/RequestHandler.java:46-49 | running a chain first reaches its leftmost leaf |
| `RequestHandlers.HandleRequestIsScan` | kikaha-undertow/source/kikaha/undertow/http/RequestHandler.java:46-53 | running a chain with outer next `o` runs the chain's leaves and then `o`'s, in order, until one stops; a null next is reached only past the last leaf |
| `RequestHandlers.AndNextComposes` | kikaha-undertow/source/kikaha/undertow/http/RequestHandler.java:46-49 | `AndNext(h, n)` calls only `h`, as if `h` stood alone; `n`, followed by the outer next, is reached exactly when `h` calls its next |
| `RequestHandlers.ServeAndThen` | kikaha-undertow/source/kikaha/undertow/http/RequestHandler.java:62-64 | the top-level adapter passes a null next: `h.andThen(n)` serves `h`, then `n` if `h` called its next |
| `RequestHandlers.AndThenAssociative` | kikaha-undertow/source/kikaha/undertow/http/RequestHandler.java:26-28 | `a.andThen(b).andThen(c)` behaves as `a.andThen(b.andThen(c))` |
| `RequestHandlers.ChainReachesInOrder` | kikaha-undertow/source/kikaha/undertow/http/RequestHandler.java:26-64 | when every handler calls its next, `a.andThen(b).andThen(c)` reaches the leaves of a, b and c in that order, and the last one receives the outer null next |
| `RequestHandlers.StopHidesNext` | kikaha-undertow/source/kikaha/undertow/http/RequestHandler.java:46-49 | if `h` stops, `n` is never reached |
| `GracefulShutdown.Int32` | kikaha-core/source/kikaha/core/modules/GracefulShutdownHandler.java:92 | the `(int)` cast of the count: a 32-bit value congruent to the count modulo 2^32 |
| `GracefulShutdown.Int32IsZero` | kikaha-core/source/kikaha/core/modules/GracefulShutdownHandler.java:92-93 | the cast reads zero exactly for multiples of 2^32, so for every count in 32-bit range exactly when the count is zero |
| `GracefulShutdown.NotifiedAtMostOnce` | kikaha-core/source/kikaha/core/modules/GracefulShutdownHandler.java:74-77 | if every registration is either pending or notified, and no listener was registered twice, then none was notified twice and none notified is still pending |
| `GracefulShutdown.ListenersNotifiedAtMostOnce` | kikaha-core/source/kikaha/core/modules/GracefulShutdownHandler.java:71-124 | on a valid handler, each listener registered once is notified at most once, always with `true`, and never while still stored |
| `GracefulShutdown.GracefulShutdownHandler.constructor` | kikaha-core/source/kikaha/core/modules/GracefulShutdownHandler.java:31-44 | not shut down, no request in flight, no listener, nothing logged |
| `GracefulShutdown.GracefulShutdownHandler.ShutdownComplete` | kikaha-core/source/kikaha/core/modules/GracefulShutdownHandler.java:71-78 | every stored listener is told `true`, in list order, and the list is emptied; registrations stay accounted for |
| `GracefulShutdown.GracefulShutdownHandler.DecrementRequests` | kikaha-core/source/kikaha/core/modules/GracefulShutdownHandler.java:126-135 | the count drops by one; if shutdown is set and the new count is zero, the listeners fire and the list is emptied; otherwise no listener is touched |
| `GracefulShutdown.GracefulShutdownHandler.HandleRequest` | kikaha-core/source/kikaha/core/modules/GracefulShutdownHandler.java:47-57 | after shutdown: 503, exchange ended, count back where it was, nothing forwarded and no completion listener attached. Before shutdown: count up by one, completion listener attached, then forwarded to `next`. Keeps `Valid()` |
| `GracefulShutdown.GracefulShutdownHandler.Shutdown` | kikaha-core/source/kikaha/core/modules/GracefulShutdownHandler.java:60-62 | sets the flag and changes nothing else: no listener fires and the count is untouched |
| `GracefulShutdown.GracefulShutdownHandler.ShutdownAndDrain` | kikaha-core/source/kikaha/core/modules/GracefulShutdownHandler.java:60-62 | the corrected `shutdown` (see Findings): sets the flag and fires the listeners when nothing is in flight, so no listener is left stranded |
| `GracefulShutdown.GracefulShutdownHandler.ForceShutdown` | kikaha-core/source/kikaha/core/modules/GracefulShutdownHandler.java:64-69 | sets the flag and tells every stored listener `true` whatever the count; the count is unchanged and the list is emptied |
| `GracefulShutdown.GracefulShutdownHandler.AddShutdownListener` | kikaha-core/source/kikaha/core/modules/GracefulShutdownHandler.java:111-124 | before shutdown, or with requests in flight, the listener is stored and not notified; after shutdown with nothing in flight, it is told `true` at once and not stored |
| `GracefulShutdown.GracefulShutdownHandler.ExchangeEvent` | kikaha-core/source/kikaha/core/modules/GracefulShutdownHandler.java:140-146 | a completed exchange leaves the in-flight set; the count drops; the listeners fire if that drained a shut-down handler; then the next completion listener proceeds |
| `GracefulShutdown.GracefulShutdownHandler.AwaitShutdown` | kikaha-core/source/kikaha/core/modules/GracefulShutdownHandler.java:86-103 | fails before shutdown. Otherwise true exactly when one of the counts read before the deadline, the current one first, casts to zero. With the count already zero it is true without waiting |
| `GracefulShutdown.StrandedListener` | kikaha-core/source/kikaha/core/modules/GracefulShutdownHandler.java:60-62 | a listener added before `shutdown()` on an idle handler is not fired by `shutdown()`: after it the listener is still stored and unnotified, the handler is shut down with nothing in flight, and `awaitShutdown` already returns true |
| `GracefulShutdown.RejectionFiresStrandedListener` | kikaha-core/source/kikaha/core/modules/GracefulShutdownHandler.java:47-53 | continuing the stranded scenario: the next request is rejected with 503, and its decrement brings the count back to zero with shutdown set, so the stranded listener is told `true` and the list is emptied |
| `GracefulShutdown.DrainedListener` | kikaha-core/source/kikaha/core/modules/GracefulShutdownHandler.java:111-135 | the same calls with the corrected shutdown: the listener is told `true` at once |
| `MergeableConfig.MergedMaps` | kikaha-config/source/kikaha/config/MergeableConfig.java:152-181 | a merge never removes a key: the merged key set is the union of both key sets; every failure is an `IllegalArgumentException` |
| `MergeableConfig.ShouldMergeAnyWay` | kikaha-config/source/kikaha/config/MergeableConfig.java:160-181 | returns Put exactly when the key is absent or holds neither a collection nor a map. A list gets the new elements appended; a map is deep-merged. A collision with the wrong kind is an `IllegalArgumentException` |
| `MergeableConfig.DeepMerge` | kikaha-config/source/kikaha/config/MergeableConfig.java:152-158 | the loop over the new entries yields the merge function's result: the merged map, or the exception |
| `MergeableConfig.MergeIdentity` | kikaha-config/source/kikaha/config/MergeableConfig.java:152-158 | merging an empty map changes nothing; merging into an empty map gives the new map |
| `MergeableConfig.MergedKeyOutcome` | kikaha-config/source/kikaha/config/MergeableConfig.java:155-180 | per key: an absent, null or scalar original is overwritten; a list is extended with the new elements after its own; a map is merged recursively; a key only in the original keeps its value |
| `MergeableConfig.MergeCollisionFails` | kikaha-config/source/kikaha/config/MergeableConfig.java:164-186 | a collection met by a non-collection, or a map met by a non-map, makes the merge fail with `IllegalArgumentException` |
| `MergeableConfig.MergeFailsAt` | kikaha-config/source/kikaha/config/MergeableConfig.java:153-156 | one entry that fails to merge makes the whole merge fail |
| `MergeableConfig.MergeKeepsPaths` | kikaha-config/source/kikaha/config/MergeableConfig.java:152-181 | every nested path present in the original is still present after a successful merge |
| `MergeableConfig.MergeAddsPaths` | kikaha-config/source/kikaha/config/MergeableConfig.java:152-181 | every nested path present in the merged-in map is present after a successful merge |
| `MergeableConfig.Split` | kikaha-config/source/kikaha/config/MergeableConfig.java:130 | `split("\\.")`: no segment holds a dot; a path without a dot is its own single segment |
| `MergeableConfig.SplitJoin` | kikaha-config/source/kikaha/config/MergeableConfig.java:130 | a dotted path written from key segments splits back into exactly those segments |
| `MergeableConfig.ReadPath` | kikaha-config/source/kikaha/config/MergeableConfig.java:138-143 | the loop follows every segment but the last through nested maps. The result is null at the first missing key; a non-map value is a `ClassCastException` |
| `MergeableConfig.Read` | kikaha-config/source/kikaha/config/MergeableConfig.java:129-136 | `read(path, o -> o)`: an `ArrayIndexOutOfBoundsException` exactly when the path splits into no segments; otherwise only a `ClassCastException` can be thrown; a path without a dot reads that key of the root map. Its behaviour along nested paths is stated by `ReadNested`, `ReadFallsBackToRoot` and `ReadDotsOnly` |
| `MergeableConfig.ReadJoin` | kikaha-config/source/kikaha/config/MergeableConfig.java:129-136 | reading a path written from key segments reads those segments |
| `MergeableConfig.ReadNested` | kikaha-config/source/kikaha/config/MergeableConfig.java:129-143 | a path along nested maps reads the value stored there, or null when the last key is absent |
| `MergeableConfig.ReadFallsBackToRoot` | kikaha-config/source/kikaha/config/MergeableConfig.java:131-134 | when an intermediate key is missing, the last segment is looked up in the root map instead |
| `MergeableConfig.ReadDotsOnly` | kikaha-config/source/kikaha/config/MergeableConfig.java:130-134 | the path "." splits into no segments, and reading it is an `ArrayIndexOutOfBoundsException` |
| `MergeableConfig.GetObject` | kikaha-config/source/kikaha/config/MergeableConfig.java:63-66 | a path without a dot reads that key of the root map, null when absent |
| `MergeableConfig.GetString` | kikaha-config/source/kikaha/config/MergeableConfig.java:89-95 | a system property named `rootPath + path` wins. Otherwise the value read: a string, null, or `ClassCastException` for anything else; a read's exception propagates |
| `MergeableConfig.GetStringOr` | kikaha-config/source/kikaha/config/MergeableConfig.java:83-87 | gives the default, which may itself be null, exactly when `getString(path)` is null, and otherwise its value or its exception |
| `MergeableConfig.GetConfig` | kikaha-config/source/kikaha/config/MergeableConfig.java:55-61 | null exactly when nothing is at the path. Otherwise a sub-config over the map found there, with root prefix `rootPath + path + "."`. Any other value is an exception |
| `MergeableConfig.ConfigsOf` | kikaha-config/source/kikaha/config/MergeableConfig.java:118 | a config per list element under the same prefix; a null element gives none; a non-map element is a `ClassCastException` |
| `MergeableConfig.GetConfigList` | kikaha-config/source/kikaha/config/MergeableConfig.java:113-119 | empty when nothing is at the path; a list gives one sub-config per element; success only for null or a list |
| `MergeableConfig.GetStringList` | kikaha-config/source/kikaha/config/MergeableConfig.java:121-127 | empty when nothing is at the path; a list is returned as it is; success only for null or a list |
| `MergeableConfig.SubConfigIsView` | kikaha-config/source/kikaha/config/MergeableConfig.java:55-95 | along a path `q` that resolves inside the sub-config, the sub-config is a view: reading `q` in `getConfig(p)` reads `p.q` in the whole config, and a system property overrides it under the same full name |
| `MergeableConfig.SubConfigFallsBackToOwnMap` | kikaha-config/source/kikaha/config/MergeableConfig.java:129-136 | off such a path the view breaks: when the walk inside the sub-config meets a missing key, `read` looks the last segment up in the sub-config's own map (lines 132-133), while reading `p.q` in the whole config looks it up in the root map |
| `MergeableConfig.SubConfigDiverges` | kikaha-config/source/kikaha/config/MergeableConfig.java:129-136 | in `{a: {x: 1}, y: 2}`, reading `m.y` in `getConfig("a")` gives null, but reading `a.m.y` in the whole config gives 2 |

## Left out

- Thread safety in the shutdown handler is not modelled: `synchronized`, `volatile`, the atomic updater, `Thread.holdsLock` and `lock.notifyAll`/`lock.wait`. Each public method is one atomic step, so races between methods are not covered.
- GracefulShutdown.GracefulShutdownHandler.AwaitShutdown: the clock is a parameter. `observed` lists the counts read after each wake-up before the deadline, and running out of them is the elapsed deadline. A negative `millis` and the timing of wake-ups are not modelled.
- The count is an unbounded `int`. The Java `long` cannot overflow in practice; only the `(int)` cast in `awaitShutdown` is modelled, by `Int32`.
- The Undertow exchange API (`setStatusCode`, `endExchange`, `addExchangeCompleteListener`, `NextListener.proceed`) and the wrapped handler are foreign calls. They are recorded in the ghost log `exchangeCalls`. The model also assumes Undertow runs a completion listener once per exchange it was added to: that is `ExchangeEvent`'s precondition.
- A listener that throws during firing is not modelled; listeners are plain ids.
- YAML parsing, `load(File)` and `load(InputStream)` are left out: they are I/O. `create`, `toMap`, `getKeys` and `toString` are plain accessors.
- `getClass`/`instantiate` (`Class.forName`) and `getBoolean`/`getInteger` (`Boolean.valueOf`, `Integer.valueOf`) are left out, because they call into the Java runtime.
- `System.getProperty` is the parameter `properties`. The model does not capture that `System.getProperty("")` throws `IllegalArgumentException`, a case `getString("")` on the root config reaches.
- MergeableConfig.DeepMerge: the Java loop visits entries in `HashMap` order and updates the original map in place. When an entry throws, the entries merged before it stay merged. The model returns either the whole merged map or the failure, and the failure does not depend on which colliding key the loop meets first.
- Aliasing is not modelled. A map or list inserted by `put` is shared with the new document, and `addAll` extends the original list object in place, so a list reached from two keys would change in both. The model treats values as values.
- Configuration keys are strings (`Conf` is `map<string, Value>`). The YAML parser can also produce keys of other types, such as the `Integer` key of `8080: x`. `Map.get(String)` never finds such a key, and `deepMerge` keeps it apart from the string `"8080"`; the model cannot represent it.
- The exception message text of `checkArgument` and of the casts is left out.
- MergeableConfig.ConfigsOf: a null list element gives `None` in the model. The Java code builds a `MergeableConfig` over a null map there, which fails only when it is used.
- `getStringList` does not check the element types (the cast to `List<String>` is unchecked), so the model returns the list's values as they are.
- In `RequestHandlers`, a leaf handler is abstracted to "calls its next" or "stops". A leaf that calls its next passes null as that handler's next. Other side effects of a handler are not modelled.
- `asHttpHandler` is the adapter `Serve`. `RequestHandlers.Serve` itself has no contract of its own; `ServeAndThen` and `ChainReachesInOrder` state what it does.
- The `TinyList` class and the `Condition` interface are not part of this model: `filter` returns a sequence and the condition is a total predicate. Elements are never null; so the case where Java's `first` returns `null` because the matching element is itself `null` is not modelled.
- The authentication mechanism (FormAuthenticationMechanism.java), the authentication configuration (DefaultAuthenticationConfiguration.java) and `Serializer.java` are left out. They are Undertow and I/O glue with no logic of their own.

## Findings

| source | as written | input that shows it | evidently intended | confidence | as-written member | corrected member |
|---|---|---|---|---|---|---|
| kikaha-core/source/kikaha/core/modules/GracefulShutdownHandler.java:60-62 | `shutdown()` only sets the flag. It does not raise and lower the count around it as the Undertow original does. So on a handler with no request in flight, `shutdown()` itself does not fire the listeners stored before it | `addShutdownListener(L)`, then `shutdown()` with no request in flight: `awaitShutdown` already returns true, but L is not told. L stays stored until some later request is rejected (its decrement, lines 48-50 and 127-131, then fires L) or `forceShutdown` runs | the javadoc at lines 105-107 says a listener "will be invoked when all requests have finished", so shutting down an idle handler should fire the stored listeners, as the Undertow original's increment-then-decrement does | medium, not executed | `GracefulShutdown.StrandedListener` | `GracefulShutdown.GracefulShutdownHandler.ShutdownAndDrain` |
