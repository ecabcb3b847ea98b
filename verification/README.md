# js-utils core, modelled in Dafny

This project models the core of the TypeScript utility library js-utils and
proves properties of the model. The modelled parts are:

- **Channels and subscribers** (`src/subscriber.ts`, with an identical copy in `src/subject.ts`):
  - `ChannelData` is a map from channel names to value stacks.
  - `ChannelSubscriber` and `Subscriber` are listener lists.
  - `Watcher` is a single-value cell with `setData`, `observe`, `once`,
    `computed` and the static `Watcher.computed`. Its synchronous
    notification cascade is modelled in full.
- **Strings** (`src/string.ts`, `src/shared/string.ts`): `stringifyClass`,
  `hyphenate`, `toCamelCase` and `bufferToBase64`.
- **Class names** (`src/web/class-name.ts` and `packages/utils/src/web/class-name.ts`):
  adding and removing a class name.
- **Objects** (`packages/utils/src/object.ts`): `isEmpty`, `hasOwn`, `isEqual`,
  `checkCircularStructure`, `clone`, `copyProperties` and `omit`, on
  JSON-like trees.
- **Query strings** (`packages/utils/src/web/http.ts`): `urlParamEncode`.
- **`useFetch` arguments** (`src/react/use-fetch.ts`): the argument normaliser `standard`.
- **Sandbox errors** (`packages/utils/src/node/san-box.ts`, with the older
  `src/node/san-box.ts`): the error reformatting `getErrorMessage`.

JavaScript values are one datatype, `JsValue.Value`:
- `undefined`, `null`, booleans, integers and strings.
- `Ref(id)`, which stands for an object or function identity.

Objects and arrays handed to the object helpers are `Objects.Json` trees.
Their keys come in insertion order.

Several operations exist in two copies that share the code. These are the
channel classes of `src/subscriber.ts` and `src/subject.ts`, `bufferToBase64`
and `toCamelCase` in both string files, and the two class-name files. Each
is modelled once, and the table cites both copies.

The one behavioural difference between the subscriber copies is how
`ChannelData.remove` reads its arguments. It is modelled twice, as
`RemoveInSubscriber` and `RemoveInSubject`, and `CopiesDiffer` shows an
input on which they disagree.

Modules:
- `Wrappers`: `Option`, plus `Result` for JavaScript `throw`.
- `JsValue`: values, truthiness and decimal text.
- `Seqs` and `Text`: sequence and whitespace-word helpers.
- `ChannelData`, `ChannelEvents`, `Subscriber`, `Watcher`.
- `Strings`, `ClassName`, `Base64`, `Objects`, `Http`, `UseFetch`, `SanBox`.

## Model

| member | source | states |
|---|---|---|
| ChannelData.Push | src/subscriber.ts:20-26 | the channel's stack gains the value on top (an absent channel starts empty); every other channel is untouched |
| ChannelData.Pop | src/subscriber.ts:28-42 | returns the top of the stack, or `undefined` for an absent or empty channel; the key is gone exactly when the stack had at most one value; other channels untouched |
| ChannelData.RemoveVal | src/subscriber.ts:53-57 | filters every occurrence of the value out of one channel if present, never adding or removing keys |
| ChannelData.Purge | src/subscriber.ts:67-69 | filters the value out of every channel and keeps the key set |
| ChannelData.RemoveInSubscriber | src/subscriber.ts:52-74 | `remove(x)` deletes the channel when `x` names an existing one and otherwise filters `x` out of every channel, keeping the other values in order; `remove(channel, data)` filters `data` out of that channel alone |
| ChannelData.RemoveInSubject | src/subject.ts:42-60 | `remove(string)` deletes that key; a non-string defined value is filtered out of every channel, keeping the other values in order; `remove(undefined)` changes nothing; the pair form filters `data` out of that channel alone |
| ChannelData.Clear | src/subscriber.ts:76-78 | the result holds no channel at all |
| ChannelData.ForEachInChannel | src/subscriber.ts:88-90 | visits the channel's values bottom to top with their indices, one call per value |
| ChannelData.ForEach | src/subscriber.ts:80-86 | given the channels in key order, it visits every position `(value, channel, index)` of the store exactly once and nothing else, channel by channel in that order and bottom to top within a channel |
| ChannelData.PushThenPop | src/subscriber.ts:20-42 | push then pop returns the pushed value and restores the store, except that a present-but-empty channel disappears |
| ChannelData.StackLaw | packages/utils/tests/subscriber.spec.ts:6-22 | pushing a sequence then popping as many returns them reversed and restores the store (last in, first out) |
| ChannelData.PushPopKeepNoEmptyChannels | src/subscriber.ts:20-42 | push and pop never leave an empty stack behind in a store that had none |
| ChannelData.RemoveCanLeaveEmptyChannel | src/subscriber.ts:52-74 | in both copies, `remove(channel, value)` on a channel holding only that value leaves the key in place with an empty stack |
| ChannelData.RemoveBreaksNoEmptyChannels | src/subscriber.ts:52-74 | so `remove` does not keep the no-empty-stack property that push and pop keep |
| ChannelData.CopiesDiffer | src/subject.ts:42-60 | the two `remove` argument readings disagree on a string that names no channel and on a number key |
| ChannelData.CopiesAgreeOnPairs | src/subject.ts:53-58 | with a defined value, the pair form of `remove` behaves the same in both copies |
| ChannelEvents.Observe | src/subscriber.ts:99-106 | the handler is appended to its channel only; a store holding only handlers keeps holding only handlers |
| ChannelEvents.Unsubscribe | src/subscriber.ts:99-106 | the channel's stack loses every registration of the handler and keeps its other handlers in order; other channels are untouched and no key is added or removed |
| ChannelEvents.UnObserve | src/subscriber.ts:117-124 | no arguments or a falsy first argument clears everything; any other call is `ChannelData.remove` with the same arguments, so a name with a handler filters that handler out of that channel and a handler alone is filtered out of every channel |
| ChannelEvents.Notify | src/subscriber.ts:127-131 | each handler of the channel is called once, in registration order, with the same payload |
| ChannelEvents.UnObserveNameDeletesChannel | src/subject.ts:103-110 | `unObserve(name)` with a non-empty name removes that channel and keeps the others |
| ChannelEvents.ObserveIsolation | src/subscriber.ts:99-131 | observing a channel does not change what notifying another channel calls; the new handler is called last |
| ChannelEvents.UnsubscribeIsolation | src/subscriber.ts:99-131 | after unsubscribing, notifying that channel never calls the handler and calls every other handler as many times as before; other channels are unaffected |
| Subscriber.Observe | src/subscriber.ts:140-145 | the listener list gains the new listener at the end and keeps the old ones in front |
| Subscriber.UnObserve | src/subscriber.ts:152-159 | no argument empties the list; a listener is removed wherever it occurs while every other listener stays, and nothing new appears |
| Subscriber.Notify | src/subscriber.ts:162-164 | one call per registration, in order, each with `(newVal, lastVal)` |
| Subscriber.NotifyCallsEachRegistration | src/subscriber.ts:162-164 | a listener registered k times is called exactly k times per notification |
| Subscriber.UnsubscribeSilencesOnlyThatListener | src/subject.ts:138-150 | after `unObserve(cb)`, `cb` gets no call, and every other listener gets as many calls as before |
| Subscriber.UnsubscribeIdempotent | src/subscriber.ts:152-159 | unsubscribing twice equals once, and unsubscribing undoes a fresh subscription of the same listener |
| Subscriber.UnsubscribeKeepsOrder | src/subscriber.ts:140-159 | unsubscribing one listener commutes with subscribing a different one |
| Watcher.Create | src/subscriber.ts:201-204 | a new root cell holding the initial value and no listeners |
| Watcher.Observe | src/subscriber.ts:221-230 | the callback is registered on that cell only, and `immediately` calls it once with the current value |
| Watcher.UnObserve | src/subscriber.ts:152-159 | the listener leaves that cell's list and nothing else changes |
| Watcher.Once | src/subscriber.ts:233-251 | a pending handle whose waiter is registered last on the cell |
| Watcher.Computed | src/subscriber.ts:253-257 | a new cell holding `cb(data)` that is derived from the source, with the derivation registered on the source |
| Watcher.StaticComputed | src/subscriber.ts:169-192 | one new cell per callback result; the shared callback is registered on each source once per occurrence in the source list |
| Watcher.SetData | src/subscriber.ts:207-214 | the network stays well formed and keeps every cell, reaction and handle |
| Watcher.SetDataSameValue | src/subscriber.ts:207-214 | setting the value a cell already holds (`===`) returns the network unchanged, whatever its listeners |
| Watcher.SetDataFrame | src/subscriber.ts:207-214 | `setData` stores the value, and it changes data, listeners or handles only downstream of the cell |
| Watcher.SetDataKeepsRoots | src/subscriber.ts:207-214 | no root cell other than the one being set changes value |
| Watcher.SetDataNotifiesUsers | src/subscriber.ts:207-214 | on a new value, the callbacks are called with `(new, last)` in order, exactly as `notify` calls them; the same value (`===`) changes nothing |
| Watcher.WatchDataScenario | packages/utils/tests/subscriber.spec.ts:107-123 | setting 2, 2, 10, 10 ends at 10, and the callback saw `(2, 0)` then `(10, 2)` |
| Watcher.UnObservedUserNotCalled | src/subscriber.ts:152-159 | on a cell whose listeners are all user callbacks, after `unObserve(cb)` the next `setData` to a new value calls every other callback and never `cb` |
| Watcher.ComputedTracksSource | src/subscriber.ts:253-257 | after the source is set, the computed cell holds `cb(value)`, whatever else listens to the source |
| Watcher.ComputedStartsInSync | src/subscriber.ts:253-257 | a computed cell starts at `cb(data)` with its derivation registered |
| Watcher.OnceResolution | src/subscriber.ts:233-251 | the handle settles on the first new value meeting the condition, and its waiter unregisters exactly then; a settled handle never changes |
| Watcher.StaticComputedTracksSources | src/subscriber.ts:169-192 | when the sources are root cells and one is set, every output equals the callback on the current source values |
| Watcher.StaticComputedStartsInSync | src/subscriber.ts:169-192 | the outputs start as the callback's results |
| Watcher.OutputsIndependent | src/subscriber.ts:169-192 | setting one output of a static `computed` never changes a sibling output |
| Watcher.WriterUnique | src/subscriber.ts:169-192 | every cell a reaction writes is derived, and records that reaction as its writer |
| Watcher.ReachIncreases | src/subscriber.ts:201-257 | every chain of derivations leads from older cells to newer ones, so a cascade ends |
| Strings.TruthyKeys | src/string.ts:9-11 | keeps exactly the keys whose value is truthy |
| Strings.TruthyIndices | src/string.ts:9-11 | the positions of the truthy entries, strictly increasing and all of them |
| Strings.TruthyKeysInOrder | src/string.ts:9-11 | the i-th kept key is the key of the i-th truthy entry, so order and repeats follow the entries |
| Strings.StringifyClass | src/string.ts:7-32 | the result is normalised: single spaces between non-empty words, none at either end |
| Strings.StringifyClassWords | src/string.ts:15-31 | the result's words are the words of the contributed names in order, joined by one space |
| Strings.StringifyClassFixpoint | src/string.ts:26-31 | stringifying an already stringified class gives it back |
| Strings.Hyphenate | src/string.ts:59-61 | the result has no upper-case letters, is never shorter, and starts with the lower-cased first character |
| Strings.ToCamelCase | src/string.ts:152-154 | the result is never longer than the input |
| Strings.CamelCaseOfHyphenate | src/string.ts:59-61 | `toCamelCase(hyphenate(s)) == s` for every camel-case `s` whose capitals follow a word character |
| Strings.HyphenateOfCamelCase | src/shared/string.ts:74-76 | `hyphenate(toCamelCase(s)) == s` for every lower-case kebab-case `s` |
| Strings.CamelCaseNoDash | src/string.ts:152-154 | text without a dash is unchanged |
| Strings.CamelCaseTwoPasses | src/shared/string.ts:74-76 | `toCamelCase` equals two independent passes: raise each letter right after a `'-'`, then drop each `'-'` right before a letter |
| Strings.HyphenateAppend | src/string.ts:59-61 | `hyphenate(a + b)` is `hyphenate(a)`, then one `'-'` exactly when `b` starts with an upper-case letter and `a` ends in a word character, then `hyphenate(b)`: a dash goes before each capital that follows a word character, never at the start |
| Strings.HyphenateOne | src/string.ts:59-61 | a single character is only lower-cased, so with `HyphenateAppend` the result is fixed for every input |
| Strings.HyphenateOnlyInsertsDashes | src/string.ts:59-61 | apart from inserted dashes, `hyphenate` only lower-cases: without their dashes, output and lower-cased input agree |
| Strings.HyphenateNoUpper | src/string.ts:59-61 | text with no upper-case letter is unchanged |
| ClassName.Add | src/web/class-name.ts:1-14 | the class words gain the name's words unless its trimmed form is already a token, in which case the attribute is unchanged |
| ClassName.Remove | src/web/class-name.ts:16-29 | the class words lose every occurrence of the trimmed name; an absent name leaves the attribute unchanged |
| ClassName.AddMakesToken | packages/utils/src/web/class-name.ts:1-12 | after adding a single-word name, it is one of the tokens |
| ClassName.AddIdempotent | src/web/class-name.ts:1-14 | adding a single-word name twice equals adding it once |
| ClassName.RemoveDropsToken | packages/utils/src/web/class-name.ts:14-25 | after removing a non-blank name, it is no longer a token |
| ClassName.RemoveIdempotent | src/web/class-name.ts:16-29 | removing a non-blank name twice equals removing it once |
| Base64.BufferToBase64 | src/string.ts:82-133 | the loop over full groups plus the one- and two-byte tail computes the RFC 4648 base64 text of the bytes |
| Base64.EncodeMain | src/string.ts:95-107 | the main loop yields the encoding of every full three-byte group |
| Base64.EncodeChunk | src/shared/string.ts:17-29 | masking and shifting a 24-bit chunk picks the four alphabet characters of its sextets |
| Base64.EncodeOneByte | src/string.ts:110-119 | one trailing byte becomes two characters and `==` |
| Base64.EncodeTwoBytes | src/string.ts:120-130 | two trailing bytes become three characters and `=` |
| Base64.AlphabetIsRanges | src/string.ts:85 | the alphabet is `A-Z`, `a-z`, `0-9`, `+`, `/` |
| Base64.DecodeEncode | src/shared/string.ts:4-55 | decoding the encoding gives the bytes back |
| Base64.EncodeLength | src/shared/string.ts:4-55 | the text is four characters per started group of three bytes |
| Base64.EncodePadding | src/shared/string.ts:32-52 | exactly `(3 - n mod 3) mod 3` trailing `=` characters |
| Base64.EncodeAlphabet | src/string.ts:82-133 | every character before the padding is in the alphabet |
| Objects.IsEmpty | packages/utils/src/object.ts:10-12 | true exactly when no key is an own property |
| Objects.IsEqual | packages/utils/src/object.ts:44-75 | on trees, never throws, and compares base values by `===`, arrays element-wise and objects key-wise |
| Objects.EqualReflexive | packages/utils/src/object.ts:44-75 | every tree with distinct keys per object is equal to itself |
| Objects.EqualSymmetric | packages/utils/src/object.ts:44-75 | the comparison is symmetric |
| Objects.EqualIgnoresKeyOrder | packages/utils/src/object.ts:63-74 | an object equals every object with the same key set whose lookups agree with its own, whatever the key order |
| Objects.NoCircleInTrees | packages/utils/src/object.ts:82-95 | no tree is reported circular |
| Objects.Clone | packages/utils/src/object.ts:104-139 | cloning a tree succeeds and gives a structurally identical copy |
| Objects.CloneIsEqual | packages/utils/src/object.ts:104-139 | a clone is `isEqual` to its original |
| Objects.CopyProperties | packages/utils/src/object.ts:148-160 | the result has exactly the listed keys, each once, with the source's values |
| Objects.Omit | packages/utils/src/object.ts:162-176 | the result has exactly the unlisted keys of the source, each once, with their values |
| Objects.OmitInOrder | packages/utils/src/object.ts:162-176 | `omit` keeps entry order: it distributes over concatenation, keeping a single entry exactly when its key is not listed |
| Objects.OmitCopyPartition | packages/utils/src/object.ts:148-176 | every key lands in exactly one of `omit` and `copyProperties`, with its value |
| Objects.OmitNothing | packages/utils/src/object.ts:162-176 | omitting no key gives the object back |
| Objects.CopyAllProperties | packages/utils/src/object.ts:148-160 | copying all of an object's keys in its own order gives the object back |
| Objects.Set | packages/utils/src/object.ts:155-157 | assignment overwrites an existing key in place or appends a new one, leaving other keys' values unchanged |
| Http.ObjEncodeOk | packages/utils/src/web/http.ts:11-32 | encoding fails exactly when some leaf on the way is `null` |
| Http.UrlParamEncodeThrows | packages/utils/src/web/http.ts:9-37 | `urlParamEncode` throws exactly when some leaf value is `null` |
| Http.ObjEncodeJoins | packages/utils/src/web/http.ts:11-32 | when no object on the way is empty, the result is `name=enc(value)` for each leaf in order, joined by `&` |
| Http.UrlParamEncodeLeaves | packages/utils/src/web/http.ts:34-36 | the query is `?` plus the joined leaves, or empty when there are none |
| Http.UndefinedSkipped | packages/utils/src/web/http.ts:18-20 | an `undefined` property contributes nothing, wherever it stands among the keys |
| Http.SingleValue | packages/utils/src/web/http.ts:23-27 | one defined base value gives `name=enc(value)` |
| Http.ArrayIndexNames | packages/utils/src/web/http.ts:14-23 | array elements are named by their decimal index: `a[0]`, `a[1]` |
| Http.StrayAmpersand | packages/utils/src/web/http.ts:25-31 | an empty nested object before a value leaves a stray `&` after `?` |
| UseFetch.Standard | src/react/use-fetch.ts:97-143 | keeps the URL, fills every missing argument, and passes `params` through or replaces it by `{}` |
| UseFetch.StandardOverloads | src/react/use-fetch.ts:42-90 | every one of the seven overloads is normalised to what it documents: absent parts empty, absent `immediate` false |
| UseFetch.StandardIdempotent | src/react/use-fetch.ts:97-143 | normalising a normalised tuple returns it unchanged |
| UseFetch.StandardKeepsGivenArguments | src/react/use-fetch.ts:97-143 | for arguments passed positionally, every given argument lands in a slot at or after its own position and every slot holds a given argument or its default (`{}`, `[]`, `false`) |
| SanBox.SplitOn | packages/utils/src/node/san-box.ts:70 | at least one piece, and no piece contains the separator |
| SanBox.SplitOnJoin | packages/utils/src/node/san-box.ts:70 | joining the pieces with the separator gives the text back |
| SanBox.LineMatch | packages/utils/src/node/san-box.ts:84-93 | finds the one `:digits` suffix of the first line when the line ends in it |
| SanBox.CaretMatch | packages/utils/src/node/san-box.ts:99-106 | finds the leftmost run of carets that ends the line, or reports that there is none |
| SanBox.Caret | packages/utils/src/node/san-box.ts:99-106 | the column is one past the caret run's start and the length is the rest of the line, both present exactly when there is a run |
| SanBox.GetErrorMessage | packages/utils/src/node/san-box.ts:67-109 | copies message and stack, defaults the name to `Error`, keeps a truthy cause, and locates the error exactly when the first stack line ends in `:line` |
| SanBox.EmptyStackNoLocation | packages/utils/src/node/san-box.ts:80-82 | no stack means no location |
| SanBox.SyntaxErrorLocation | packages/utils/tests/node/san-box.spec.ts:85-109 | a stack of the form `path:2`, a code line, then a caret line gives line 2, the column and length of the carets, and the code line |
| SanBox.GetErrorMessageFlat | src/node/san-box.ts:53-75 | the older version copies the message and stack, and gives `''` and `-1` unless the first line ends in `:line` |
| SanBox.FlatAgrees | src/node/san-box.ts:53-75 | both versions find the same file and line, and the older one's `''`/`-1` is exactly the newer one's missing location |

## Left out

- I/O and the host are not modelled:
  - `runScript` (module loading, `vm`, `require`) and the HTTP requests behind `ajax`.
  - `loadScript`, `copy`, `randomString`, `toBlob` and `base64ToBuffer`.
  - The browser cache and `useFetch`'s React state.
  - The reason: they are host calls with no logic of their own to prove.
- `encodeURIComponent` is the parameter `enc` of the query-string encoder. Nothing is assumed about it.
- `assert.ts` is not part of this model. `isUndef` is modelled as `=== undefined`, `isBaseType` as "neither object nor array", and `isObject` and `isArray` by the tree's constructor.
- Numbers are integers only: floating point and `NaN` are left out.
- Text is a sequence of characters: no Unicode case mapping beyond ASCII, and no surrogate pairs.
- `Object.keys` is modelled as insertion order; JavaScript's special ordering of integer-like keys is left out.
- Objects.IsEqual:
  - Does not model a custom `isEqual` method on `from`, or `Date` and other special objects.
  - Does not model the `deepCheck` branch on a truly circular value. The model holds trees only, so there are no cycles; `NoCircleInTrees` proves the check passes on them.
- Sparse arrays and array holes are left out.
- Http.ObjEncodeJoins:
  - Needs every nested object to be non-empty. An empty one leaves a stray `&`, shown by `Http.StrayAmpersand`.
  - The message of the `null` error is not modelled, only that it throws.
  - Top-level `params` is an object or array tree.
- Watcher:
  - User callbacks are identities whose calls are logged. Their effects, including re-entrant `setData` from a user callback, are left out, as are exceptions thrown by listeners.
  - The `Promise` of `once` is a resolution slot. Microtask timing is not modelled.
- Watcher.StaticComputedTracksSources: stated only for root sources. The reason: a derived source could be rewritten mid-cascade, and the callback result is then only partially written back (when its length differs from the number of outputs).
- ChannelEvents: a listener throwing during `notify` is left out.
- ClassName.AddMakesToken: stated for a name with no inner whitespace. A multi-word name is added as several words, and `Add`'s own contract covers it.
- SanBox.GetErrorMessage:
  - The stack's first line is matched by `/:\d+$/` and the third line by `/\^+$/`. These are modelled as the functions `LineMatch` and `CaretMatch`.
  - Line numbers above 2^53 are not rounded as `parseInt` would round them.
  - An empty `name` falls back to `"Error"`, modelled as the inherited `Error.prototype.name`.
- SanBox.GetErrorMessageFlat: the doc comment of `RunError` in `src/node/san-box.ts` says a missing line number is 0, but the code sets -1. The model follows the code.
- UseFetch.StandardKeepsGivenArguments: stated for arguments passed positionally, with no `undefined` before a defined argument. Argument values that are functions or class instances are treated like any other non-array, non-boolean object.
- ChannelData: channel names that are `Object.prototype` members (`toString`, `constructor`, `__proto__`) are left out. The store is a plain object, so looking such a name up finds the inherited function: push, pop and `forEachInChannel` then throw a `TypeError`, and `remove("toString")` in `src/subscriber.ts` takes the delete branch, which deletes nothing. The model treats every name as an own key only.
- Http.UrlParamEncodeLeaves: needs every nested object to be non-empty (`Filled`), like `Http.ObjEncodeJoins`. An empty nested object leaves a stray `&`, shown by `Http.StrayAmpersand`.
- Objects.Clone:
  - The same restriction to trees. Prototype-preserving construction is not modelled.
  - Values carry no identity, so `Copy` and `Clone` return a structurally identical tree. That the copy is fresh and shares nothing with its original cannot be stated in the model.
  - An own key `__proto__` (as `JSON.parse` can produce) is lost in JavaScript, because the assignment at `packages/utils/src/object.ts:135` calls the prototype setter. The model keeps every key.
- Objects.CopyProperties: a listed key absent from `from` is copied as `undefined`. The case where it names an inherited `Object.prototype` member (`toString`, `constructor`) is left out: JavaScript copies the inherited function there. An own `__proto__` key is lost by the assignment at `packages/utils/src/object.ts:156`; the model keeps it.
- Objects.Omit: the lookup `omitMap[key]` in a map built by `toBoolMap` (from `./array`, which is not part of this model) is modelled as membership in `keys`. An own `__proto__` key is lost by the assignment at `packages/utils/src/object.ts:171`; the model keeps it, which is also what `Objects.OmitNothing` and `Objects.CopyAllProperties` rely on.
- Objects.HasOwn: models membership in `Object.keys`. An array's `length`, which `hasOwnProperty` also reports, is not a key here.
- Text: `\s` and `trim` are modelled on ASCII whitespace only. Unicode spaces such as U+00A0 and U+2028 count as word characters in the model.
- Watcher.SetDataNotifiesUsers: stated for a cell whose listeners are all user callbacks. With derived listeners the cascade is covered by `SetDataFrame`, `ComputedTracksSource` and `StaticComputedTracksSources`. Setting the current value is a no-op for every cell, by `Watcher.SetDataSameValue`.
- Watcher.UnObservedUserNotCalled: stated for a cell whose listeners are all user callbacks, like `Watcher.SetDataNotifiesUsers`. With derived listeners the cascade may reach other cells where `cb` is still registered, so the statement would need `cb` to be absent downstream of the cell.
- ClassName.RemoveDropsToken: stated for a non-blank name. For a blank name `remove` leaves `""` among the tokens.
- ClassName.RemoveIdempotent: stated for a non-blank name, like `ClassName.RemoveDropsToken`.
- Watcher.StaticComputed: when the callback returns more values than there are outputs, the model stops writing at the last output, where `src/subscriber.ts:183-185` throws a `TypeError` on the missing watcher.
