# modern_python_demo, modelled in Dafny

This project models the core of `modern_python_demo`, a Python package that
shows off decorators, closures, generators and asyncio. It also models the
small release tool that bumps the version in `pyproject.toml`. Each core
source file has its own module:

- `Decorators` (`decorators.dfy`) models two decorators.
  - `memoize_with_limit` is a class `Memoizer`. Its fields are the closure's
    `cache` dict and `order` list, and `Call` updates them in place the way
    the wrapper does. The call key is `(args, sorted kwargs)`, and the module
    proves what that key means. The LRU bookkeeping is written as two
    transitions: `Touch` for a hit and `Admit` for a miss. Each has an
    invariant-preservation lemma.
  - `with_metadata` is a method. It installs the named attributes on a
    `Target` object in place.
- `Events` (`events.dfy`) models the two classes of `events.py`.
  - `EventBroker` is a class whose subscriber map is updated in place.
    `Emit` builds, in a loop, the list of calls it schedules.
  - `Scheduler` is a class that keeps a list of `TaskHandle` objects.
    `CancelAll` cancels them in a loop.
- `BumpVersion` (`bump_version.dfy`) models the bump tool's logic:
  - `splitlines` over every line break Python recognises.
  - The `version = "X.Y.Z"` regular expression, as an exact matcher with its
    five groups.
  - `int()` of the digit groups and the three bump rules.
  - The new line, the joined text and the returned version string.
  - The error when there is no version line.
  `BumpVersionText` is the loop over the lines, proved against the function
  `BumpText`.
- `Pipelines` (`pipelines.dfy`) models generator stages. Each stage is a
  function from the items it is fed to the items it yields. The module
  covers `pipeline_stage`, `filter_even`, `multiply` and `compose`.
- `Cache` (`cache.dfy`) models `fib` and the memo table that `lru_cache`
  keeps for it.
- `Introspect` (`introspect.dfy`) models the closures `make_adder` and
  `factory_from_spec`.
- `PyList` (`pylist.dfy`) holds shared helpers: `list.remove`,
  duplicate-freedom, and the removal of every occurrence. `Wrappers`
  (`wrappers.dfy`) holds `Option` and `Result`.

No input or output is modelled:
- The bump tool takes the file's text as a parameter.
- It returns either the text it would write together with the new version,
  or `VersionNotFound`, the `RuntimeError` it raises.
- Functions passed to the decorators are total Dafny functions.
- Event handlers and scheduled callbacks are named references, identified by
  an id.

## Model

| member | source | states |
|---|---|---|
| PyList.RemoveFirst | modern_python_demo/decorators.py:66 | `list.remove(x)` on a list that holds `x` (both callers, here and at `events.py:33`, check membership first): the list without the first occurrence of `x`, one element shorter |
| PyList.RemoveFirstCount | modern_python_demo/decorators.py:66 | `list.remove(x)` on a list that holds `x` takes away exactly one occurrence of `x` and nothing else |
| PyList.RemoveFirstSplit | modern_python_demo/events.py:33 | `list.remove` deletes the first occurrence: with no `x` before position `|p|`, removing `x` from `p + [x] + q` yields `p + q` |
| PyList.RemoveFirstNoDup | modern_python_demo/decorators.py:66-67 | on a duplicate-free list, removing the first occurrence removes every occurrence, and the list stays duplicate-free |
| PyList.WithoutCount | modern_python_demo/decorators.py:66 | dropping every occurrence of `x` zeroes its count and keeps every other count |
| PyList.WithoutMember | modern_python_demo/decorators.py:66 | `y` survives the removal of every `x` exactly when `y` was present and `y != x` |
| PyList.NoDupCard | modern_python_demo/decorators.py:78 | a duplicate-free list has as many elements as its set of elements, so `len(cache)` equals `len(order)` |
| Decorators.StrLess | modern_python_demo/decorators.py:64 | Python's `<` on `str`, which `sorted` uses to order the keyword items: code points compared left to right, and a proper prefix comes first |
| Decorators.StrLessIrreflexive | modern_python_demo/decorators.py:64 | Python's string order never puts a string before itself |
| Decorators.StrLessTransitive | modern_python_demo/decorators.py:64 | Python's string order is transitive |
| Decorators.StrLessTotal | modern_python_demo/decorators.py:64 | any two distinct strings are ordered one way or the other |
| Decorators.Insert | modern_python_demo/decorators.py:64 | one insertion step of `sorted` adds exactly the item |
| Decorators.SortByName | modern_python_demo/decorators.py:64 | `sorted(kwargs.items())` is a permutation of the items |
| Decorators.InsertSorted | modern_python_demo/decorators.py:64 | inserting an item whose name is new into a sorted list keeps it sorted |
| Decorators.SortByNameSorted | modern_python_demo/decorators.py:64 | with distinct keyword names, `sorted(kwargs.items())` is strictly increasing by name |
| Decorators.SortedUnique | modern_python_demo/decorators.py:64 | two name-sorted lists with the same items are equal, so the sorted tuple does not depend on the order the keywords were passed in |
| Decorators.MakeKey | modern_python_demo/decorators.py:64 | the key keeps the positional arguments and a permutation of the keyword items |
| Decorators.SameKeyIff | modern_python_demo/decorators.py:64-65 | two calls share a cache entry if and only if they have the same positional arguments and the same keyword items, whatever order the keywords came in |
| Decorators.PositionalAndKeywordKeysDiffer | tests/test_core.py:65-66 | `add(1, 2)` and `add(1, b=2)` have different keys |
| Decorators.ItemsToMapLookup | modern_python_demo/decorators.py:69 | the mapping built from distinct keyword items holds each item's value under its name, and no other names |
| Decorators.SameItemsSameMap | modern_python_demo/decorators.py:69 | keyword lists with the same items give `func` the same mapping |
| Decorators.ItemsToMap | modern_python_demo/decorators.py:45-46 | the mapping that a list of name/value items builds, with a later item overriding an earlier one of the same name. It is the `**kwargs` mapping `func` receives at line 69 and the attributes the `setattr` loop installs |
| Decorators.SortKeepsMap | modern_python_demo/decorators.py:64-69 | the sorted key carries the same keyword mapping as the call |
| Decorators.Touch | modern_python_demo/decorators.py:66-67 | a hit: the dict is kept, and the key is removed from `order` and appended at the back |
| Decorators.Admit | modern_python_demo/decorators.py:69-74 | a miss: the result is stored under the key and the key is appended. When `order` then holds more than `maxsize` keys, the front key is popped and deleted from the dict |
| Decorators.SizesAgree | modern_python_demo/decorators.py:78 | under the invariant, the dict and the order list have the same size |
| Decorators.AppendFreshNoDup | modern_python_demo/decorators.py:71 | appending a key that is not yet present keeps `order` duplicate-free |
| Decorators.TouchKeepsInvariant | modern_python_demo/decorators.py:65-68 | a hit keeps the invariant and the dict, moves its key to the back, and keeps the relative order of the other keys |
| Decorators.TouchSameKeys | modern_python_demo/decorators.py:66-67 | removing a key and appending it again keeps the set of keys |
| Decorators.AdmitKeepsInvariant | modern_python_demo/decorators.py:69-74 | after a miss there are at most `maxsize` entries (none when `maxsize` is negative), the keys of `cache` are exactly those of `order`, and `order` has no duplicates |
| Decorators.AdmitEvicts | modern_python_demo/decorators.py:70-74 | on overflow the oldest key leaves both `order` and `cache`, and the new entry survives when `maxsize >= 1`; without overflow the new key joins at the back |
| Decorators.Memoizer.constructor | modern_python_demo/decorators.py:52-60 | starts with an empty cache and order, and `maxsize` defaults to 128 |
| Decorators.Memoizer.Call | modern_python_demo/decorators.py:63-75 | returns `func(*args, **kwargs)`. A hit invokes nothing, returns the stored value and moves the key to the back. A miss invokes `func` once and admits the entry, evicting the oldest on overflow. Every stored value is `func` of its key |
| Decorators.Memoizer.Info | modern_python_demo/decorators.py:77-78 | `cache_info()` reports the number of entries, which never exceeds the limit, and the configured `maxsize` |
| Decorators.Add | tests/test_core.py:62-63 | the test's `add(a, b=0)`: `a` from the first positional argument or the keyword `a`, `b` from the second positional argument or the keyword `b` (default 0), returning `a + b` |
| Decorators.MemoizedAddExample | tests/test_core.py:60-66 | with `maxsize=2`, `add(1, 2)` and `add(1, b=2)` both return 3 and leave two entries |
| Decorators.WithMetadata | modern_python_demo/decorators.py:39-49 | each `k=v` of `meta` is set on the object, later assignments win, and the same object is returned |
| Decorators.MetadataInstalled | modern_python_demo/decorators.py:45-46 | after decoration each named attribute holds its value, and attributes not named keep their old values |
| Events.HandlersOf | modern_python_demo/events.py:31-42 | `subscribers.get(event, [])`: the event's list, or the empty list for an unknown event |
| Events.Subscribed | modern_python_demo/events.py:28 | `setdefault(event, []).append(handler)`: the event's list, created if absent, with the handler appended; other events unchanged |
| Events.Unsubscribed | modern_python_demo/events.py:31-33 | when the event is known and its list holds the handler, the first occurrence is removed; otherwise the registry is unchanged |
| Events.SubscribeAppends | modern_python_demo/events.py:27-28 | `subscribe` appends the handler at the end of that event's list, creating the list if needed, and changes no other event |
| Events.SubscribeTwiceCountsTwice | modern_python_demo/events.py:27-28 | subscribing the same handler twice registers it twice |
| Events.UnsubscribeRemovesFirst | modern_python_demo/events.py:30-33 | `unsubscribe` removes exactly one occurrence of the handler, and leaves other events alone |
| Events.UnsubscribeAbsentIsNoOp | modern_python_demo/events.py:31-32 | an unknown event or an unregistered handler leaves the registry as it was |
| Events.UnsubscribeLastKeepsKey | modern_python_demo/events.py:31-33 | removing the last handler leaves the event with an empty list rather than deleting it |
| Events.SubscribeThenUnsubscribe | modern_python_demo/events.py:27-33 | subscribing a handler not yet registered and then unsubscribing it restores the registry, up to an empty list for a new event |
| Events.Targets | modern_python_demo/events.py:44-50 | the handlers an invocation list calls, one per invocation, in order |
| Events.Plan | modern_python_demo/events.py:44-50 | one invocation per handler, in order: a coroutine function is awaited directly, any other handler goes to the executor, each with the event name first and then the payload |
| Events.PlanCallsEachOnce | modern_python_demo/events.py:42-50 | an emission calls every handler of the snapshot exactly once, in subscription order, with the event name and the unchanged payload |
| Events.PlanAppend | modern_python_demo/events.py:44-50 | the task list of a concatenation is the concatenation of the task lists |
| Events.EmitAfterSubscribe | modern_python_demo/events.py:27-28 | after one more `subscribe`, an emission schedules the same calls as before plus the new handler's call at the end |
| Events.EmitAfterUnsubscribe | modern_python_demo/events.py:30-50 | a handler that was registered once and then unsubscribed is not called by a later emission |
| Events.UnsubscribeDropsOneCall | modern_python_demo/events.py:27-50 | after one `unsubscribe`, a later emission calls the handler one time fewer and every other handler as often as before; an unregistered handler changes nothing |
| Events.DuplicateStillCalled | modern_python_demo/events.py:28-33 | a handler subscribed twice and unsubscribed once is still called once by the next emission |
| Events.EventBroker.constructor | modern_python_demo/events.py:24-25 | a new broker has no subscribers |
| Events.EventBroker.Subscribe | modern_python_demo/events.py:27-28 | updates the registry to `Subscribed` |
| Events.EventBroker.Unsubscribe | modern_python_demo/events.py:30-33 | updates the registry to `Unsubscribed` |
| Events.EventBroker.Emit | modern_python_demo/events.py:35-52 | builds exactly the task list `Plan` of the snapshot, leaves the registry unchanged, and gathers only when there is at least one task |
| Events.BrokerEmitExample | tests/test_core.py:38-57 | a sync handler `h` and an async handler `ah` on `"e"` are each called once: `h` through the executor and `ah` directly |
| Events.TaskHandle.constructor | modern_python_demo/events.py:73 | a newly created task has not been asked to cancel |
| Events.TaskHandle.Cancel | modern_python_demo/events.py:88 | `task.cancel()` records the cancellation request |
| Events.Scheduler.constructor | modern_python_demo/events.py:61-62 | a new scheduler tracks no tasks |
| Events.Scheduler.SchedulePeriodic | modern_python_demo/events.py:64-75 | creates a fresh periodic task for the callback and interval, appends it to the tracked list and returns it |
| Events.Scheduler.ScheduleOnce | modern_python_demo/events.py:77-84 | creates a fresh one-shot task for the delay and callback, appends it and returns it |
| Events.Scheduler.CancelAll | modern_python_demo/events.py:86-89 | every task that was tracked has been asked to cancel, and none is tracked any more |
| BumpVersion.Span | tools/bump_version.py:16 | a regex run `[...]*` stays within the line |
| BumpVersion.SpanStops | tools/bump_version.py:16 | the run consumes only matching characters and stops at the first one that does not match |
| BumpVersion.SpanIs | tools/bump_version.py:16 | a maximal run of matching characters is the one found |
| BumpVersion.SplitLines | tools/bump_version.py:21 | `str.splitlines()` yields lines that contain no line break |
| BumpVersion.Join | tools/bump_version.py:37 | `"\n".join(lines)`: the lines with one `"\n"` between neighbours and none at the end |
| BumpVersion.SplitJoin | tools/bump_version.py:21-37 | splitting the `"\n"`-joined text gives back the lines, when no line has a break and the last is not empty |
| BumpVersion.SlicesAssemble | tools/bump_version.py:16 | a line cut at the group boundaries is the concatenation of its five groups and the two dots |
| BumpVersion.AssembleSlices | tools/bump_version.py:16 | each group can be read back from the assembled line at its offsets |
| BumpVersion.PrefixEnd | tools/bump_version.py:16 | group 1 `version\s*=\s*"` ends after at least the nine characters `version="`, on a quote |
| BumpVersion.PrefixEndStable | tools/bump_version.py:16 | group 1 depends only on the characters it spans |
| BumpVersion.DigitsThen | tools/bump_version.py:16 | a `[0-9]+` group is followed by its separator inside the line |
| BumpVersion.DigitsThenGroup | tools/bump_version.py:16 | what `[0-9]+` matched is a non-empty run of digits |
| BumpVersion.DigitsThenOf | tools/bump_version.py:16 | a digit run followed by the separator is what `[0-9]+` matches |
| BumpVersion.SuffixEnd | tools/bump_version.py:16 | group 5 `".*` runs to the end of the line, or to just before a final `"\n"` (the meaning of `$`) |
| BumpVersion.SuffixEndGroup | tools/bump_version.py:16 | group 5 starts with a quote and holds no line break |
| BumpVersion.MatchVersion | tools/bump_version.py:16-23 | `RE.match(ln)`: the five groups when the line starts with group 1, three dot-separated digit runs and a quote, and the rest of the line (or all of it up to a final `"\n"`) holds no newline; none otherwise |
| BumpVersion.MatchPositions | tools/bump_version.py:16 | a successful match is described by its five group boundaries |
| BumpVersion.MatchAt | tools/bump_version.py:16 | the group boundaries give the match |
| BumpVersion.PrefixGroupIff | tools/bump_version.py:16 | the group-1 scan consumes a whole string exactly when it is `version`, blanks, `=`, blanks and a quote, where blanks are characters of `\s` |
| BumpVersion.PrefixSpelled | tools/bump_version.py:16 | a string cut at its `=` and its closing quote, with only `\s` characters between, is `version`, blanks, `=`, blanks and a quote |
| BumpVersion.PrefixScanned | tools/bump_version.py:16 | the group-1 scan runs over `version`, blanks, `=`, blanks and a quote to the end |
| BumpVersion.MatchGroupsWellFormed | tools/bump_version.py:16 | in every match, group 1 is `version`, blanks, `=`, blanks and a quote, groups 2 to 4 are non-empty runs of digits, and group 5 starts with a quote and has no line break |
| BumpVersion.MatchSpellsLine | tools/bump_version.py:16 | the groups and dots spell the whole line, or the line minus a final `"\n"` |
| BumpVersion.MatchAssembled | tools/bump_version.py:16 | every set of groups of the shapes above, once assembled, is matched back into exactly those groups |
| BumpVersion.MatchSlices | tools/bump_version.py:16 | a line laid out as the groups of `m` matches as `m` |
| BumpVersion.DigitChar | tools/bump_version.py:35 | the decimal digit that renders a value below ten has that value |
| BumpVersion.NatToString | tools/bump_version.py:35-38 | formatting a number yields canonical decimal digits of that value |
| BumpVersion.DigitsValue | tools/bump_version.py:25 | `int()` of a digit group: the decimal value of its digits, leading zeros included |
| BumpVersion.LeadingNonZeroPositive | tools/bump_version.py:25 | digits that start with a non-zero digit have a positive value |
| BumpVersion.DigitRoundTrip | tools/bump_version.py:25 | reading a digit and rendering it again gives the same digit |
| BumpVersion.CanonicalRoundTrip | tools/bump_version.py:25-35 | `str(int(d)) == d` for every digit string without a superfluous leading zero |
| BumpVersion.Bump | tools/bump_version.py:26-34 | `patch` adds one to the patch number; `minor` adds one to the minor number and resets patch; `major` adds one to the major number and resets minor and patch; any other part changes nothing |
| BumpVersion.Render | tools/bump_version.py:38 | `f"{major}.{minor}.{patch}"`: the three numbers in decimal, separated by dots |
| BumpVersion.PatchBumpIsSuccessor | tools/bump_version.py:26-27 | the patch bump is the immediate successor: nothing lies strictly between the old and the new version |
| BumpVersion.MinorBumpIsNextMinor | tools/bump_version.py:28-30 | the minor bump is the least version above every version of the old major and minor |
| BumpVersion.MajorBumpIsNextMajor | tools/bump_version.py:31-34 | the major bump is the least version above every version of the old major |
| BumpVersion.OtherPartKeepsVersion | tools/bump_version.py:26-34 | any other part leaves the numbers unchanged |
| BumpVersion.Rewritten | tools/bump_version.py:25-35 | the new groups keep the prefix and suffix, hold canonical numbers, and denote the bumped version |
| BumpVersion.RewriteLine | tools/bump_version.py:35 | the new line: group 1, the bumped numbers in decimal separated by dots, then group 5 |
| BumpVersion.RewrittenLineReparses | tools/bump_version.py:35-38 | the new line still matches the regular expression, with the same prefix and suffix; its numbers are the bumped version, and its version text is the returned string |
| BumpVersion.UnknownPartKeepsCanonicalLine | tools/bump_version.py:26-36 | with an unrecognised part, a line whose numbers have no leading zeros is rewritten unchanged |
| BumpVersion.FirstMatch | tools/bump_version.py:22-24 | returns the index of the first line the regular expression matches, or none when no line matches |
| BumpVersion.FirstMatchIs | tools/bump_version.py:22-24 | a matching line with no matching line before it is the first match |
| BumpVersion.BumpText | tools/bump_version.py:19-39 | on the lines of the text, the first line the pattern matches is replaced by its rewritten line. The result is the lines joined by `"\n"` and the rendered bumped version, or `VersionNotFound` when no line matches |
| BumpVersion.BumpVersionText | tools/bump_version.py:19-39 | the loop over the lines computes exactly `BumpText`: it rewrites the first matching line, or fails |
| BumpVersion.BumpFailsIffNoVersionLine | tools/bump_version.py:22-39 | the tool fails with "version not found" if and only if no line matches |
| BumpVersion.BumpRewritesFirstMatchOnly | tools/bump_version.py:22-38 | on success, the text written is the lines joined by `"\n"` with only the first matching line replaced, and the returned string renders the bumped version |
| Pipelines.PipelineStage | modern_python_demo/pipelines.py:12-23 | the stage built by `pipeline_stage(func)(*args)` yields what `func` yields on its input with those arguments |
| Pipelines.FilterEven | modern_python_demo/pipelines.py:26-30 | `filter_even()`: the stage that yields, in order, the items `i` with `i % 2 == 0` |
| Pipelines.FilterEvenItems | modern_python_demo/pipelines.py:26-30 | every item yielded is even |
| Pipelines.FilterEvenCounts | modern_python_demo/pipelines.py:26-30 | each even value is yielded as often as it occurs in the input, and no odd value is yielded |
| Pipelines.FilterEvenAppend | modern_python_demo/pipelines.py:28-30 | filtering keeps the input order: filtering `a + b` is filtering `a`, then `b` |
| Pipelines.FilterEvenSingle | modern_python_demo/pipelines.py:29-30 | a single item is kept exactly when it is even |
| Pipelines.FilterEvenKeepsEven | modern_python_demo/pipelines.py:26-30 | an input of even items passes unchanged |
| Pipelines.FilterEvenIdempotent | modern_python_demo/pipelines.py:26-30 | filtering twice is filtering once |
| Pipelines.MultiplyItems | modern_python_demo/pipelines.py:33-36 | the output has one item per input item, each multiplied by the factor |
| Pipelines.Multiply | modern_python_demo/pipelines.py:33-36 | `multiply(factor=...)`: the stage that yields each item times `factor`, with the factor defaulting to 2 |
| Pipelines.MultiplyDefaultDoubles | modern_python_demo/pipelines.py:34 | the default factor is 2 |
| Pipelines.MultiplyTwice | modern_python_demo/pipelines.py:33-36 | two multiply stages are one stage with the product of the factors |
| Pipelines.OddMultiplyCommutesWithFilter | modern_python_demo/pipelines.py:26-36 | with an odd factor, multiplying and filtering commute |
| Pipelines.OddProductParity | modern_python_demo/pipelines.py:29 | an odd multiple of `x` is even exactly when `x` is |
| Pipelines.Run | modern_python_demo/pipelines.py:41-42 | the loop of `composed`: each stage in turn is applied to what the previous one produced, starting from the data |
| Pipelines.Compose | modern_python_demo/pipelines.py:39-45 | the composed callable feeds the data through the stages in order |
| Pipelines.ComposeEmpty | modern_python_demo/pipelines.py:39-45 | composing no stages gives the identity |
| Pipelines.RunAppend | modern_python_demo/pipelines.py:41-42 | running `s + t` is running `s`, then `t` on its output |
| Pipelines.ComposeAppend | modern_python_demo/pipelines.py:39-45 | `compose(*s, *t)` is `compose(*t)` after `compose(*s)` |
| Pipelines.ComposeLast | modern_python_demo/pipelines.py:41-43 | the last stage is applied last |
| Pipelines.FilterThenMultiply | modern_python_demo/pipelines.py:26-45 | `compose(filter_even(), multiply(factor=k))` multiplies the even items by `k` |
| Pipelines.ComposeExample | tests/test_core.py:26-30 | `compose(filter_even(), multiply(factor=3))` on `range(6)` gives `[0, 6, 12]` |
| Pipelines.EvenOfRangeSix | tests/test_core.py:29 | the even items of `range(6)` are `0, 2, 4` |
| Cache.Fib | modern_python_demo/cache.py:12-16 | `fib(n)`: `n` itself when `n < 2`, negatives included, otherwise `fib(n - 1) + fib(n - 2)` |
| Cache.FibBelowTwo | modern_python_demo/cache.py:14-15 | every `n < 2`, negatives included, is its own value |
| Cache.FibRecurrence | modern_python_demo/cache.py:16 | from 2 on, a value is the sum of the two previous ones |
| Cache.FibUnique | modern_python_demo/cache.py:12-16 | any function with these base cases and this recurrence equals `fib` everywhere |
| Cache.FibExamples | tests/test_core.py:13-16 | `fib(0) == 0`, `fib(1) == 1`, `fib(5) == 5` |
| Cache.FibNonNegative | modern_python_demo/cache.py:12-16 | no natural number has a negative value |
| Cache.FibMonotone | modern_python_demo/cache.py:12-16 | from 1 on, the values never decrease |
| Cache.MemoFib | modern_python_demo/cache.py:12-16 | the memoised recursion returns `fib(n)`, keeps every table entry correct, keeps the old entries, and stores `n` |
| Cache.MemoFibFromEmpty | modern_python_demo/cache.py:12 | starting from an empty cache gives the plain recursion's value |
| Cache.MemoFibHit | modern_python_demo/cache.py:12 | a repeated call is a hit that leaves the table unchanged |
| Introspect.MakeAdder | modern_python_demo/introspect.py:21-26 | `make_adder(x)(y) == x + y` for every `y` |
| Introspect.FactoryFromSpec | modern_python_demo/introspect.py:29-35 | the produced function reports `name` as its `__name__` and returns `a * multiplier` |
| Introspect.DefaultFactoryIsIdentity | modern_python_demo/introspect.py:29 | with the default multiplier 1, the function is the identity |
| Introspect.FactoryExample | tests/test_core.py:33-35 | `factory_from_spec("test", multiplier=4)(2) == 8`, and the function is named `"test"` |

## Left out

- Asynchronous execution is not modelled. `Emit` returns the tasks it would gather and whether it gathers at all. `asyncio.gather`, `run_in_executor` threads, `asyncio.sleep`, when tasks run, and `CancelledError` delivery are not part of this model. Real-valued intervals and delays are only recorded on the task.
- The periodic runner's loop is not modelled in detail (`events.py:65-71`): it calls the callback, catches and prints any exception, sleeps, and repeats forever. A task records only its kind and whether it has been asked to cancel.
- Exceptions raised by event handlers, and how `gather` propagates them, are not modelled.
- Events.EventBroker.Emit: handlers are named references, not Python callables. The result shows which calls are made and how each is routed, but not what the handlers do with them.
- Decorators.Memoizer.Call: keys are compared with Dafny equality on the argument type. Python's `key in cache` uses `hash` and `==`, under which values of different types such as `1`, `1.0` and `True` are one key. So after `f(1)`, Python's `f(True)` returns the value stored for `f(1)` rather than `func(True)`. The promise `result == func(args, kwargs)` holds here only because no two distinct values of the argument type compare equal.
- Decorators.Memoizer.Call: `func` receives its keyword arguments as a mapping, so a Python function that observes keyword order is not modelled. Unhashable arguments, which raise `TypeError` at the key, are not modelled either. Keyword names must be distinct, as they always are in Python.
- Decorators.Add: it accepts every call that Python rejects with `TypeError`. A missing argument reads as 0. Surplus positional arguments are ignored. When `b` is given both by position and by keyword, the positional value wins. Unknown keyword names are ignored.
- `functools.wraps` metadata copying (`__name__`, `__qualname__`, `__doc__`, `__wrapped__`) and `setattr` failures on read-only objects are not modelled. `WithMetadata` writes an attribute map.
- Cache.MemoFib: CPython's recursion limit (about 1000 frames) is not modelled. A cold-cache `fib(n)` for `n` near 1000 or more raises `RecursionError`, but the same call succeeds once smaller values are cached. The model returns `Fib(n)` for every `n`.
- Cache.MemoFib: `lru_cache(maxsize=256)` evicts entries beyond 256, and the table here only grows. With the recursion limit, eviction can change the outcome. After `fib(990)` and then `fib(1980)`, only entries 1725 to 1980 remain, so `fib(1700)` recurses about 1700 frames deep and raises. Without eviction it would be a hit. Below the recursion limit, eviction changes no value.
- BumpVersion.BumpText: reading and writing `pyproject.toml`, the text encoding, and the `argparse` front end (`bump_version.py:42-47`) are not modelled. The command line restricts `--part` to patch, minor or major, but `bump_version` itself accepts any string, and the model covers any string.
- BumpVersion.DigitsValue: the interpreter's limit of 4300 digits for `int()` is not modelled, so arbitrarily long digit groups parse.
- The regular expression's `.*` excludes only `"\n"`, while `splitlines()` splits at every line break. So `$` matching before a final `"\n"` cannot arise after `splitlines()`, although `MatchVersion` models it.
- The text written is `"\n".join(lines)`. It drops the file's final newline, and it normalises `"\r\n"` and the other line breaks to `"\n"`. The model writes exactly that text, as the source does. `SplitJoin` states when the lines can be read back.
- Generators are modelled on finite sequences. Laziness, infinite iterables and partially consumed generators are not modelled.
- Pipelines.PipelineStage: keyword arguments of the stage factory are modelled as one bundled argument value.
- Modules outside the core are not part of this model: plugins, serialization, models, config, metaclasses, the `timed`/`perf`/`Timer` helpers, error logging, `summarize_callable`, interfaces and the entry points.
- Events.EmitAfterUnsubscribe: one might expect an unsubscribed handler never to be called again. That holds only for a handler registered once. `subscribe` does not deduplicate (`events.py:28`), and `unsubscribe` removes only the first occurrence (`events.py:33`). So a handler registered `k` times is still called `k - 1` times after one `unsubscribe`. The model follows the code: `EmitAfterUnsubscribe` states the rule for a handler registered once, `UnsubscribeDropsOneCall` states the general count, and `DuplicateStillCalled` exhibits the repeated call.
