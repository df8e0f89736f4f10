# hobbit actions, modelled in Dafny

hobbit is a small scraping library. Its `hobbit/actions/__init__.py` defines three pieces, and this project models each one:

- The scraping `Action`, whose hash must not depend on the order of its arguments. The hash is the XOR of the hashes of its positional arguments and of its keyword arguments. A keyword argument may itself be a dict, which is hashed recursively.
- `ThreadAction`, which fetches many pages in parallel and yields `(url, tag)` for each page as its fetch completes. It skips a page whose text equals the text of the page before it.
- `CheckPageRepeat`, the small stateful guard that makes that decision.

Files:

- `optional.dfy`: the `Option` type.
- `fold.dfy` (`Folding`): a fold over a sequence with a commutative monoid. Its result does not depend on the order of the sequence.
- `py_xor.dfy` (`PyXor`): Python's `^` on arbitrary-precision integers, in two's complement. It is defined bit by bit, and the file proves it associative and commutative, with 0 as unit and every value its own inverse.
- `action_hash.dfy` (`ActionHash`): arguments, keyword dicts, `Action.__hash__`, `_get_kwargs_hash` and `_hash_or_empty`.
  - Python's `hash` is the parameter `h` of every function, so every property holds for any hash function.
  - Python dict equality is `Equal`: same keys, equal values, in any order.
- `page_repeat.dfy` (`PageRepeat`): the guard.
  - `Step` and `Run` give its behaviour on values.
  - The class `CheckPageRepeat` holds the three fields that `__call__` updates. Its method `Observe` is proved to take exactly one `Step`.
  - The `check_break` property is the field `checkBreak`, read directly.
- `thread_action.dfy` (`ThreadActions`): the `max_workers` default and the result-draining loop of `get_pages`.
  - The loop runs over the completed fetches in the order they complete, which is an input.
  - `parse` stands for the HTML parser.
  - The loop is the method `GetPages`. It uses one `CheckPageRepeat` object, as the source does, and is proved equal to the function `NonRepeats(Settled(...))`. The lemmas describe that function.

Where the code and its documentation disagree, the model follows the code:

- The docstring of `CheckPageRepeat.__init__` (lines 108-109) says `check_break` turns on once the repeats reach `max_page_repeat`. Line 138 compares the repeat counter with itself, so the flag never turns on, and `max_page_repeat` is never read. `PageRepeat.NeverStops` states this. The drain loop's `break` on `check_break` is kept, and its loop invariant shows it is never taken.
- A pool size of zero, or any other falsy `max_workers` (`None`, `''`, `{}`), falls back to 5. A negative integer or a truthy non-integer `max_workers` is stored as given; `ThreadAction` itself does not reject it.
- Python salts `hash` of strings per process, so a hash is only stable within one run. The model therefore proves equalities between hashes under the same `h`, never concrete values.

## Model

| member | source | states |
|---|---|---|
| PyXor.Xor | hobbit/actions/__init__.py:48-55 | Python's `^` on arbitrary-precision integers, bit by bit in two's complement; `XorCommutes`, `XorAssociates`, `XorZero`, `XorSelf` and `XorCancels` give its algebra |
| PyXor.XorCommutes | hobbit/actions/__init__.py:48-55 | `a ^ b == b ^ a` for all Python integers |
| PyXor.XorAssociates | hobbit/actions/__init__.py:48-55 | `(a ^ b) ^ c == a ^ (b ^ c)`, so the order of an XOR fold does not matter |
| PyXor.XorZero | hobbit/actions/__init__.py:48-55 | 0 is the unit of `^` |
| PyXor.XorSelf | hobbit/actions/__init__.py:48-55 | `a ^ a == 0`: every value cancels itself |
| PyXor.XorCancels | hobbit/actions/__init__.py:48-55 | `c ^ x == c ^ y` exactly when `x == y` |
| ActionHash.Hash | hobbit/actions/__init__.py:41-49 | `__hash__`: the kwargs hash XOR the args hash; `SameDescriptionHashesAlike` proves it ignores the order of args and of dict entries at every depth, `EmptyActionHash` that the empty action hashes to 0 |
| ActionHash.ArgsHash | hobbit/actions/__init__.py:48 | the args hash: `reduce(xor, map(hash, args))`, or `hash('')` for no args; `ArgsHashPermutation` and `ArgsPairCancels` prove it order-free and self-cancelling |
| ActionHash.ReduceXor | hobbit/actions/__init__.py:48 | `reduce(xor, xs)` on a non-empty sequence, folding from the first element; `ReduceXorIsXorOf` proves it equal to the order-free XOR |
| ActionHash.HashAll | hobbit/actions/__init__.py:48 | `map(hash, args)`: one hash per arg, in order |
| ActionHash.ReduceXorIsXorOf | hobbit/actions/__init__.py:48 | `reduce(xor, map(hash, args))` on non-empty args is the XOR of `hash` over all the args |
| ActionHash.ArgsHashPermutation | hobbit/actions/__init__.py:48 | two arg tuples that are permutations of each other give the same args hash |
| ActionHash.ArgsPairCancels | hobbit/actions/__init__.py:48 | two equal args cancel: `('a','a','b')` hashes like `('b',)`, and `('a','a')` alone gives 0 |
| ActionHash.EmptyActionHash | hobbit/actions/__init__.py:47-52 | empty args and empty kwargs each give `hash('')`, so an action with neither hashes to 0 |
| ActionHash.KwargsHash | hobbit/actions/__init__.py:51-56 | `_get_kwargs_hash`: starts from `hash('')` and XORs in each entry's contribution in insertion order; `KwargsHashIsXorOf` proves it equal to `hash('')` XOR the order-free XOR of the contributions, `KwargsHashPermutation` that reordering leaves it unchanged, `EqualEntriesHashAlike` that equal dicts at any depth hash alike |
| ActionHash.EntryHash | hobbit/actions/__init__.py:54-55 | one entry's contribution: `hash(key) ^ hash(value)` for a scalar, the recursive hash of a nested dict without its key; `ScalarEntryDistinguishes` and `NestedKeyIgnored` state both cases |
| ActionHash.KwargsHashIsXorOf | hobbit/actions/__init__.py:51-56 | the kwargs hash is `hash('')` XOR the contributions of all the entries |
| ActionHash.KwargsHashPermutation | hobbit/actions/__init__.py:51-56 | reordering the entries of a dict leaves its hash unchanged |
| ActionHash.RemoveEntry | hobbit/actions/__init__.py:51-56 | the hash of a dict is the hash without any one entry, XOR that entry's contribution |
| ActionHash.ReplaceEntry | hobbit/actions/__init__.py:53-55 | swapping one entry for another with the same contribution keeps the dict's hash |
| ActionHash.NestedKeyIgnored | hobbit/actions/__init__.py:54 | a nested dict contributes without its key: `{'attrs': M}` and `{'x': M}` hash alike, at any position |
| ActionHash.NestedLevelSeed | hobbit/actions/__init__.py:52-54 | a nested dict adds its own `hash('')` seed, so `{k: {}}` hashes to 0 |
| ActionHash.ScalarEntryDistinguishes | hobbit/actions/__init__.py:54-55 | a scalar entry contributes `hash(key) ^ hash(value)`: `{k: a}` and `{k: b}` hash alike exactly when `hash(a) == hash(b)` |
| ActionHash.Get | hobbit/actions/__init__.py:74 | `d.get(k)` on a dict held as its entries; `GetMeaning` states its result |
| ActionHash.GetMeaning | hobbit/actions/__init__.py:74 | `get` returns `None` exactly when no entry has the key, and otherwise a value bound to that key |
| ActionHash.Equal | hobbit/actions/__init__.py:51-56 | Python `==` on values: identical scalars, or dicts related by `EntriesEqual`; `EqualReflexive` proves every well-formed value equal to itself, `EqualValuesHashAlike` that equal values hash alike |
| ActionHash.EntriesEqual | hobbit/actions/__init__.py:51-56 | Python `==` on dicts: the same size, and every key of the first bound in the second to an equal value, in any order; `EntriesEqualReflexive` and `EqualEntriesHashAlike` are its lemmas |
| ActionHash.EqualReflexive | hobbit/actions/__init__.py:51-56 | every well-formed value is `==` to itself, at every depth |
| ActionHash.EntriesEqualReflexive | hobbit/actions/__init__.py:51-56 | every dict with distinct keys and well-formed values is `==` to itself |
| ActionHash.EqualValuesHashAlike | hobbit/actions/__init__.py:51-56 | values equal under Python `==` (dicts in any order, at any depth) have the same hash |
| ActionHash.EqualEntriesHashAlike | hobbit/actions/__init__.py:51-56 | equal dicts (same keys, equal values, any order, at any depth) have the same kwargs hash |
| ActionHash.SameDescriptionHashesAlike | hobbit/actions/__init__.py:41-56 | two actions with the same args up to order and equal kwargs have the same `__hash__` |
| ActionHash.HashOrEmpty | hobbit/actions/__init__.py:58-60 | `_hash_or_empty` gives `hash(value)` for every truthy value and `hash('')` for every falsy one, so it agrees with `hash` on every string |
| PageRepeat.Step | hobbit/actions/__init__.py:131-140 | one call of the guard on values: the new state and whether the page repeated; `Observe` is proved to take exactly one `Step`, and `RepeatIffSameAsPrevious` and `NeverStops` describe it |
| PageRepeat.Run | hobbit/actions/__init__.py:111-140 | the guard's state after a sequence of calls from the initial state; `RunState` states that state |
| PageRepeat.CheckPageRepeat.constructor | hobbit/actions/__init__.py:104-114 | a new guard has no stored text, counter 0, `check_break` off, and stores `max_page_repeat`, which defaults to 3 |
| PageRepeat.CheckPageRepeat.Observe | hobbit/actions/__init__.py:123-140 | reports a repeat exactly when the page equals the stored text; stores the page; raises the counter by 1 on a repeat and resets it to 0 otherwise; leaves `check_break` unchanged; this is exactly one `Step` |
| PageRepeat.RunState | hobbit/actions/__init__.py:111-140 | after any pages, the stored text is the last page, the counter is the length of the final run of identical pages minus one, and `check_break` is off |
| PageRepeat.RepeatIffSameAsPrevious | hobbit/actions/__init__.py:131-140 | a call reports a repeat exactly when its page equals the previous call's page; the first call never does |
| PageRepeat.NeverStops | hobbit/actions/__init__.py:138-139 | `check_break` stays off after any sequence of calls |
| PageRepeat.FourIdenticalPages | hobbit/actions/__init__.py:104-139 | four identical pages leave the counter at 3, and `check_break` is still off after them even though the default `max_page_repeat` is 3 |
| ThreadActions.MaxWorkers | hobbit/actions/__init__.py:74 | a truthy `max_workers` is kept as passed, a missing or falsy one gives 5, so the pool size is never falsy |
| ThreadActions.NewThreadAction | hobbit/actions/__init__.py:69-74 | `ThreadAction(*args, **kwargs)`: the action keeps all kwargs, `max_workers` included, and stores `MaxWorkers(kwargs)`; `PoolSize` and `PoolSizeIsHashed` are its lemmas |
| ThreadActions.PoolSize | hobbit/actions/__init__.py:69-74 | an integer `max_workers` other than 0 is kept; 0 or no `max_workers` gives 5 |
| ThreadActions.PoolSizeIsHashed | hobbit/actions/__init__.py:73-74 | `max_workers` stays among the kwargs: adding `max_workers=n` sets the pool size and changes the hash by exactly `hash('max_workers') ^ hash(n)` |
| ThreadActions.GetPages | hobbit/actions/__init__.py:87-96 | the loop yields the first page of every run of identical texts, parsed, in completion order, up to the first fetch that raised; it raises exactly when some fetch raised; no URL is yielded more often than submitted, so at most `len(urls)` pages; with no failure and some URL, the first completed page comes first |
| ThreadActions.Settled | hobbit/actions/__init__.py:90-92 | the pages the loop reaches: every completion before the first whose `future.result()` raised; `SettledPrefix` and `DrainStops` state this |
| ThreadActions.NonRepeats | hobbit/actions/__init__.py:93-94 | the pages the guard lets through; the `NonRepeats*` lemmas and `DistinctNeighboursAllKept` characterise it |
| ThreadActions.Parsed | hobbit/actions/__init__.py:92-94 | each yielded pair is the page's URL with `parse` of its text, in the same order |
| ThreadActions.DrainStep | hobbit/actions/__init__.py:91-94 | one more completed page is yielded exactly when its text differs from the previous page's |
| ThreadActions.DrainStops | hobbit/actions/__init__.py:90-91 | a fetch that raised ends the pages the loop reaches |
| ThreadActions.DrainBounds | hobbit/actions/__init__.py:89-96 | when the completions are the submitted URLs in some order, every yielded URL was submitted, no more often than submitted, at most `len(urls)` pages are yielded, and at least one when none failed |
| ThreadActions.YieldedUrlsSubmitted | hobbit/actions/__init__.py:89-94 | each yielded URL occurs no more often than in the completions |
| ThreadActions.SettledPrefix | hobbit/actions/__init__.py:90-91 | the pages reached are the completions before the first failure, and all of them exactly when none failed |
| ThreadActions.NonRepeatsMembers | hobbit/actions/__init__.py:93-94 | a page is yielded exactly when it is the first page or its text differs from the page before it |
| ThreadActions.NonRepeatsFirst | hobbit/actions/__init__.py:93-94 | the first page reached is always yielded, first |
| ThreadActions.NonRepeatsLast | hobbit/actions/__init__.py:93-94 | the last page yielded has the text of the last page reached |
| ThreadActions.NonRepeatsNoAdjacentTwins | hobbit/actions/__init__.py:93-94 | no two consecutively yielded pages have the same text |
| ThreadActions.DistinctNeighboursAllKept | hobbit/actions/__init__.py:93-94 | when no two neighbouring pages share a text, every page is yielded |
| ThreadActions.NonRepeatsIdempotent | hobbit/actions/__init__.py:93-94 | filtering the yielded pages again removes nothing |
| ThreadActions.NonRepeatsUrls | hobbit/actions/__init__.py:93-94 | the yielded URLs are a sub-multiset of the URLs reached |

## Left out

- Thread pool, `as_completed` and scheduling: concurrency. The completion order is an arbitrary input sequence, required to hold the submitted URLs in some order.
- Passing `max_workers` to `ThreadPoolExecutor`, which rejects a size below 1 when `get_pages` starts: foreign code.
- `robber.get_region`: network I/O. Each page text, or the fact that the fetch raised, is given in the completion.
- The exception raised by `future.result()`: only the fact that the generator raises it after the pages already yielded is modelled (`failed`), not the exception itself.
- Generator laziness: `GetPages` returns everything the generator yields. A consumer that stops early sees a prefix of it.
- `BeautifulSoup(page_text, 'html.parser')`: foreign library. It is the total function `parse`; a parser that raises is not modelled.
- The values of Python's `hash`: `hash` is the parameter `h`, so nothing depends on its values or on per-process salting. The hash is an unbounded Python integer, not a machine word.
- Unhashable values: the `TypeError` that `hash` raises on a list or a dict passed as an arg or as a scalar keyword value. Args are scalars (strings, integers, `None`), and a keyword value is a scalar or a nested dict.
- Other key and mapping types: nested dict keys are strings, as top-level keyword names are. `MutableMapping` is represented by a dict.
- The `is_result` flag (hobbit/actions/__init__.py:35): it is set and never read in this file.
