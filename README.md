# Strategy selection for `get_selected_text` on macOS

This project models, in Dafny, how `get_selected_text` (src/macos.rs) picks
the mechanism that reads the user's selected text in the focused
application, and what it remembers about that choice.

A process-wide LRU cache of capacity 100 maps an application's name to a
`u8`: 0 means the accessibility API worked last time, 1 means clipboard
simulation did. On each call:

- no active window: the call fails with "No active window found" and no
  extractor runs;
- a cached 0: only the accessibility extractor runs, and its result is
  returned unchanged;
- any other cached value: only the clipboard extractor runs, and its result
  is returned unchanged;
- no cached value: the accessibility extractor runs. Any success is returned
  at once, and 0 is remembered only if the text is non-empty. Only an
  accessibility error hands over to the clipboard extractor. Its success is
  returned, and 1 is remembered only if the text is non-empty; its error is
  returned as it is.

Two modules:

- `Lru` (lru.dfy) is the contract of `lru::LruCache` as the selector uses
  it. The cache state is a sequence of entries in recency order, least
  recently used first. `AfterGet` and `AfterPut` give the state after `get`
  and `put`. Lemmas say what these do to the mapping, to the size bound, to the
  recency order and to eviction. The class `LruCache` holds the sequence as a field; its
  methods `Get` and `Put` update it in place.
- `MacOs` (macos.dfy) is the selector. `Select` is the specification of one
  call, as a function of the cache state and the three collaborators'
  outcomes. It returns the result, the list of extractors invoked and the
  new cache state. The property lemmas are stated about `Select`. The class
  `Selector` holds the static `Option<LruCache>` as a nullable field. Its
  method `GetSelectedText` creates the cache on first use and then follows
  the source's branches. Its postcondition ties the method to `Select`.

The active-window query and the two extractors are OS calls. They are
parameters of `GetSelectedText` and `Select`, each a `Result` decided before
the call. The list of invoked extractors is what makes "the clipboard
extractor was not called" something a contract can state.

On a cold cache, an accessibility success with empty text is returned at
once; nothing is recorded and the clipboard is not tried
(src/macos.rs:32-38). `ColdAccessibilityEmpty` states this.

## Model

| member | source | states |
|---|---|---|
| `Lru.Lookup` | src/macos.rs:26 | the value found for a key exists exactly when some entry has that key, and the entry with that key and value is in the cache |
| `Lru.AfterGet` | src/macos.rs:26 | a `get` adds no entry; a miss leaves the cache as it is; a hit makes that key's entry, with its value, the most recent one |
| `Lru.AfterPut` | src/macos.rs:35 | after `put(k, v)`, the most recent entry is `(k, v)`; every other entry was already in the cache |
| `Lru.AfterGetKeepsOrder` | src/macos.rs:26 | a `get` keeps the relative recency order of every two other keys, and a hit becomes more recent than every other key present |
| `Lru.AfterPutKeepsOrder` | src/macos.rs:35 | a `put` keeps the relative recency order of every two other keys that survive it, and the key put becomes more recent than every surviving key |
| `Lru.RemoveKeepsOrder` | src/macos.rs:35 | removing a key keeps the relative order of the keys that remain |
| `Lru.GetPreserves` | src/macos.rs:26 | a `get` keeps the size bound, distinct keys, the length and the value of every key; only the recency order changes |
| `Lru.GetProtectsFromEviction` | src/macos.rs:26 | after a `get` hit on a cache with at least two entries, a following `put` of another key does not evict the key that was hit |
| `Lru.PutPreserves` | src/macos.rs:16 | a `put` keeps at most `cap` entries with distinct keys; the cache grows by one exactly when the key is new and the cache is not full |
| `Lru.PutLookup` | src/macos.rs:35 | after `put(k, v)`, `k` maps to `v`; every other key keeps its value, except the least recently used key when a full cache received a new key |
| `Lru.PutEvictsLeastRecent` | src/macos.rs:16 | a full cache that receives a new key loses its least recently used key and stays at capacity |
| `Lru.LruCache.constructor` | src/macos.rs:16 | `LruCache::new(100)` gives an empty, valid cache of that capacity |
| `Lru.LruCache.Get` | src/macos.rs:26 | returns the value stored under the key, and the new state is the old one after a `get` |
| `Lru.LruCache.Put` | src/macos.rs:35 | keeps the cache valid, and the new state is the old one after a `put` |
| `MacOs.Select` | src/macos.rs:14-49 | no extractor runs exactly when the active-window query fails, and then the result is "No active window found"; otherwise the result is that of the last extractor invoked; both extractors run, accessibility first, only on a miss after an accessibility error |
| `MacOs.SelectPreservesInvariant` | src/macos.rs:26-47 | every call keeps the cache within 100 entries, with distinct names and only the values 0 and 1 |
| `MacOs.NoWindowChangesNothing` | src/macos.rs:21-24 | without an active window the call returns "No active window found", invokes no extractor and leaves the cache unchanged |
| `MacOs.PinnedAccessibility` | src/macos.rs:26-29 | with 0 cached, only the accessibility extractor runs; its result is returned unchanged; the mapping is unchanged and the application becomes most recent |
| `MacOs.PinnedClipboard` | src/macos.rs:26-30 | with a value other than 0 cached, only the clipboard extractor runs; its result is returned unchanged; the mapping is unchanged and the application becomes most recent |
| `MacOs.ColdAccessibilityText` | src/macos.rs:32-37 | on a miss, non-empty accessibility text is returned and 0 is recorded for the application, without running the clipboard extractor; other names keep their values except an evicted least recent one |
| `MacOs.ColdAccessibilityEmpty` | src/macos.rs:32-38 | on a miss, empty accessibility text is returned, nothing is recorded and the clipboard extractor does not run |
| `MacOs.ColdClipboardText` | src/macos.rs:39-44 | on a miss, an accessibility error leads to the clipboard extractor; its non-empty text is returned and 1 is recorded; other names keep their values except an evicted least recent one |
| `MacOs.ColdClipboardEmptyOrError` | src/macos.rs:39-47 | on a miss after an accessibility error, empty clipboard text or the clipboard's own error is returned and nothing is recorded |
| `MacOs.OnlyColdTextChangesMapping` | src/macos.rs:26-47 | the mapping changes only on a miss whose call returns non-empty text; a cache hit never changes any stored value |
| `MacOs.EvictedApplicationGoesCold` | src/macos.rs:26-42 | on a full cache, a miss that records a method evicts the least recently used application; the cache stays at 100 entries, and the next call for the evicted application runs the accessibility extractor first |
| `MacOs.FallbackIsRemembered` | src/macos.rs:26-44 | after a miss where accessibility fails and the clipboard returns non-empty text, the next call for that application runs only the clipboard extractor and returns its result |
| `MacOs.AccessibilityIsRemembered` | src/macos.rs:26-37 | after a miss where accessibility returns non-empty text, the next call for that application runs only the accessibility extractor and returns its result, even an error |
| `MacOs.Selector.constructor` | src/macos.rs:12 | the process starts with no cache |
| `MacOs.Selector.GetSelectedText` | src/macos.rs:14-49 | creates the cache of capacity 100 on first use and keeps it valid; the returned result, the extractors invoked and the new cache state are exactly those `Select` gives for the old cache state |

## Left out

- The accessibility-tree queries of `get_selected_text_by_ax` (src/macos.rs:51-81) are foreign calls into the accessibility and CoreFoundation libraries. They become the opaque `ax` result.
- `get_selected_text_by_clipboard` (src/macos.rs:83-87) uses keystroke simulation and a clipboard utility that is not part of this model. It becomes the opaque `clipboard` result.
- Panics are not modelled: `Enigo::new(...).unwrap()` (src/macos.rs:85) can panic, and a panic after the `get` at line 26 would leave its recency update in place; the extractor inputs have no case for a panic.
- `get_active_window` (src/macos.rs:21) is an OS query. It becomes the `window` input, the application's name or an error; the model, like the code, discards that error.
- The mutex around the static cache and its check-then-initialise sequence (src/macos.rs:15-19) are concurrency concerns. The cache is single-owner state here, and the lock held across the extraction is not modelled.
- Debug logging (src/macos.rs:52, 84) has no effect on results.
- The internals of the `lru` crate (hash map, linked list) are not modelled; only its `get`/`put`/eviction contract is.
- Errors are `Box<dyn Error>` in the code; the model keeps only a message string, and does not model the different error kinds the extractors produce.
