/**
  The per-application strategy selector of `get_selected_text` on macOS
  (src/macos.rs).

  A process-wide LRU cache of capacity 100 maps an application name to the
  extraction method that last produced non-empty text for it: 0 for the
  accessibility API, 1 for clipboard simulation. A cached application is
  served by its remembered method alone, whatever that method returns. An
  application with no entry is served by the accessibility API and, only if
  that call fails, by clipboard simulation; a method is remembered only when
  it returned non-empty text.

  The focused-window query and the two extractors are OS calls; here they
  are inputs whose outcomes are decided before the call, and the selector
  reports which extractors it invoked.
 */
module MacOs {
  import opened Lru

  /** Rust's `u8`, the value type of the cache. */
  newtype Byte = x: int | 0 <= x < 256

  /** A boxed error, known here only by its message. */
  datatype Error = Error(message: string)

  datatype Result<T> = Ok(value: T) | Err(error: Error)

  /** The two extraction mechanisms. */
  datatype Extractor = Accessibility | Clipboard

  /** The capacity given to `LruCache::new`. */
  const Capacity: nat := 100

  /** The cached value recorded after the accessibility API succeeded. */
  const AxMethod: Byte := 0

  /** The cached value recorded after clipboard simulation succeeded. */
  const ClipboardMethod: Byte := 1

  /** The error returned when no active window can be found. */
  const NoActiveWindow := Error("No active window found")

  /** Every value stored in the cache is one of the two method codes. */
  predicate MethodsOnly(s: seq<Entry<string, Byte>>)
  {
    forall e | e in s :: e.value == AxMethod || e.value == ClipboardMethod
  }

  /** The invariant of the strategy cache. */
  predicate CacheInvariant(s: seq<Entry<string, Byte>>)
  {
    WellFormed(s, Capacity) && MethodsOnly(s)
  }

  /** What one call produces: the returned result, the extractors invoked in
      order, and the cache entries afterwards. */
  datatype Outcome = Outcome(result: Result<string>, calls: seq<Extractor>, entries: seq<Entry<string, Byte>>)

  /**
    The effect of one `get_selected_text` call on cache state `entries`,
    given what the active-window query (`window`, the application's name)
    and the two extractors (`ax`, `clipboard`) would return.
   */
  function Select(entries: seq<Entry<string, Byte>>, window: Result<string>,
                  ax: Result<string>, clipboard: Result<string>): (o: Outcome)
    ensures o.calls == [] <==> window.Err?
    ensures o.calls == [] ==> o.result == Err(NoActiveWindow)
    ensures o.calls != [] ==>
              o.result == (if o.calls[|o.calls| - 1] == Accessibility then ax else clipboard)
    ensures |o.calls| == 2 ==>
              window.Ok? && Lookup(entries, window.value).None? && ax.Err? && o.calls == [Accessibility, Clipboard]
  {
    match window
    case Err(_) => Outcome(Err(NoActiveWindow), [], entries)
    case Ok(app) =>
      var touched := AfterGet(entries, app);
      match Lookup(entries, app)
      case Some(m) =>
        if m == AxMethod then Outcome(ax, [Accessibility], touched)
        else Outcome(clipboard, [Clipboard], touched)
      case None =>
        match ax
        case Ok(text) =>
          Outcome(ax, [Accessibility],
                  if text != "" then AfterPut(touched, Capacity, app, AxMethod) else touched)
        case Err(_) =>
          match clipboard
          case Ok(text) =>
            Outcome(clipboard, [Accessibility, Clipboard],
                    if text != "" then AfterPut(touched, Capacity, app, ClipboardMethod) else touched)
          case Err(_) => Outcome(clipboard, [Accessibility, Clipboard], touched)
  }

  /** Whether the call for `app` finds no remembered method. */
  predicate Cold(entries: seq<Entry<string, Byte>>, app: string)
  {
    Lookup(entries, app).None?
  }

  /** The same mapping from application names to methods. */
  ghost predicate SameMapping(s: seq<Entry<string, Byte>>, t: seq<Entry<string, Byte>>)
  {
    forall k :: Lookup(s, k) == Lookup(t, k)
  }

  /** Every call keeps the cache within 100 entries, with distinct names and
      only the values 0 and 1. */
  lemma SelectPreservesInvariant(entries: seq<Entry<string, Byte>>, window: Result<string>,
                                 ax: Result<string>, clipboard: Result<string>)
    requires CacheInvariant(entries)
    ensures CacheInvariant(Select(entries, window, ax, clipboard).entries)
  {
    if window.Ok? {
      var app := window.value;
      GetPreserves(entries, Capacity, app);
      var touched := AfterGet(entries, app);
      PutPreserves(touched, Capacity, app, AxMethod);
      PutPreserves(touched, Capacity, app, ClipboardMethod);
    }
  }

  /** Without an active window the call fails with its own error, invokes no
      extractor and leaves the cache as it was. */
  lemma NoWindowChangesNothing(entries: seq<Entry<string, Byte>>, e: Error,
                               ax: Result<string>, clipboard: Result<string>)
    ensures Select(entries, Err(e), ax, clipboard) == Outcome(Err(NoActiveWindow), [], entries)
  {
  }

  /** A remembered 0 pins the accessibility API: its result, whether text,
      empty text or an error, is returned as it is; clipboard simulation is
      not invoked; the mapping is unchanged and the application becomes the
      most recent entry. */
  lemma PinnedAccessibility(entries: seq<Entry<string, Byte>>, app: string,
                            ax: Result<string>, clipboard: Result<string>)
    requires WellFormed(entries, Capacity) && Lookup(entries, app) == Some(AxMethod)
    ensures var o := Select(entries, Ok(app), ax, clipboard);
      && o.result == ax
      && o.calls == [Accessibility]
      && SameMapping(o.entries, entries)
      && |o.entries| == |entries|
      && o.entries[|o.entries| - 1] == Entry(app, AxMethod)
  {
    GetPreserves(entries, Capacity, app);
  }

  /** A remembered value other than 0 pins clipboard simulation in the same
      way. */
  lemma PinnedClipboard(entries: seq<Entry<string, Byte>>, app: string, m: Byte,
                        ax: Result<string>, clipboard: Result<string>)
    requires WellFormed(entries, Capacity) && Lookup(entries, app) == Some(m) && m != AxMethod
    ensures var o := Select(entries, Ok(app), ax, clipboard);
      && o.result == clipboard
      && o.calls == [Clipboard]
      && SameMapping(o.entries, entries)
      && |o.entries| == |entries|
      && o.entries[|o.entries| - 1] == Entry(app, m)
  {
    GetPreserves(entries, Capacity, app);
  }

  /** On a cold cache, non-empty accessibility text is returned and 0 is
      remembered for the application, without invoking clipboard
      simulation; other names keep their methods, except the least recently
      used one when a full cache had to evict it. */
  lemma ColdAccessibilityText(entries: seq<Entry<string, Byte>>, app: string, text: string,
                              clipboard: Result<string>)
    requires DistinctKeys(entries) && Cold(entries, app) && text != ""
    ensures var o := Select(entries, Ok(app), Ok(text), clipboard);
      && o.result == Ok(text)
      && o.calls == [Accessibility]
      && Lookup(o.entries, app) == Some(AxMethod)
      && forall k :: k != app ==>
           Lookup(o.entries, k) ==
           (if Evicts(entries, Capacity, app) && k == entries[0].key then None else Lookup(entries, k))
  {
    forall k ensures Lookup(AfterPut(entries, Capacity, app, AxMethod), k) ==
                     (if k == app then Some(AxMethod)
                      else if Evicts(entries, Capacity, app) && k == entries[0].key then None
                      else Lookup(entries, k)) {
      PutLookup(entries, Capacity, app, AxMethod, k);
    }
  }

  /** On a cold cache, empty accessibility text is returned as it is: nothing
      is remembered and clipboard simulation is not invoked. */
  lemma ColdAccessibilityEmpty(entries: seq<Entry<string, Byte>>, app: string,
                               clipboard: Result<string>)
    requires Cold(entries, app)
    ensures var o := Select(entries, Ok(app), Ok(""), clipboard);
      o.result == Ok("") && o.calls == [Accessibility] && o.entries == entries
  {
  }

  /** On a cold cache, an accessibility error hands over to clipboard
      simulation, whose non-empty text is returned and remembered as 1;
      other names keep their methods, except an evicted least recent one. */
  lemma ColdClipboardText(entries: seq<Entry<string, Byte>>, app: string, e: Error, text: string)
    requires DistinctKeys(entries) && Cold(entries, app) && text != ""
    ensures var o := Select(entries, Ok(app), Err(e), Ok(text));
      && o.result == Ok(text)
      && o.calls == [Accessibility, Clipboard]
      && Lookup(o.entries, app) == Some(ClipboardMethod)
      && forall k :: k != app ==>
           Lookup(o.entries, k) ==
           (if Evicts(entries, Capacity, app) && k == entries[0].key then None else Lookup(entries, k))
  {
    forall k ensures Lookup(AfterPut(entries, Capacity, app, ClipboardMethod), k) ==
                     (if k == app then Some(ClipboardMethod)
                      else if Evicts(entries, Capacity, app) && k == entries[0].key then None
                      else Lookup(entries, k)) {
      PutLookup(entries, Capacity, app, ClipboardMethod, k);
    }
  }

  /** On a cold cache, after an accessibility error, empty clipboard text and
      a clipboard error are both returned as they are, and nothing is
      remembered. */
  lemma ColdClipboardEmptyOrError(entries: seq<Entry<string, Byte>>, app: string, e: Error,
                                  clipboard: Result<string>)
    requires Cold(entries, app) && (clipboard == Ok("") || clipboard.Err?)
    ensures var o := Select(entries, Ok(app), Err(e), clipboard);
      o.result == clipboard && o.calls == [Accessibility, Clipboard] && o.entries == entries
  {
  }

  /** Only a cold-cache call that returns non-empty text changes the mapping;
      every other call, in particular every cache hit, keeps it. */
  lemma OnlyColdTextChangesMapping(entries: seq<Entry<string, Byte>>, window: Result<string>,
                                   ax: Result<string>, clipboard: Result<string>)
    requires WellFormed(entries, Capacity)
    ensures var o := Select(entries, window, ax, clipboard);
      (window.Ok? && Cold(entries, window.value) && o.result.Ok? && o.result.value != "")
      || SameMapping(o.entries, entries)
  {
    if window.Ok? {
      GetPreserves(entries, Capacity, window.value);
    }
  }

  /** A call for an application that was not in a full cache and that
      returns non-empty text evicts the least recently used application,
      whose next call takes the cold path again: the accessibility API is
      tried first, whatever method had been remembered for it. */
  lemma EvictedApplicationGoesCold(entries: seq<Entry<string, Byte>>, app: string,
                                   ax: Result<string>, clipboard: Result<string>,
                                   ax': Result<string>, clipboard': Result<string>)
    requires WellFormed(entries, Capacity) && |entries| == Capacity && Cold(entries, app)
    requires var o := Select(entries, Ok(app), ax, clipboard);
      o.result.Ok? && o.result.value != ""
    ensures var o := Select(entries, Ok(app), ax, clipboard);
      && Cold(o.entries, entries[0].key)
      && |o.entries| == Capacity
      && Select(o.entries, Ok(entries[0].key), ax', clipboard').calls[0] == Accessibility
  {
    var o := Select(entries, Ok(app), ax, clipboard);
    var m := if ax.Ok? then AxMethod else ClipboardMethod;
    assert o.entries == AfterPut(entries, Capacity, app, m);
    PutEvictsLeastRecent(entries, Capacity, app, m);
  }

  /** Learning by fallback: when accessibility fails on a cold cache and
      clipboard simulation returns non-empty text, the next call for the same
      application invokes clipboard simulation alone and returns its result. */
  lemma FallbackIsRemembered(entries: seq<Entry<string, Byte>>, app: string, e: Error, text: string,
                             ax': Result<string>, clipboard': Result<string>)
    requires WellFormed(entries, Capacity) && Cold(entries, app) && text != ""
    ensures var o := Select(entries, Ok(app), Err(e), Ok(text));
      var o' := Select(o.entries, Ok(app), ax', clipboard');
      o.result == Ok(text) && o'.calls == [Clipboard] && o'.result == clipboard'
  {
    PutLookup(entries, Capacity, app, ClipboardMethod, app);
  }

  /** Learning the accessibility API: once a cold call returned non-empty
      accessibility text, the next call for the same application invokes
      the accessibility API alone, so even its failure is returned as it is. */
  lemma AccessibilityIsRemembered(entries: seq<Entry<string, Byte>>, app: string, text: string,
                                  clipboard: Result<string>, ax': Result<string>, clipboard': Result<string>)
    requires WellFormed(entries, Capacity) && Cold(entries, app) && text != ""
    ensures var o := Select(entries, Ok(app), Ok(text), clipboard);
      var o' := Select(o.entries, Ok(app), ax', clipboard');
      o.result == Ok(text) && o'.calls == [Accessibility] && o'.result == ax'
  {
    PutLookup(entries, Capacity, app, AxMethod, app);
  }

  /**
    The state behind `get_selected_text`: the static
    `Mutex<Option<LruCache<String, u8>>>`, here without its lock. It is
    `null` until the first call creates an empty cache of capacity 100.
   */
  class Selector {
    var cache: LruCache?<string, Byte>

    ghost predicate Valid()
      reads this, cache
    {
      cache != null ==> cache.Valid() && cache.cap == Capacity && MethodsOnly(cache.entries)
    }

    /** The cache entries; an uncreated cache holds none. */
    ghost function Entries(): seq<Entry<string, Byte>>
      reads this, cache
    {
      if cache == null then [] else cache.entries
    }

    /** The process starts with no cache. */
    constructor ()
      ensures Valid() && cache == null && Entries() == []
    {
      cache := null;
    }

    /**
      `get_selected_text()`: `window` is what `get_active_window` yields
      (the application's name), `ax` and `clipboard` what the two extractors
      would return when invoked; `calls` lists the extractors invoked.
     */
    method GetSelectedText(window: Result<string>, ax: Result<string>, clipboard: Result<string>)
      returns (result: Result<string>, calls: seq<Extractor>)
      requires Valid()
      modifies this, cache
      ensures Valid() && cache != null
      ensures old(cache) != null ==> cache == old(cache)
      ensures old(cache) == null ==> fresh(cache)
      ensures Outcome(result, calls, Entries()) == Select(old(Entries()), window, ax, clipboard)
    {
      if cache == null {
        cache := new LruCache(Capacity);
      }
      var c := cache;
      if window.Err? {
        return Err(NoActiveWindow), [];
      }
      var app := window.value;
      var hit := c.Get(app);
      if hit.Some? {
        if hit.value == AxMethod {
          return ax, [Accessibility];
        }
        return clipboard, [Clipboard];
      }
      calls := [Accessibility];
      if ax.Ok? {
        if ax.value != "" {
          c.Put(app, AxMethod);
        }
        return ax, calls;
      }
      calls := calls + [Clipboard];
      if clipboard.Ok? {
        if clipboard.value != "" {
          c.Put(app, ClipboardMethod);
        }
        return clipboard, calls;
      }
      return Err(clipboard.error), calls;
    }
  }
}
