/** src/find.rs: look a window up by class and title, directly or through a
    cache of earlier answers.

    The operating system is not modelled; it appears as two oracles that each
    operation receives:
    - `alive: int -> bool` is `is_window_exist` (`IsWindow`), which says
      whether a handle still denotes a window;
    - `findWindow: (WideArg, WideArg) -> int` is `FindWindowW`, which returns
      the handle of a matching window, or 0 when there is none.
    Handles are unbounded integers (the source's `isize`). */
module Find {
  import opened Errors
  import opened Utf16

  // ---------------------------------------------------------------------------
  // The lookup
  // ---------------------------------------------------------------------------

  /** A `PCWSTR` as `FindWindowW` receives it: the null pointer, or a pointer
      to the given NUL-terminated buffer of code units. */
  datatype WideArg = Null | Wide(units: seq<U16>)

  /** A query that names neither a class nor a title. */
  predicate BothEmpty(windowClass: string, windowTitle: string) {
    windowClass == [] && windowTitle == []
  }

  /** `str_to_pcwstr`: an empty string becomes the null pointer (so that
      `FindWindowW` matches any class or title), any other string its UTF-16
      encoding followed by one terminating 0. */
  function StrToPcwstr(s: string): (p: WideArg)
    ensures p.Null? <==> s == []
    ensures p.Wide? ==> |p.units| == Utf16Length(s) + 1 && p.units[|p.units| - 1] == 0
    ensures p.Wide? ==> p.units == Encode(s) + [0]
    ensures p.Wide? ==> DecodeLossy(p.units[..|p.units| - 1]) == s
    ensures p.Wide? && '\0' !in s ==> 0 !in p.units[..|p.units| - 1]
  {
    if s == [] then Null
    else
      DecodeEncode(s);
      EncodeHasNul(s);
      assert (Encode(s) + [0])[..|Encode(s)|] == Encode(s);
      Wide(Encode(s) + [0])
  }

  /** What `FindWindowW` reads through the pointer: a reader of C wide strings
      stops at the first 0, so it sees the whole argument exactly when the
      argument has no U+0000 in it. */
  lemma ArgumentReadWhole(s: string)
    requires s != []
    ensures UntilNul(StrToPcwstr(s).units) == Encode(s) <==> '\0' !in s
  {
    EncodeHasNul(s);
    UntilNulOfTerminated(Encode(s));
  }

  /** `get_hwnd`: refuse a query with neither class nor title, otherwise ask
      `FindWindowW` and turn its 0 into `CannotFindWindow` carrying both
      arguments. */
  function GetHwnd(windowClass: string, windowTitle: string,
                   findWindow: (WideArg, WideArg) -> int): (r: Result<int>)
    ensures r == Err(WindowClassTitleBothEmpty) <==> BothEmpty(windowClass, windowTitle)
    ensures r == Err(CannotFindWindow(windowClass, windowTitle)) <==>
              !BothEmpty(windowClass, windowTitle)
              && findWindow(StrToPcwstr(windowClass), StrToPcwstr(windowTitle)) == 0
    ensures r.Ok? ==>
              r.value != 0
              && r.value == findWindow(StrToPcwstr(windowClass), StrToPcwstr(windowTitle))
    ensures r.Ok? || r == Err(WindowClassTitleBothEmpty)
            || r == Err(CannotFindWindow(windowClass, windowTitle))
  {
    if BothEmpty(windowClass, windowTitle) then Err(WindowClassTitleBothEmpty)
    else
      var hwnd := findWindow(StrToPcwstr(windowClass), StrToPcwstr(windowTitle));
      if hwnd == 0 then Err(CannotFindWindow(windowClass, windowTitle)) else Ok(hwnd)
  }

  // ---------------------------------------------------------------------------
  // One step of the cache, as a function of the map before the call
  // ---------------------------------------------------------------------------

  /** A cache key: (window class, window title). */
  type Key = (string, string)

  /** What every cache of the library keeps: only keys a lookup accepts, and only
      handles a successful lookup returned. */
  ghost predicate CacheInvariant(cache: map<Key, int>) {
    forall k :: k in cache ==> !BothEmpty(k.0, k.1) && cache[k] != 0
  }

  /** `m` and `m'` agree at `k`: both lack it, or both map it to the same handle. */
  ghost predicate SameAt(m: map<Key, int>, m': map<Key, int>, k: Key) {
    (k in m <==> k in m') && (k in m ==> m[k] == m'[k])
  }

  /** The query is answered from the cache: its key is cached, and the cached
      handle still denotes a window. Liveness is the only test; whether that
      window still has this class and title is not asked. */
  predicate IsHit(cache: map<Key, int>, windowClass: string, windowTitle: string,
                  alive: int -> bool) {
    (windowClass, windowTitle) in cache && alive(cache[(windowClass, windowTitle)])
  }

  /** The query goes on to `get_hwnd`, and hence to `FindWindowW`. */
  predicate ConsultsFinder(cache: map<Key, int>, windowClass: string, windowTitle: string,
                           alive: int -> bool) {
    !BothEmpty(windowClass, windowTitle) && !IsHit(cache, windowClass, windowTitle, alive)
  }

  /** The result and the new map of one `get_hwnd_ref_cache` call on `cache`. */
  function Resolve(cache: map<Key, int>, windowClass: string, windowTitle: string,
                   alive: int -> bool, findWindow: (WideArg, WideArg) -> int)
    : (out: (Result<int>, map<Key, int>))
    // rejected queries are neither looked up nor cached
    ensures BothEmpty(windowClass, windowTitle) ==>
              out == (Err(WindowClassTitleBothEmpty), cache)
    // a hit returns the cached handle and leaves the map alone
    ensures !BothEmpty(windowClass, windowTitle) && IsHit(cache, windowClass, windowTitle, alive) ==>
              out == (Ok(cache[(windowClass, windowTitle)]), cache)
    // otherwise the answer is the uncached lookup's
    ensures ConsultsFinder(cache, windowClass, windowTitle, alive) ==>
              out.0 == GetHwnd(windowClass, windowTitle, findWindow)
    // a handle returned is cached under the key
    ensures out.0.Ok? ==>
              (windowClass, windowTitle) in out.1
              && out.1[(windowClass, windowTitle)] == out.0.value
    // a failed lookup leaves no entry: the dead one is gone, no negative entry is made
    ensures ConsultsFinder(cache, windowClass, windowTitle, alive) && out.0.Err? ==>
              (windowClass, windowTitle) !in out.1
    // no other key changes
    ensures forall k :: k != (windowClass, windowTitle) ==> SameAt(cache, out.1, k)
    ensures CacheInvariant(cache) ==> CacheInvariant(out.1)
  {
    var key := (windowClass, windowTitle);
    if BothEmpty(windowClass, windowTitle) then (Err(WindowClassTitleBothEmpty), cache)
    else if IsHit(cache, windowClass, windowTitle, alive) then (Ok(cache[key]), cache)
    else
      var removed := cache - {key};
      match GetHwnd(windowClass, windowTitle, findWindow)
      case Err(e) => (Err(e), removed)
      case Ok(hwnd) => (Ok(hwnd), removed[key := hwnd])
  }

  /** Asking again at once, with every window as it was, is a hit that returns
      the same handle and needs no lookup, whatever the finder would now say. */
  lemma RepeatedQueryHits(cache: map<Key, int>, windowClass: string, windowTitle: string,
                          alive: int -> bool, findWindow: (WideArg, WideArg) -> int,
                          laterFindWindow: (WideArg, WideArg) -> int)
    requires Resolve(cache, windowClass, windowTitle, alive, findWindow).0.Ok?
    requires alive(Resolve(cache, windowClass, windowTitle, alive, findWindow).0.value)
    ensures var (r, cache') := Resolve(cache, windowClass, windowTitle, alive, findWindow);
            IsHit(cache', windowClass, windowTitle, alive)
            && Resolve(cache', windowClass, windowTitle, alive, laterFindWindow) == (r, cache')
  {
  }

  /** The documented stale match: once a handle is cached and its window lives,
      the cache returns it for the old key even when the finder would now answer
      otherwise (the window was retitled, so the old title finds nothing or
      another window). */
  lemma StaleMatch(cache: map<Key, int>, windowClass: string, windowTitle: string,
                   alive: int -> bool, findWindow: (WideArg, WideArg) -> int)
    requires !BothEmpty(windowClass, windowTitle)
    requires (windowClass, windowTitle) in cache && alive(cache[(windowClass, windowTitle)])
    requires findWindow(StrToPcwstr(windowClass), StrToPcwstr(windowTitle))
             != cache[(windowClass, windowTitle)]
    ensures Resolve(cache, windowClass, windowTitle, alive, findWindow).0
            == Ok(cache[(windowClass, windowTitle)])
            != GetHwnd(windowClass, windowTitle, findWindow)
  {
  }

  /** A cached handle whose window has gone is never returned: the call asks
      the finder again, and the dead handle is either replaced or removed. */
  lemma DeadEntryIsRefound(cache: map<Key, int>, windowClass: string, windowTitle: string,
                           alive: int -> bool, findWindow: (WideArg, WideArg) -> int)
    requires !BothEmpty(windowClass, windowTitle)
    requires (windowClass, windowTitle) in cache && !alive(cache[(windowClass, windowTitle)])
    ensures var (r, cache') := Resolve(cache, windowClass, windowTitle, alive, findWindow);
            r == GetHwnd(windowClass, windowTitle, findWindow)
            && ((windowClass, windowTitle) in cache' ==> r.Ok? && cache'[(windowClass, windowTitle)] == r.value)
  {
  }

  /** Nothing is cached negatively: after a failed lookup the next query for the
      same key asks the finder again. */
  lemma FailureIsNotCached(cache: map<Key, int>, windowClass: string, windowTitle: string,
                           alive: int -> bool, findWindow: (WideArg, WideArg) -> int,
                           laterFindWindow: (WideArg, WideArg) -> int)
    requires !BothEmpty(windowClass, windowTitle)
    requires Resolve(cache, windowClass, windowTitle, alive, findWindow).0.Err?
    ensures var cache' := Resolve(cache, windowClass, windowTitle, alive, findWindow).1;
            ConsultsFinder(cache', windowClass, windowTitle, alive)
            && Resolve(cache', windowClass, windowTitle, alive, laterFindWindow).0
               == GetHwnd(windowClass, windowTitle, laterFindWindow)
  {
  }

  // ---------------------------------------------------------------------------
  // The process-wide cache behind `get_hwnd_ref_cache`
  // ---------------------------------------------------------------------------

  /** The `HWND_CACHE` global, made an explicitly constructed object. Its lock is
      not modelled: calls are sequential. `finderCalls` counts the calls this
      cache makes to `get_hwnd`. */
  class HwndCache {
    var entries: map<Key, int>
    ghost var finderCalls: nat

    ghost predicate Valid()
      reads this
    {
      CacheInvariant(entries)
    }

    /** `Mutex::new(HashMap::new())`. */
    constructor ()
      ensures Valid() && entries == map[] && finderCalls == 0
    {
      entries := map[];
      finderCalls := 0;
    }

    /** `get_hwnd_ref_cache`: a live cached handle is returned as it is; otherwise
        the entry is dropped, `get_hwnd` is asked and a handle it finds is
        cached. */
    method GetHwndRefCache(windowClass: string, windowTitle: string,
                           alive: int -> bool, findWindow: (WideArg, WideArg) -> int)
      returns (r: Result<int>)
      requires Valid()
      modifies this
      ensures Valid()
      ensures (r, entries) == Resolve(old(entries), windowClass, windowTitle, alive, findWindow)
      ensures finderCalls == old(finderCalls)
                             + if ConsultsFinder(old(entries), windowClass, windowTitle, alive) then 1 else 0
    {
      if windowClass == [] && windowTitle == [] {
        return Err(WindowClassTitleBothEmpty);
      }
      var key := (windowClass, windowTitle);
      if key in entries && alive(entries[key]) {
        r := Ok(entries[key]);
      } else {
        entries := entries - {key};
        r := GetHwnd(windowClass, windowTitle, findWindow);
        finderCalls := finderCalls + 1;
        if r.Err? {
          return;
        }
        entries := entries[key := r.value];
      }
    }
  }

  // ---------------------------------------------------------------------------
  // The caller-owned cache `HwndGetterWithCache`
  // ---------------------------------------------------------------------------

  /** The result, the getter's new map and the shared cache's new map after one
      `HwndGetterWithCache::get_hwnd` call. */
  function GetterResolve(own: map<Key, int>, shared: map<Key, int>,
                         windowClass: string, windowTitle: string,
                         alive: int -> bool, findWindow: (WideArg, WideArg) -> int)
    : (out: (Result<int>, map<Key, int>, map<Key, int>))
    ensures BothEmpty(windowClass, windowTitle) ==>
              out == (Err(WindowClassTitleBothEmpty), own, shared)
    // a hit in the getter's own map touches neither map and goes no further
    ensures !BothEmpty(windowClass, windowTitle) && IsHit(own, windowClass, windowTitle, alive) ==>
              out == (Ok(own[(windowClass, windowTitle)]), own, shared)
    // a miss is answered by the shared cache, which changes as it would alone
    ensures ConsultsFinder(own, windowClass, windowTitle, alive) ==>
              (out.0, out.2) == Resolve(shared, windowClass, windowTitle, alive, findWindow)
    // after a miss that succeeds, both maps hold the returned handle
    ensures ConsultsFinder(own, windowClass, windowTitle, alive) && out.0.Ok? ==>
              (windowClass, windowTitle) in out.1 && (windowClass, windowTitle) in out.2
              && out.1[(windowClass, windowTitle)] == out.2[(windowClass, windowTitle)] == out.0.value
    // after a miss that fails, neither map holds the key
    ensures ConsultsFinder(own, windowClass, windowTitle, alive) && out.0.Err? ==>
              (windowClass, windowTitle) !in out.1 && (windowClass, windowTitle) !in out.2
    ensures forall k :: k != (windowClass, windowTitle) ==> SameAt(own, out.1, k) && SameAt(shared, out.2, k)
    ensures CacheInvariant(own) && CacheInvariant(shared) ==>
              CacheInvariant(out.1) && CacheInvariant(out.2)
  {
    var key := (windowClass, windowTitle);
    if BothEmpty(windowClass, windowTitle) then (Err(WindowClassTitleBothEmpty), own, shared)
    else if IsHit(own, windowClass, windowTitle, alive) then (Ok(own[key]), own, shared)
    else
      var removed := own - {key};
      var (r, shared') := Resolve(shared, windowClass, windowTitle, alive, findWindow);
      match r
      case Err(e) => (Err(e), removed, shared')
      case Ok(hwnd) => (Ok(hwnd), removed[key := hwnd], shared')
  }

  /** A cache owned by one caller, in front of the shared one. */
  class HwndGetterWithCache {
    var cache: map<Key, int>
    /** The process-wide cache that a miss falls through to. */
    const shared: HwndCache

    ghost predicate Valid()
      reads this, shared
    {
      CacheInvariant(cache) && shared.Valid()
    }

    /** `HwndGetterWithCache::new`: an empty map. */
    constructor (shared: HwndCache)
      requires shared.Valid()
      ensures Valid() && cache == map[] && this.shared == shared
      ensures unchanged(shared)
    {
      cache := map[];
      this.shared := shared;
    }

    /** `HwndGetterWithCache::get_hwnd`: a live handle in the own map is returned
        as it is; otherwise the own entry is dropped, the shared cache is asked,
        and a handle it returns is cached here too. */
    method GetHwnd(windowClass: string, windowTitle: string,
                   alive: int -> bool, findWindow: (WideArg, WideArg) -> int)
      returns (r: Result<int>)
      requires Valid()
      modifies this, shared
      ensures Valid()
      ensures (r, cache, shared.entries)
              == GetterResolve(old(cache), old(shared.entries), windowClass, windowTitle, alive, findWindow)
      ensures shared.finderCalls == old(shared.finderCalls)
              + if ConsultsFinder(old(cache), windowClass, windowTitle, alive)
                   && ConsultsFinder(old(shared.entries), windowClass, windowTitle, alive) then 1 else 0
    {
      if windowClass == [] && windowTitle == [] {
        return Err(WindowClassTitleBothEmpty);
      }
      var key := (windowClass, windowTitle);
      if key in cache && alive(cache[key]) {
        r := Ok(cache[key]);
      } else {
        cache := cache - {key};
        r := shared.GetHwndRefCache(windowClass, windowTitle, alive, findWindow);
        if r.Err? {
          return;
        }
        cache := cache[key := r.value];
      }
    }
  }
}
