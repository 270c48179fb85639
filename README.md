# window_inspector: the window-handle cache and its helpers, in Dafny

This is a model of the core of `window_inspector`, a Rust library for Windows
that finds windows by class and title and queries them. It covers three things:

- The lookup `get_hwnd` (src/find.rs) and its copy `get_window_handle`
  (src/information.rs). A lookup must give a class or a title. Each non-empty
  argument is passed to `FindWindowW` as NUL-terminated UTF-16, and an empty
  one as a null pointer. A result of 0 becomes `CannotFindWindow`.
- The caches in front of the lookup.
  - A process-wide map from `(class, title)` to a handle: `get_hwnd_ref_cache`
    and `get_window_handle_ref_cache`.
  - A map owned by one caller, `HwndGetterWithCache`, which falls back to the
    process-wide cache on a miss.
  - A cached handle is returned when its window still exists. Otherwise
    `get_hwnd_ref_cache` and the getter remove the entry, run the lookup and
    store a handle it finds. `get_window_handle_ref_cache` is meant to do the
    same, but on a miss it calls itself instead of the lookup; the model gives
    it the intended behaviour and shows the code as written under
    "## Findings".
- The small per-handle queries of src/information.rs. Each one first checks
  that the handle denotes a window. Then it converts what the OS call wrote:
  a `RECT` becomes (x, y, width, height), the extended style word becomes the
  topmost flag, and a UTF-16 buffer becomes a string.

The operating system is not modelled. Each OS call becomes a function
parameter (an "oracle"):

- `alive: int -> bool` is `IsWindow`;
- `findWindow: (WideArg, WideArg) -> int` is `FindWindowW`;
- each query gets one oracle for the one call it makes: `GetClassNameW`,
  `GetWindowTextW`, `GetWindowRect`, `DwmGetWindowAttribute`,
  `ClientToScreen`, `GetClientRect` or `GetWindowLongW`. The foreground handle
  is passed in as a value.

The process-wide `lazy_static` maps become objects of the classes
`Find.HwndCache` and `Information.WindowHandleCache`, each built explicitly.
An `HwndGetterWithCache` holds a reference to the `HwndCache` it falls back to.
Each cache method is proved against a pure function of the map before the
call: `Find.Resolve` for a process-wide cache, `Find.GetterResolve` for the
getter. The properties of the cache are proved about those functions. A ghost
counter, `finderCalls`, counts the lookups that each process-wide cache makes.

Files: `errors.dfy` (src/error.rs), `utf16.dfy` (UTF-16 as in section 2.1 of
RFC 2781, with the lossy decoder used by `String::from_utf16_lossy`),
`decimal.dfy` (the `{}` formatting of a handle in error messages), `find.dfy`
(src/find.rs) and `information.dfy` (src/information.rs).

Two facts about the caches shape the model:

- Every cache is an unbounded `HashMap` (src/find.rs:13, src/find.rs:76,
  src/information.rs:71). Nothing limits its size and nothing evicts entries.
- A failed lookup removes a dead entry for its key: the `remove` at
  src/find.rs:93 comes before the `?` at src/find.rs:94.

## Model

| member | source | states |
|---|---|---|
| `Utf16.EncodeChar` | src/find.rs:62 | a BMP character is the one code unit equal to its value and not a surrogate; a character outside the BMP becomes a high surrogate then a low surrogate that together give back its value; a non-NUL character gives no 0 unit |
| `Utf16.Encode` | src/find.rs:62 | the encoding of a string has exactly its UTF-16 length in code units |
| `Utf16.DecodeEncode` | src/information.rs:132 | `from_utf16_lossy` gives back every string from its UTF-16 encoding (round trip) |
| `Utf16.EncodeInjective` | src/find.rs:62 | two strings with the same encoding are equal |
| `Utf16.EncodeHasNul` | src/find.rs:62 | the encoding holds a 0 unit if and only if the string holds U+0000 |
| `Utf16.DecodeLossy` | src/information.rs:132 | `String::from_utf16_lossy` of the units the OS wrote: the string is no longer than the buffer, and `DecodeEncode` makes it the inverse of `Encode` |
| `Find.StrToPcwstr` | src/find.rs:58-64 | the empty string, and only it, becomes the null pointer; any other string becomes exactly its UTF-16 encoding followed by one 0, of length UTF-16 length + 1, whose body decodes back to the string and, when the string holds no U+0000, contains no other 0 |
| `Find.ArgumentReadWhole` | src/find.rs:62-63 | a reader that stops at the first 0 sees the whole encoded argument if and only if the argument holds no U+0000 |
| `Find.GetHwnd` | src/find.rs:54-73 | `WindowClassTitleBothEmpty` exactly when class and title are both empty; `CannotFindWindow` with the two arguments exactly when `FindWindowW` returns 0; otherwise `Ok` of the nonzero handle `FindWindowW` returned; no other outcome |
| `Find.Resolve` | src/find.rs:83-98 | an empty query is rejected and the map is unchanged; a live cached handle is returned and the map is unchanged (the finder's answer plays no part); in every other case the result is `get_hwnd`'s; a returned handle is cached under the key; after a failed lookup the key is absent; every other key keeps its entry; `CacheInvariant` (every key is a non-empty query, every handle nonzero) is preserved |
| `Find.RepeatedQueryHits` | src/find.rs:89-96 | after a successful call whose handle is alive, the same query at once is a hit that returns the same handle and leaves the map as it was, whatever the finder would now answer |
| `Find.StaleMatch` | src/find.rs:79-91 | a cached handle whose window is alive is returned for the old key even when a fresh lookup would now answer differently |
| `Find.DeadEntryIsRefound` | src/find.rs:90-95 | a cached handle whose window is dead is never returned: the result is a fresh lookup's, and the key then holds only the handle just found |
| `Find.FailureIsNotCached` | src/find.rs:93-94 | after a failed lookup the next query for the key asks the finder again and returns its answer |
| `Find.HwndCache.constructor` | src/find.rs:75-77 | the process-wide cache starts empty |
| `Find.HwndCache.GetHwndRefCache` | src/find.rs:83-98 | result and new map are those of `Resolve` on the old map; the lookup counter goes up by one exactly when the query is non-empty and not a hit |
| `Find.GetterResolve` | src/find.rs:24-38 | an empty query changes nothing; a live handle in the getter's own map is returned with neither map changed; on a miss the result and the shared map are those of `Resolve`; after a successful miss both maps hold the returned handle for the key; after a failed miss neither holds the key; other keys keep their entries in both maps |
| `Find.HwndGetterWithCache.constructor` | src/find.rs:17-21 | a new getter has an empty map and leaves the shared cache as it is |
| `Find.HwndGetterWithCache.GetHwnd` | src/find.rs:24-38 | result and both new maps are those of `GetterResolve`; the shared cache's lookup counter goes up exactly when the query misses both maps |
| `Information.GetWindowHandle` | src/information.rs:49-68 | the same three outcomes as `get_hwnd`: `WindowClassTitleBothEmpty` exactly for an empty query, `CannotFindWindow` with the arguments exactly when `FindWindowW` returns 0, and `Ok` of the handle whenever it returns a nonzero one |
| `Information.GetWindowHandleIsGetHwnd` | src/information.rs:49-68 | `get_window_handle` and the `get_hwnd` of src/find.rs agree on every input |
| `Information.WindowHandleCache.constructor` | src/information.rs:70-73 | the cache starts empty |
| `Information.WindowHandleCache.GetWindowHandleRefCache` | src/information.rs:79-94 | the intended behaviour: rejection and hit exactly as in src/find.rs, and on a miss removal, a lookup with `get_window_handle`, then insertion; result and new map are those of `Resolve` |
| `Information.RefCacheAsWritten` | src/information.rs:79-94 | the code as written, with the recursion depth bounded: an empty query is rejected and a live cached handle is returned with the map unchanged, exactly as in src/find.rs |
| `Information.RefCacheAsWrittenMissDiverges` | src/information.rs:89-90 | the code as written answers no query that misses the cache, at any depth of recursion |
| `Information.IsForeground` | src/information.rs:114-116 | a handle is in the foreground exactly when it equals the foreground handle |
| `Information.WrappingSubI32` | src/information.rs:166 | the wrapped `i32` difference agrees with the exact difference modulo 2^32 |
| `Information.AsU32` | src/information.rs:166 | `as u32` keeps a non-negative `i32` and adds 2^32 to a negative one |
| `Information.Extent` | src/information.rs:166-167 | `(hi - lo) as u32` is the difference modulo 2^32: exactly `hi - lo` when `lo <= hi`, and `hi - lo + 2^32` otherwise |
| `Information.RectToWh` | src/information.rs:228-230 | width is `right - left` and height `bottom - top`, each modulo 2^32 |
| `Information.RectToXywh` | src/information.rs:163-168 | x is `left`, y is `top`, and width and height are those of `RectToWh`, equal to the plain differences when the rectangle is not inverted |
| `Information.XywhDeterminesRect` | src/information.rs:193-198 | a non-inverted rectangle is recovered as (x, y, x + width, y + height) |
| `Information.HandleMessage` | src/information.rs:129 | the message starts with "window handle: " |
| `Information.HandleMessageNamesHandle` | src/information.rs:129 | different handles give different messages |
| `Decimal.NatDigits` | src/information.rs:129 | the digits of a handle's magnitude: at least one, all decimal digits, and a leading '0' only for zero itself |
| `Decimal.IntToString` | src/information.rs:129 | the `{}` rendering of a handle is non-empty and starts with '-' exactly when the handle is negative; `ParseIntToString` shows it parses back to the handle |
| `Decimal.ParseIntToString` | src/information.rs:129 | the decimal rendering of a handle is a sign and digits, and parses back to the handle |
| `Information.TextQuery` | src/information.rs:126-133 | a dead handle gives `WindowNotExist`; a count of 0 gives `Win32ApiFailed` with no code; a live window with a non-empty buffer gives `Ok` of the lossy decoding of the units written, and only then is the result `Ok` |
| `Information.GetWindowClass` | src/information.rs:121-134 | `WindowNotExist` for a dead handle, `Win32ApiFailed("GetClassNameW")` when nothing was written, otherwise the lossy decoding of the class name |
| `Information.GetWindowTitle` | src/information.rs:137-150 | `WindowNotExist` for a dead handle, `Win32ApiFailed("GetWindowTextW")` when nothing was written, otherwise the lossy decoding of the title |
| `Information.TextQueriesReturnTheName` | src/information.rs:132 | a live window whose name the OS writes as UTF-16 gets exactly that class name and title back |
| `Information.RectQuery` | src/information.rs:162-174 | a dead handle gives `WindowNotExist`; a failed call gives `Win32ApiFailed` with its code; a successful call on a live window gives `Ok` of the (x, y, width, height) of the rectangle written, and only then is the result `Ok` |
| `Information.GetWindowXywhIncludeShadow` | src/information.rs:157-175 | `WindowNotExist` for a dead handle; success exactly when the window is alive and `GetWindowRect` succeeds, with the (x, y, width, height) of its rectangle; a failed call gives `Win32ApiFailed("GetWindowRect")` with its code |
| `Information.GetWindowXywhExcludeShadow` | src/information.rs:180-205 | the same, from the extended frame bounds of `DwmGetWindowAttribute`; a failed call gives `Win32ApiFailed("DwmGetWindowAttribute")` with its code |
| `Information.GetClientXy` | src/information.rs:210-217 | `WindowNotExist` for a dead handle; otherwise the point `ClientToScreen` left, success in every case |
| `Information.GetClientWh` | src/information.rs:222-238 | `WindowNotExist` for a dead handle; success exactly when `GetClientRect` succeeds, with the width and height of its rectangle; otherwise `Win32ApiFailed("GetClientRect")` with its code |
| `Information.GetClientXywh` | src/information.rs:243-247 | `WindowNotExist` for a dead handle; success exactly when `GetClientRect` succeeds, with the corner from `ClientToScreen` and the client size; a failed `GetClientRect` gives `Win32ApiFailed("GetClientRect")` with its code |
| `Information.HasTopmostBit` | src/information.rs:262 | the mask test holds exactly when bit 3 (`WS_EX_TOPMOST`, 0x8) of the style word, read as `u32`, is set |
| `Information.GetWindowTopMost` | src/information.rs:252-264 | `WindowNotExist` for a dead handle; for a live one, failure exactly when the style word is 0, reported as `Win32ApiFailed("GetWindowLongW")` and not as "not topmost"; otherwise whether bit 3 is set |
| `Information.DeadHandleIsRejectedFirst` | src/information.rs:122-124 | every per-handle query gives `WindowNotExist` for a dead handle, whatever its other OS call would return |

## Findings

| source | as written | input that shows it | evidently intended | confidence | as-written member | corrected member |
|---|---|---|---|---|---|---|
| src/information.rs:90 | on a miss, `get_window_handle_ref_cache` calls itself while it still holds the lock from line 83, instead of calling `get_window_handle`; it never reaches `FindWindowW` | any query that is not a hit, e.g. class "Notepad" and title "" on the empty cache | remove the entry, call `get_window_handle` and cache what it finds, as `get_hwnd_ref_cache` does at src/find.rs:93-96 | not executed | `Information.RefCacheAsWritten`, `Information.RefCacheAsWrittenMissDiverges` | `Information.WindowHandleCache.GetWindowHandleRefCache` |

## Left out

- The OS calls (`FindWindowW`, `IsWindow`, `GetForegroundWindow`, `GetClassNameW`, `GetWindowTextW`, `GetWindowRect`, `DwmGetWindowAttribute`, `ClientToScreen`, `GetClientRect`, `GetWindowLongW`) are oracles passed as parameters. `is_window_exist` and `get_foreground_window_handle` are exactly those calls, so they have no model of their own.
- The `Mutex` and `lazy_static` around each process-wide map are left out. The model is single-threaded, so it does not capture the deadlock of the re-locking self-call at src/information.rs:83/90, only its unbounded recursion.
- `Information.RefCacheAsWritten` shows non-termination with a bound (`fuel`) on the recursion depth. A stack overflow or blocked thread is shown as reaching that bound.
- The `PCWSTR` that `str_to_pcwstr` returns points into a `Vec` that is dropped when the function returns. The model keeps the encoded buffer and not the pointer, so this dangling pointer is not modelled.
- A window can change, or die, between two OS calls of one operation, such as the two existence checks of `get_client_xywh`. The model does not capture such races: each oracle is a fixed snapshot of the OS for the whole call.
- The OS may reuse a dead window's handle for a new window. The model does not capture this: liveness is all the cache checks.
- `get_window_class` and `get_window_title` copy into a 1024-unit buffer. Their oracle yields the units the call wrote, whose number is the count it returned. Truncation to the buffer is the OS's doing and is not modelled.
- `Information.WrappingSubI32`: it models `i32` subtraction as it wraps in a release build. A debug build panics on that overflow instead, and that panic is not modelled.
- The library's other files (src/position_size.rs, src/top_most.rs, src/operation.rs, src/foreground.rs, src/class_title.rs, src/process.rs, src/exist.rs) are not part of this model. They are single OS calls, and the arithmetic they contain repeats the helpers of src/information.rs that are modelled.
- src/error.rs has no behaviour; its variants are the `Errors.Error` datatype. src/result.rs names a `WindowInspectorError` that src/error.rs does not define, and src/lib.rs holds only module declarations; neither is part of this model.
- src/exist.rs takes the handle as `usize` while src/find.rs passes an `isize`. The model uses one integer type for handles.
