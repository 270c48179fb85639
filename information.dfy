/** src/information.rs: the newer home of the lookup and its cache, and the
    per-handle queries (class, title, geometry, topmost state, foreground).

    Every OS call is an oracle parameter: `alive` is `IsWindow`, `findWindow`
    is `FindWindowW`, and each query receives the function standing for the
    one call it makes (`GetClassNameW`, `GetWindowRect`, ...). Window handles
    are unbounded integers; coordinates and style words are `i32`. */
module Information {
  import opened Errors
  import opened Utf16
  import Decimal
  import Find

  // ---------------------------------------------------------------------------
  // Handles
  // ---------------------------------------------------------------------------

  /** `get_window_handle`, a copy of `get_hwnd` from src/find.rs: the same
      rejection of an empty query, the same argument encoding, the same
      translation of 0 into `CannotFindWindow`. */
  function GetWindowHandle(windowClass: string, windowTitle: string,
                           findWindow: (Find.WideArg, Find.WideArg) -> int): (r: Result<int>)
    ensures r == Err(WindowClassTitleBothEmpty) <==> Find.BothEmpty(windowClass, windowTitle)
    ensures r == Err(CannotFindWindow(windowClass, windowTitle)) <==>
              !Find.BothEmpty(windowClass, windowTitle)
              && findWindow(Find.StrToPcwstr(windowClass), Find.StrToPcwstr(windowTitle)) == 0
    ensures r.Ok? ==>
              r.value != 0
              && r.value == findWindow(Find.StrToPcwstr(windowClass), Find.StrToPcwstr(windowTitle))
    ensures !Find.BothEmpty(windowClass, windowTitle)
            && findWindow(Find.StrToPcwstr(windowClass), Find.StrToPcwstr(windowTitle)) != 0 ==>
              r == Ok(findWindow(Find.StrToPcwstr(windowClass), Find.StrToPcwstr(windowTitle)))
  {
    if windowClass == [] && windowTitle == [] then Err(WindowClassTitleBothEmpty)
    else
      match findWindow(Find.StrToPcwstr(windowClass), Find.StrToPcwstr(windowTitle))
      case 0 => Err(CannotFindWindow(windowClass, windowTitle))
      case handle => Ok(handle)
  }

  /** The two copies of the lookup agree on every input. */
  lemma GetWindowHandleIsGetHwnd(windowClass: string, windowTitle: string,
                                 findWindow: (Find.WideArg, Find.WideArg) -> int)
    ensures GetWindowHandle(windowClass, windowTitle, findWindow)
            == Find.GetHwnd(windowClass, windowTitle, findWindow)
  {
  }

  /** The `WINDOW_HANDLE_CACHE` global, made an explicitly constructed object
      (its lock is not modelled). `finderCalls` counts the lookups it makes. */
  class WindowHandleCache {
    var entries: map<Find.Key, int>
    ghost var finderCalls: nat

    ghost predicate Valid()
      reads this
    {
      Find.CacheInvariant(entries)
    }

    constructor ()
      ensures Valid() && entries == map[] && finderCalls == 0
    {
      entries := map[];
      finderCalls := 0;
    }

    /** `get_window_handle_ref_cache`, with the behaviour of its twin in
        src/find.rs: reject an empty query, return a live cached handle, and
        otherwise drop the entry, look the window up with `get_window_handle`
        and cache what it finds.

        On a miss the source does not call `get_window_handle`: it calls
        `get_window_handle_ref_cache` itself, while still holding the lock on
        the map. That call cannot return normally: it blocks on (or panics at)
        the lock the caller holds, and even without the lock it would meet the
        same miss again and recurse without end (`RefCacheAsWritten` below). */
    method GetWindowHandleRefCache(windowClass: string, windowTitle: string,
                                   alive: int -> bool,
                                   findWindow: (Find.WideArg, Find.WideArg) -> int)
      returns (r: Result<int>)
      requires Valid()
      modifies this
      ensures Valid()
      ensures (r, entries) == Find.Resolve(old(entries), windowClass, windowTitle, alive, findWindow)
      ensures finderCalls == old(finderCalls)
                             + if Find.ConsultsFinder(old(entries), windowClass, windowTitle, alive) then 1 else 0
    {
      if windowClass == [] && windowTitle == [] {
        return Err(WindowClassTitleBothEmpty);
      }
      var key := (windowClass, windowTitle);
      if key in entries && alive(entries[key]) {
        r := Ok(entries[key]);
      } else {
        entries := entries - {key};
        r := GetWindowHandle(windowClass, windowTitle, findWindow);
        GetWindowHandleIsGetHwnd(windowClass, windowTitle, findWindow);
        finderCalls := finderCalls + 1;
        if r.Err? {
          return;
        }
        entries := entries[key := r.value];
      }
    }
  }

  /** `get_window_handle_ref_cache` as written, lock left aside: on a miss it
      removes the entry and calls itself. `fuel` bounds the depth of that
      recursion; `None` means that the bound was reached before any call
      returned. Note that it never consults `FindWindowW`. */
  function RefCacheAsWritten(fuel: nat, cache: map<Find.Key, int>,
                             windowClass: string, windowTitle: string,
                             alive: int -> bool): (out: Option<(Result<int>, map<Find.Key, int>)>)
    // the rejection and the hit path are those of src/find.rs
    ensures Find.BothEmpty(windowClass, windowTitle) ==>
              out == Some((Err(WindowClassTitleBothEmpty), cache))
    ensures !Find.BothEmpty(windowClass, windowTitle) && Find.IsHit(cache, windowClass, windowTitle, alive) ==>
              out == Some((Ok(cache[(windowClass, windowTitle)]), cache))
    decreases fuel
  {
    var key := (windowClass, windowTitle);
    if windowClass == [] && windowTitle == [] then Some((Err(WindowClassTitleBothEmpty), cache))
    else if key in cache && alive(cache[key]) then Some((Ok(cache[key]), cache))
    else if fuel == 0 then None
    else
      match RefCacheAsWritten(fuel - 1, cache - {key}, windowClass, windowTitle, alive)
      case None => None
      case Some((r, cache')) =>
        if r.Err? then Some((r, cache')) else Some((r, cache'[key := r.value]))
  }

  /** A query that misses the cache never gets an answer from the code as
      written, however deep the recursion may go; the intended method above
      answers it with the lookup's result. */
  lemma {:induction false} RefCacheAsWrittenMissDiverges(fuel: nat, cache: map<Find.Key, int>,
                                                         windowClass: string, windowTitle: string,
                                                         alive: int -> bool)
    requires Find.ConsultsFinder(cache, windowClass, windowTitle, alive)
    ensures RefCacheAsWritten(fuel, cache, windowClass, windowTitle, alive) == None
    decreases fuel
  {
    if fuel > 0 {
      var key := (windowClass, windowTitle);
      RefCacheAsWrittenMissDiverges(fuel - 1, cache - {key}, windowClass, windowTitle, alive);
    }
  }

  // ---------------------------------------------------------------------------
  // Foreground
  // ---------------------------------------------------------------------------

  /** `is_foreground`; `foreground` is what `GetForegroundWindow` returns. */
  function IsForeground(windowHandle: int, foreground: int): (r: bool)
    ensures r <==> windowHandle == foreground
  {
    windowHandle == foreground
  }

  // ---------------------------------------------------------------------------
  // Machine integers
  // ---------------------------------------------------------------------------

  type I32 = x: int | -0x8000_0000 <= x < 0x8000_0000
  type U32 = x: int | 0 <= x < 0x1_0000_0000

  const TwoTo32 := 0x1_0000_0000

  /** `i32` subtraction in a release build, which wraps. */
  function WrappingSubI32(a: I32, b: I32): (d: I32)
    ensures d % TwoTo32 == (a - b) % TwoTo32
  {
    var x := a - b;
    if x < -0x8000_0000 then x + TwoTo32
    else if x >= 0x8000_0000 then x - TwoTo32
    else x
  }

  /** `n as u32` for an `i32`: the same 32 bits, read without a sign. */
  function AsU32(n: I32): (u: U32)
    ensures n >= 0 ==> u == n
    ensures n < 0 ==> u == n + TwoTo32
  {
    n % TwoTo32
  }

  /** `(hi - lo) as u32`: the extent from `lo` to `hi`, modulo 2^32. */
  function Extent(lo: I32, hi: I32): (w: U32)
    ensures w == (hi - lo) % TwoTo32
    ensures lo <= hi ==> w == hi - lo
    ensures hi < lo ==> w == hi - lo + TwoTo32
  {
    AsU32(WrappingSubI32(hi, lo))
  }

  // ---------------------------------------------------------------------------
  // Rectangles
  // ---------------------------------------------------------------------------

  /** `RECT`, in screen coordinates. */
  datatype Rect = Rect(left: I32, top: I32, right: I32, bottom: I32)

  /** `POINT`. */
  datatype Point = Point(x: I32, y: I32)

  /** A Win32 call of the windows crate that returns `windows::core::Result`:
      success with what it wrote, or failure with its HRESULT. */
  datatype Win32<T> = Succeeded(value: T) | Failed(code: I32)

  /** (width, height) of a rectangle, as the queries compute them. */
  function RectToWh(rect: Rect): (wh: (U32, U32))
    ensures wh.0 == (rect.right - rect.left) % TwoTo32
    ensures wh.1 == (rect.bottom - rect.top) % TwoTo32
  {
    (Extent(rect.left, rect.right), Extent(rect.top, rect.bottom))
  }

  /** (x, y, width, height) of a rectangle: its top-left corner and extent. */
  function RectToXywh(rect: Rect): (xywh: (I32, I32, U32, U32))
    ensures xywh.0 == rect.left && xywh.1 == rect.top
    ensures (xywh.2, xywh.3) == RectToWh(rect)
    ensures rect.left <= rect.right ==> xywh.2 == rect.right - rect.left
    ensures rect.top <= rect.bottom ==> xywh.3 == rect.bottom - rect.top
  {
    (rect.left, rect.top, Extent(rect.left, rect.right), Extent(rect.top, rect.bottom))
  }

  /** A well-formed rectangle is recovered from its (x, y, width, height). */
  lemma XywhDeterminesRect(rect: Rect)
    requires rect.left <= rect.right && rect.top <= rect.bottom
    ensures var (x, y, w, h) := RectToXywh(rect);
            Rect(x, y, x + w, y + h) == rect
  {
  }

  // ---------------------------------------------------------------------------
  // Per-handle queries: each first makes sure the handle denotes a window
  // ---------------------------------------------------------------------------

  /** `format!("window handle: {}", window_handle)`. */
  function HandleMessage(windowHandle: int): (m: string)
    ensures |m| > 15 && m[..15] == "window handle: "
  {
    "window handle: " + Decimal.IntToString(windowHandle)
  }

  /** The message names the handle: distinct handles give distinct messages. */
  lemma HandleMessageNamesHandle(a: int, b: int)
    requires HandleMessage(a) == HandleMessage(b)
    ensures a == b
  {
    assert HandleMessage(a)[15..] == Decimal.IntToString(a);
    assert HandleMessage(b)[15..] == Decimal.IntToString(b);
    Decimal.ParseIntToString(a);
    Decimal.ParseIntToString(b);
  }

  /** The error of a Win32 call that failed on `windowHandle`. */
  function ApiFailed(apiName: string, windowHandle: int, code: Option<int>): Error {
    Win32ApiFailed(apiName, HandleMessage(windowHandle), code)
  }

  /** The text queries: `buffer` is what `GetClassNameW` or `GetWindowTextW`
      wrote into the 1024-unit buffer, its length the count the call returned;
      a count of 0 is a failure, anything else is decoded lossily. */
  function TextQuery(apiName: string, windowHandle: int, alive: int -> bool,
                     buffer: seq<U16>): (r: Result<string>)
    ensures !alive(windowHandle) ==> r == Err(WindowNotExist(windowHandle))
    ensures alive(windowHandle) && buffer == [] ==> r == Err(ApiFailed(apiName, windowHandle, None))
    ensures r.Ok? ==> alive(windowHandle) && |r.value| >= 1 && r.value == DecodeLossy(buffer)
    ensures alive(windowHandle) && buffer != [] ==> r == Ok(DecodeLossy(buffer))
  {
    if !alive(windowHandle) then Err(WindowNotExist(windowHandle))
    else if |buffer| == 0 then Err(ApiFailed(apiName, windowHandle, None))
    else Ok(DecodeLossy(buffer))
  }

  /** `get_window_class`. */
  function GetWindowClass(windowHandle: int, alive: int -> bool,
                          getClassName: int -> seq<U16>): (r: Result<string>)
    ensures !alive(windowHandle) ==> r == Err(WindowNotExist(windowHandle))
    ensures alive(windowHandle) && getClassName(windowHandle) == [] ==>
              r == Err(ApiFailed("GetClassNameW", windowHandle, None))
    ensures alive(windowHandle) && getClassName(windowHandle) != [] ==>
              r == Ok(DecodeLossy(getClassName(windowHandle)))
  {
    TextQuery("GetClassNameW", windowHandle, alive, getClassName(windowHandle))
  }

  /** `get_window_title`. A live window with an empty title makes
      `GetWindowTextW` return 0, so it is reported as that call's failure
      (buffer `[]`), not as `Ok("")`. */
  function GetWindowTitle(windowHandle: int, alive: int -> bool,
                          getWindowText: int -> seq<U16>): (r: Result<string>)
    ensures !alive(windowHandle) ==> r == Err(WindowNotExist(windowHandle))
    ensures alive(windowHandle) && getWindowText(windowHandle) == [] ==>
              r == Err(ApiFailed("GetWindowTextW", windowHandle, None))
    ensures alive(windowHandle) && getWindowText(windowHandle) != [] ==>
              r == Ok(DecodeLossy(getWindowText(windowHandle)))
  {
    TextQuery("GetWindowTextW", windowHandle, alive, getWindowText(windowHandle))
  }

  /** A live window whose class name and title the OS copies out in UTF-16 is
      reported with exactly that class name and title. */
  lemma TextQueriesReturnTheName(windowHandle: int, alive: int -> bool,
                                 getClassName: int -> seq<U16>, getWindowText: int -> seq<U16>,
                                 className: string, title: string)
    requires alive(windowHandle)
    requires className != [] && getClassName(windowHandle) == Encode(className)
    requires title != [] && getWindowText(windowHandle) == Encode(title)
    ensures GetWindowClass(windowHandle, alive, getClassName) == Ok(className)
    ensures GetWindowTitle(windowHandle, alive, getWindowText) == Ok(title)
  {
    DecodeEncode(className);
    DecodeEncode(title);
  }

  /** The two window-rectangle queries: a rectangle from `apiName`, reported as
      (x, y, width, height). */
  function RectQuery(apiName: string, windowHandle: int, alive: int -> bool,
                     call: Win32<Rect>): (r: Result<(I32, I32, U32, U32)>)
    ensures !alive(windowHandle) ==> r == Err(WindowNotExist(windowHandle))
    ensures alive(windowHandle) && call.Failed? ==>
              r == Err(ApiFailed(apiName, windowHandle, Some(call.code)))
    ensures r.Ok? ==> alive(windowHandle) && call.Succeeded? && r.value == RectToXywh(call.value)
    ensures alive(windowHandle) && call.Succeeded? ==> r == Ok(RectToXywh(call.value))
  {
    if !alive(windowHandle) then Err(WindowNotExist(windowHandle))
    else
      match call
      case Succeeded(rect) => Ok(RectToXywh(rect))
      case Failed(code) => Err(ApiFailed(apiName, windowHandle, Some(code)))
  }

  /** `get_window_xywh_include_shadow`, from `GetWindowRect`. */
  function GetWindowXywhIncludeShadow(windowHandle: int, alive: int -> bool,
                                      getWindowRect: int -> Win32<Rect>)
    : (r: Result<(I32, I32, U32, U32)>)
    ensures !alive(windowHandle) ==> r == Err(WindowNotExist(windowHandle))
    ensures r.Ok? <==> alive(windowHandle) && getWindowRect(windowHandle).Succeeded?
    ensures r.Ok? ==> r.value == RectToXywh(getWindowRect(windowHandle).value)
    ensures alive(windowHandle) && getWindowRect(windowHandle).Failed? ==>
              r == Err(ApiFailed("GetWindowRect", windowHandle, Some(getWindowRect(windowHandle).code)))
  {
    RectQuery("GetWindowRect", windowHandle, alive, getWindowRect(windowHandle))
  }

  /** `get_window_xywh_exclude_shadow`, from the `DWMWA_EXTENDED_FRAME_BOUNDS`
      attribute of `DwmGetWindowAttribute`. */
  function GetWindowXywhExcludeShadow(windowHandle: int, alive: int -> bool,
                                      extendedFrameBounds: int -> Win32<Rect>)
    : (r: Result<(I32, I32, U32, U32)>)
    ensures !alive(windowHandle) ==> r == Err(WindowNotExist(windowHandle))
    ensures r.Ok? <==> alive(windowHandle) && extendedFrameBounds(windowHandle).Succeeded?
    ensures r.Ok? ==> r.value == RectToXywh(extendedFrameBounds(windowHandle).value)
    ensures alive(windowHandle) && extendedFrameBounds(windowHandle).Failed? ==>
              r == Err(ApiFailed("DwmGetWindowAttribute", windowHandle,
                                 Some(extendedFrameBounds(windowHandle).code)))
  {
    RectQuery("DwmGetWindowAttribute", windowHandle, alive, extendedFrameBounds(windowHandle))
  }

  /** `get_client_xy`: `clientToScreen` is the point `ClientToScreen` leaves in
      the buffer that started as (0, 0); the call's own verdict is ignored. */
  function GetClientXy(windowHandle: int, alive: int -> bool,
                       clientToScreen: int -> Point): (r: Result<(I32, I32)>)
    ensures !alive(windowHandle) ==> r == Err(WindowNotExist(windowHandle))
    ensures alive(windowHandle) ==>
              r == Ok((clientToScreen(windowHandle).x, clientToScreen(windowHandle).y))
  {
    if !alive(windowHandle) then Err(WindowNotExist(windowHandle))
    else
      var point := clientToScreen(windowHandle);
      Ok((point.x, point.y))
  }

  /** `get_client_wh`, from `GetClientRect`. */
  function GetClientWh(windowHandle: int, alive: int -> bool,
                       getClientRect: int -> Win32<Rect>): (r: Result<(U32, U32)>)
    ensures !alive(windowHandle) ==> r == Err(WindowNotExist(windowHandle))
    ensures r.Ok? <==> alive(windowHandle) && getClientRect(windowHandle).Succeeded?
    ensures r.Ok? ==> r.value == RectToWh(getClientRect(windowHandle).value)
    ensures alive(windowHandle) && getClientRect(windowHandle).Failed? ==>
              r == Err(ApiFailed("GetClientRect", windowHandle, Some(getClientRect(windowHandle).code)))
  {
    if !alive(windowHandle) then Err(WindowNotExist(windowHandle))
    else
      match getClientRect(windowHandle)
      case Succeeded(rect) => Ok(RectToWh(rect))
      case Failed(code) => Err(ApiFailed("GetClientRect", windowHandle, Some(code)))
  }

  /** `get_client_xywh`: the corner, then the size, the first error winning. */
  function GetClientXywh(windowHandle: int, alive: int -> bool,
                         clientToScreen: int -> Point, getClientRect: int -> Win32<Rect>)
    : (r: Result<(I32, I32, U32, U32)>)
    ensures !alive(windowHandle) ==> r == Err(WindowNotExist(windowHandle))
    ensures r.Ok? <==> alive(windowHandle) && getClientRect(windowHandle).Succeeded?
    ensures r.Ok? ==>
              var wh := RectToWh(getClientRect(windowHandle).value);
              r.value == (clientToScreen(windowHandle).x, clientToScreen(windowHandle).y, wh.0, wh.1)
    ensures alive(windowHandle) && getClientRect(windowHandle).Failed? ==>
              r == Err(ApiFailed("GetClientRect", windowHandle, Some(getClientRect(windowHandle).code)))
  {
    match GetClientXy(windowHandle, alive, clientToScreen)
    case Err(e) => Err(e)
    case Ok((x, y)) =>
      match GetClientWh(windowHandle, alive, getClientRect)
      case Err(e) => Err(e)
      case Ok((width, height)) => Ok((x, y, width, height))
  }

  // ---------------------------------------------------------------------------
  // Topmost
  // ---------------------------------------------------------------------------

  /** `WS_EX_TOPMOST`, bit 3 of the extended window style. */
  const WsExTopmost: bv32 := 0x8

  /** `(n as u32 & WS_EX_TOPMOST.0) != 0`. */
  function HasTopmostBit(style: I32): (b: bool)
    ensures b <==> (AsU32(style) / 8) % 2 == 1
  {
    (AsU32(style) as bv32) & WsExTopmost != 0
  }

  /** `get_window_top_most`: `exStyle` is what `GetWindowLongW(GWL_EXSTYLE)`
      returns. A style word of 0 is taken for the call's failure, so a live
      window whose extended style is really 0 is reported as an error, not as
      "not topmost". */
  function GetWindowTopMost(windowHandle: int, alive: int -> bool,
                            exStyle: int -> I32): (r: Result<bool>)
    ensures !alive(windowHandle) ==> r == Err(WindowNotExist(windowHandle))
    ensures alive(windowHandle) ==>
              (r.Err? <==> exStyle(windowHandle) == 0)
    ensures alive(windowHandle) && exStyle(windowHandle) == 0 ==>
              r == Err(ApiFailed("GetWindowLongW", windowHandle, None))
    ensures r.Ok? ==> (r.value <==> (AsU32(exStyle(windowHandle)) / 8) % 2 == 1)
  {
    if !alive(windowHandle) then Err(WindowNotExist(windowHandle))
    else
      match exStyle(windowHandle)
      case 0 => Err(ApiFailed("GetWindowLongW", windowHandle, None))
      case n => Ok(HasTopmostBit(n))
  }

  /** The existence guard: every per-handle query answers `WindowNotExist` for a
      handle that denotes no window, whatever the other OS calls would say. */
  lemma DeadHandleIsRejectedFirst(windowHandle: int, alive: int -> bool,
                                  getClassName: int -> seq<U16>, getWindowText: int -> seq<U16>,
                                  getWindowRect: int -> Win32<Rect>,
                                  extendedFrameBounds: int -> Win32<Rect>,
                                  clientToScreen: int -> Point, getClientRect: int -> Win32<Rect>,
                                  exStyle: int -> I32)
    requires !alive(windowHandle)
    ensures var e := WindowNotExist(windowHandle);
            && GetWindowClass(windowHandle, alive, getClassName) == Err(e)
            && GetWindowTitle(windowHandle, alive, getWindowText) == Err(e)
            && GetWindowXywhIncludeShadow(windowHandle, alive, getWindowRect) == Err(e)
            && GetWindowXywhExcludeShadow(windowHandle, alive, extendedFrameBounds) == Err(e)
            && GetClientXy(windowHandle, alive, clientToScreen) == Err(e)
            && GetClientWh(windowHandle, alive, getClientRect) == Err(e)
            && GetClientXywh(windowHandle, alive, clientToScreen, getClientRect) == Err(e)
            && GetWindowTopMost(windowHandle, alive, exStyle) == Err(e)
  {
  }
}
