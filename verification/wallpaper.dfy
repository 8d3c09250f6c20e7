/** `WallpaperService`: the persisted `wallpaper_path` option and one
    layer window per monitor, over an abstract environment: the fixed cache
    path, whether the cache file exists, and what the monitor lookup
    returns for each index below the monitor count. */
module Wallpaper {
  import opened Wrappers

  /** The width and height of a monitor's geometry. */
  datatype Geometry = Geometry(width: int, height: int)

  /** A `WallpaperLayerWindow`: the monitor index it was created for, its
      size, the image it shows, and whether it is still realized. */
  datatype Window = Window(monitor: nat, width: int, height: int, path: string, realized: bool)

  /** What `shutil.copy(value, CACHE_WALLPAPER_PATH)` did. */
  datatype CopyOutcome = Copied | SameFile

  /** The system as the service sees it; `monitors[i]` is `None` when
      `Utils.get_monitor(i)` returns a falsy value. */
  datatype Env = Env(cachePath: string, cacheExists: bool, monitors: seq<Option<Geometry>>)

  /** The service: the `wallpaper_path` option and `_windows`. */
  datatype Service = Service(option: Option<string>, windows: seq<Window>)

  /** Every listed window shows the cached copy. */
  predicate ShowsCache(s: Service, cachePath: string) {
    forall w :: w in s.windows ==> w.path == cachePath
  }

  /** The `wallpaper` getter. */
  function Get(s: Service): (r: Option<string>)
    ensures r.Some? <==> s.option.Some?
    ensures r.Some? ==> r.value == s.option.value
  {
    s.option
  }

  /** The index of the first monitor that does not resolve, or the monitor
      count when all of them do. */
  function FirstMissing(ms: seq<Option<Geometry>>): (k: nat)
    ensures k <= |ms|
    ensures forall i :: 0 <= i < k ==> ms[i].Some?
    ensures k < |ms| ==> ms[k].None?
  {
    if ms == [] || ms[0].None? then 0 else 1 + FirstMissing(ms[1..])
  }

  /** The loop over monitor ids from `i` on: one realized window per monitor,
      until a monitor fails to resolve. */
  function WindowsFrom(ms: seq<Option<Geometry>>, i: nat, path: string): (r: seq<Window>)
    requires i <= FirstMissing(ms)
    ensures |r| == FirstMissing(ms) - i
    ensures forall j :: 0 <= j < |r| ==>
              r[j] == Window(i + j, ms[i + j].value.width, ms[i + j].value.height, path, true)
    decreases |ms| - i
  {
    if i == |ms| || ms[i].None? then []
    else [Window(i, ms[i].value.width, ms[i].value.height, path, true)] + WindowsFrom(ms, i + 1, path)
  }

  /** `__sync`: every listed window is unrealized first. With the cache file
      missing the list is left as it is (all unrealized); otherwise it is
      replaced by one window per resolving monitor, stopping silently at the
      first monitor that does not resolve. */
  function Sync(s: Service, env: Env): (r: Service)
    ensures r.option == s.option
    ensures !env.cacheExists ==> |r.windows| == |s.windows|
    ensures !env.cacheExists ==> forall i :: 0 <= i < |r.windows| ==>
              r.windows[i] == s.windows[i].(realized := false)
    ensures env.cacheExists ==> |r.windows| == FirstMissing(env.monitors)
    ensures env.cacheExists ==> forall i :: 0 <= i < |r.windows| ==>
              && env.monitors[i].Some?
              && r.windows[i] == Window(i, env.monitors[i].value.width, env.monitors[i].value.height, env.cachePath, true)
    ensures env.cacheExists ==> ShowsCache(r, env.cachePath)
    ensures ShowsCache(s, env.cachePath) ==> ShowsCache(r, env.cachePath)
  {
    var unrealized := seq(|s.windows|, i requires 0 <= i < |s.windows| => s.windows[i].(realized := false));
    if !env.cacheExists then
      s.(windows := unrealized)
    else
      s.(windows := WindowsFrom(env.monitors, 0, env.cachePath))
  }

  /** The `wallpaper` setter. When the copy reports `SameFileError` nothing
      happens; otherwise the option takes `value` and `__sync` runs. */
  function Set(s: Service, value: string, copy: CopyOutcome, env: Env): (r: Service)
    ensures copy == SameFile ==> r == s
    ensures copy == Copied ==> Get(r) == Some(value)
    ensures copy == Copied && env.cacheExists ==> |r.windows| == FirstMissing(env.monitors)
    ensures copy == Copied && env.cacheExists ==> forall i :: 0 <= i < |r.windows| ==>
              && env.monitors[i].Some?
              && r.windows[i] == Window(i, env.monitors[i].value.width, env.monitors[i].value.height, env.cachePath, true)
    ensures copy == Copied && !env.cacheExists ==>
              |r.windows| == |s.windows| && forall w :: w in r.windows ==> !w.realized
    ensures ShowsCache(s, env.cachePath) ==> ShowsCache(r, env.cachePath)
    ensures ShowsCache(s, env.cachePath) && value != env.cachePath ==>
              forall w :: w in r.windows ==> w.path != value
  {
    match copy
    case SameFile => s
    case Copied => Sync(s.(option := Some(value)), env)
  }

  /** `__init__`: the option keeps a stored value (default `None`), the
      window list starts empty, and `__sync` runs; a missing cache file
      leaves no window at all. */
  function Init(stored: Option<string>, env: Env): (r: Service)
    ensures Get(r) == stored
    ensures !env.cacheExists ==> r.windows == []
    ensures env.cacheExists ==> |r.windows| == FirstMissing(env.monitors)
    ensures env.cacheExists ==> forall i :: 0 <= i < |r.windows| ==>
              && env.monitors[i].Some?
              && r.windows[i] == Window(i, env.monitors[i].value.width, env.monitors[i].value.height, env.cachePath, true)
    ensures ShowsCache(r, env.cachePath)
  {
    Sync(Service(stored, []), env)
  }

  /** With the cache file present and every monitor resolving, there is one
      window per monitor, sized to it. */
  lemma SyncAllMonitors(s: Service, env: Env)
    requires env.cacheExists
    requires forall i :: 0 <= i < |env.monitors| ==> env.monitors[i].Some?
    ensures |Sync(s, env).windows| == |env.monitors|
    ensures forall i :: 0 <= i < |env.monitors| ==>
              Sync(s, env).windows[i].monitor == i &&
              Sync(s, env).windows[i].width == env.monitors[i].value.width &&
              Sync(s, env).windows[i].height == env.monitors[i].value.height
  {
  }

  /** When monitor `k` is the first that does not resolve, exactly the
      windows of monitors `0..k-1` are kept, without error. */
  lemma SyncPartial(s: Service, env: Env, k: nat)
    requires env.cacheExists
    requires k < |env.monitors| && env.monitors[k].None?
    requires forall i :: 0 <= i < k ==> env.monitors[i].Some?
    ensures |Sync(s, env).windows| == k
    ensures forall i :: 0 <= i < k ==> Sync(s, env).windows[i].monitor == i
  {
    var m := FirstMissing(env.monitors);
    if m < k {
      assert env.monitors[m].None?;
    }
  }

  /** Running `__sync` twice in a row gives the same state as once. */
  lemma SyncIdempotent(s: Service, env: Env)
    ensures Sync(Sync(s, env), env) == Sync(s, env)
  {
  }
}
