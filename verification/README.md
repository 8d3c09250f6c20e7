# ignis services: pinned applications, wallpaper, system-tray icons

A Dafny model of three pieces of sequential logic from the ignis desktop
shell's services:

- **`ApplicationsService`** (`applications.dfy`, built on `app_dict.dfy`,
  `app_sort.dfy` and `text.dfy`). The service keeps two insertion-ordered
  dicts, `_apps` (every visible application) and `_pinned` (the user's pins),
  and the persisted `pinned_apps` option. A Python dict whose keys are always
  the values' `id` is modelled as the sequence of its values with pairwise
  distinct ids (`AppDict`). Re-inserting a key keeps its position (`Put`).
  `pop` of a missing key is a `KeyError` result (`Pop`). The system is an
  environment value. It holds the `Gio.AppInfo.get_all()` snapshot as
  `(id, name, nodisplay, isDesktop)` items. It also holds a resolver that
  says, per persisted id, whether `Gio.DesktopAppInfo.new` yields an app,
  raises `TypeError`, or returns something falsy. `__sync`, `__add_app`,
  `__read_pinned_apps`, `apps`, `pinned`, `search`, `__sync_pinned`,
  `__pin_entry` and `__unpin_entry` are pure functions over the state record
  `Service(apps, pinned, persisted)`.
- **`WallpaperService`** (`wallpaper.dfy`). The state is the `wallpaper_path`
  option plus the window list. Each window records its monitor index, its
  size, the image path and whether it is realized. The environment holds the
  cache path, whether the cache file exists, and per monitor index either a
  geometry or `None`. The outcome of `shutil.copy` (copied, or
  `SameFileError`) is a parameter of the setter.
- **`SystemTrayItem`** (`tray_pixmap.dfy`, `tray_item.dfy`). This covers
  three things:
  - `__get_pixbuf`: the widest pixmap is chosen, and its ARGB32 pixels are
    rotated in place into RGBA. The rotation is an imperative loop that updates
    a copy of the bytes one byte at a time, proved against a pure definition and against its inverse.
  - The icon priority of `__sync_icon` and the `tooltip` fallback.
  - The mapping from a `New*` signal name to the notified property name.
  The ARGB32 layout is the one the `IconPixmap` property of the
  freedesktop.org StatusNotifierItem specification prescribes.

Behaviour of the source worth noting:

- `__read_pinned_apps` inserts resolved pins into `_pinned` only; `_apps`
  is filled from the snapshot alone.
- In the pinned-read loop an id whose lookup raises `TypeError` is skipped,
  and the first id whose lookup is falsy ends the whole read (`return`).
- When the wallpaper cache file is missing, `__sync` leaves the previous
  window list in place with every window unrealized. Only a service that
  starts with an empty list ends up with no windows.
- For each result group, `search` walks the whole name-sorted `apps` list.
  Hits are therefore grouped by result group and sorted by name within a
  group, and an app listed by k groups appears k times.

## Model

| member | source | states |
|---|---|---|
| AppDict.Put | ignis/services/applications/service.py:113-114 | `d[e.id] = e` keeps the keys distinct. A new id is appended to the keys. An existing id keeps its position and only its value becomes `e`. Every other entry is unchanged. |
| AppDict.Pop | ignis/services/applications/service.py:117-118 | `pop` fails with `KeyError(id)` exactly when `id` is no key. Otherwise the result has one key fewer, the keys are the old keys with `id` filtered out in the same order, and the entries are exactly the old ones whose id differs. |
| AppDict.PutAll | ignis/services/applications/service.py:86-89 | Repeated `d[e.id] = e` gives distinct keys in first-occurrence order of the inserted ids. Each surviving value is the last inserted entry with its id, or an untouched earlier entry. |
| AppDict.PutAllFresh | ignis/services/applications/service.py:86-89 | Starting from an empty dict, the keys are the distinct inserted ids in first-seen order. Every value is the last entry inserted under its id. |
| AppSort.SortByName | ignis/services/applications/service.py:44-45 | `sorted(..., key=name)` returns a permutation (same multiset) of its input, ascending under Python's code-point string order. |
| AppSort.SortStable | ignis/services/applications/service.py:44-45 | The sort is stable: for every name, the entries with that name appear in the same relative order as in `_apps`. |
| Text.LeTotal | ignis/services/applications/service.py:45 | Python's string order is total, which is what makes the sorted `apps` list well defined. |
| Text.LeTrans | ignis/services/applications/service.py:45 | Python's string order is transitive. |
| Applications.Admitted | ignis/services/applications/service.py:79-85 | The infos the pinned-read loop reaches are no more than the persisted ids. |
| Applications.FirstFalsy | ignis/services/applications/service.py:79-85 | The position where the pinned-read loop returns: no lookup before it is falsy, and the lookup at it (if any) is. |
| Applications.AdmittedExactly | ignis/services/applications/service.py:79-85 | An info is admitted exactly when some id before the first falsy lookup resolves to it. |
| Applications.AdmittedSkipsTypeError | ignis/services/applications/service.py:80-83 | An id whose lookup raises `TypeError` can be deleted from the persisted list without changing what is read: the loop continues past it. |
| Applications.AdmittedStopsAtFalsy | ignis/services/applications/service.py:84-85 | When an id resolves to a falsy value, everything persisted after it is ignored: the read equals the read of the ids before it. |
| Applications.ReadPinned | ignis/services/applications/service.py:78-89 | The read `_pinned` has distinct ids and every entry is flagged pinned. Its keys are the ids of the admitted apps in first-occurrence order. Each entry comes from the last admitted app with its id. |
| Applications.ReadPinnedRoundTrip | ignis/services/applications/service.py:78-89 | A persisted list of distinct ids that each resolve to an app with that id is read back as exactly that id list. |
| Applications.Shown | ignis/services/applications/service.py:59-68 | The apps handed to `__add_app` and kept are exactly the snapshot items that are `DesktopAppInfo` and not `nodisplay`. |
| Applications.LastVisible | ignis/services/applications/service.py:66-76 | The snapshot item whose entry survives for an id is a visible item with that id. There is none exactly when no visible item carries the id. |
| Applications.BuildApps | ignis/services/applications/service.py:59-61 | `_apps` has distinct ids. Every visible snapshot id is a key. Each entry carries the name of the last visible item with its id. An entry is flagged pinned iff its id is a key of `_pinned`. The keys are the visible snapshot ids in first-occurrence order. |
| Applications.Sync | ignis/services/applications/service.py:55-64 | `__sync` rebuilds both dicts with distinct keys and leaves the option as it was. `_pinned` is what the persisted list reads as. Every `_apps` entry comes from a visible snapshot item and is pinned iff its id is pinned. Every visible id is present, and the keys of `_apps` are the visible snapshot ids in first-occurrence order. |
| Applications.SyncIdempotent | ignis/services/applications/service.py:55-58 | Both dicts are reset before rebuilding, so running `__sync` twice in a row gives the same state as running it once. |
| Applications.SyncSkipsHidden | ignis/services/applications/service.py:59-68 | An id carried only by hidden or non-desktop items never becomes a key of `_apps`. |
| Applications.SyncPinnedOutsideSnapshot | ignis/services/applications/service.py:70-76 | A pinned id that no visible app carries stays in `_pinned` only and does not enter `_apps`. |
| Applications.Init | ignis/services/applications/service.py:29-41 | Construction keeps a stored `pinned_apps` value or defaults it to `[]`. `_pinned` is what that list reads as. `_apps` holds the visible snapshot ids in first-occurrence order, each from the last visible item with its id and pinned iff its id is pinned. |
| Applications.Apps | ignis/services/applications/service.py:43-45 | `apps` holds exactly the values of `_apps`, as a permutation, ascending by name. |
| Applications.Pinned | ignis/services/applications/service.py:47-49 | The `pinned` property lists the keys of `_pinned` in insertion order, each once. `Applications.PinEntry`, `Applications.UnpinEntry` and `Applications.SyncPinned` write the option from this list. |
| Applications.Matches | ignis/services/applications/service.py:104-105 | One result group selects exactly the entries whose id the group lists. |
| Applications.MatchesSorted | ignis/services/applications/service.py:101-106 | Within a result group, hits keep the name order of `apps`. |
| Applications.SearchIn | ignis/services/applications/service.py:101-106 | Every hit is an entry of the list being searched. |
| Applications.Search | ignis/services/applications/service.py:91-106 | Every entry `search` returns is an element of `apps` and of `_apps`. |
| Applications.SearchConcat | ignis/services/applications/service.py:101-106 | The hits of earlier result groups come before those of later groups. |
| Applications.SearchOneGroup | ignis/services/applications/service.py:101-106 | One group's hits are sorted by name and are exactly the registry apps whose id the group lists. |
| Applications.SearchMultiplicity | ignis/services/applications/service.py:101-106 | A registry app appears in the result as many times as there are result groups listing its id. |
| Applications.SyncPinned | ignis/services/applications/service.py:108-111 | After `__sync_pinned` the option equals the ids of `pinned`, in order, and both dicts are unchanged. |
| Applications.PinEntry | ignis/services/applications/service.py:113-115 | Pinning keeps `_apps` untouched and keeps the pinned ids distinct, and the option equals the pinned ids. The entry is pinned at its old position if its id was pinned, else appended. All other pins are unchanged. |
| Applications.UnpinEntry | ignis/services/applications/service.py:117-119 | Unpinning an id that is not pinned raises `KeyError`. Otherwise the id is gone, the other pins keep their relative order, `_apps` is untouched, and the option equals the remaining pinned ids. |
| Applications.PinThenUnpin | ignis/services/applications/service.py:113-119 | Pinning a new id and then unpinning it gives back the previous pins, with the option rewritten from them. |
| Applications.PinSurvivesRestart | ignis/services/applications/service.py:108-115 | Starting from an empty option, pinning `app.Foo` persists `["app.Foo"]`. A fresh service on that option lists exactly one pinned `app.Foo`, as long as the id still resolves. |
| Wallpaper.FirstMissing | ignis/services/wallpaper/service.py:67-70 | The index where window creation stops: every monitor before it resolves, and the monitor at it (if any) does not. |
| Wallpaper.WindowsFrom | ignis/services/wallpaper/service.py:67-79 | The monitor loop creates one realized window per monitor up to the first unresolved one. Window j belongs to monitor j, has its width and height, and shows the given path. |
| Wallpaper.Sync | ignis/services/wallpaper/service.py:58-79 | `__sync` never touches the option. With the cache file missing, the old list stays in place with every window unrealized. Otherwise the list is exactly the windows of the monitors before the first unresolved one, each sized to its monitor and showing the cache path. |
| Wallpaper.Get | ignis/services/wallpaper/service.py:44-46 | The getter returns the stored option: `None` until a path is stored, otherwise the stored path. `Wallpaper.Set` and `Wallpaper.Init` state what it returns after each. |
| Wallpaper.Set | ignis/services/wallpaper/service.py:48-56 | On `SameFileError` the state is unchanged. Otherwise the getter returns the new value. With the cache present there is exactly one realized window per monitor before the first unresolved one, each sized to its monitor and showing the cache path. If the cache file is missing, the old windows remain, unrealized. |
| Wallpaper.Init | ignis/services/wallpaper/service.py:33-42 | Construction keeps the stored path, starts with no windows and syncs. With the cache file missing, there are no windows at all. With it present, there is one realized window per monitor before the first unresolved one, sized to it. |
| Wallpaper.SyncAllMonitors | ignis/services/wallpaper/service.py:65-79 | With the cache present and all n monitors resolving, there are exactly n windows. Window i belongs to monitor i and has its size. |
| Wallpaper.SyncPartial | ignis/services/wallpaper/service.py:67-70 | If monitor k is the first that does not resolve, exactly the windows of monitors 0..k-1 are kept, and no error is raised. |
| Wallpaper.SyncIdempotent | ignis/services/wallpaper/service.py:58-79 | Running `__sync` twice in a row gives the same state as running it once. |
| TrayPixmap.WidestIndex | ignis/services/system_tray/item.py:210 | The chosen pixmap has maximal width. Every later entry is strictly narrower, so among equally wide entries it is the last in input order, as the stable sort's last element is. |
| TrayPixmap.PixelCount | ignis/services/system_tray/item.py:213 | `range(0, 4*w*h, 4)` visits `w*h` pixels when that product is positive, and none otherwise. |
| TrayPixmap.ToRgba | ignis/services/system_tray/item.py:213-218 | Each of the first n pixels is rotated left from ARGB to RGBA. The length is kept, and every byte after the first n pixels is unchanged. |
| TrayPixmap.ToArgb | ignis/services/system_tray/item.py:213-218 | The inverse rotation, RGBA back to ARGB, with the same length and tail guarantees. |
| TrayPixmap.ArgbRoundTrip | ignis/services/system_tray/item.py:213-218 | Converting ARGB to RGBA and back restores the original buffer. |
| TrayPixmap.RgbaRoundTrip | ignis/services/system_tray/item.py:213-218 | Converting RGBA to ARGB and back restores the original buffer. |
| TrayPixmap.RotatePixels | ignis/services/system_tray/item.py:211-218 | The in-place loop over a copy of the bytes computes exactly the RGBA conversion of the first n pixels. |
| TrayPixmap.ConvertPixels | ignis/services/system_tray/item.py:211-218 | Given at least `4*w*h` bytes, output bytes `4p..4p+3` equal input bytes `4p+1, 4p+2, 4p+3, 4p` for every visited pixel p. The length is kept, and every later byte is unchanged. |
| TrayPixmap.GetPixbuf | ignis/services/system_tray/item.py:209-228 | `__get_pixbuf` raises `IndexError` exactly when the widest pixmap's buffer is shorter than `4*w*h`. Otherwise the pixbuf is at least as wide as every entry and has that pixmap's size and length. Its rowstride is `4*width`, and its bytes convert back to the pixmap's ARGB data. |
| TrayItem.FirstSet | ignis/services/system_tray/item.py:85-100 | The first set source of a priority list is a set member of the list. When there is none, no listed source is set. |
| TrayItem.FirstSetInPriority | ignis/services/system_tray/item.py:85-100 | The priority is: non-empty `IconName`, then `AttentionIconName`, then a non-empty `IconPixmap`, then `AttentionIconPixmap`. |
| TrayItem.SyncIcon | ignis/services/system_tray/item.py:78-100 | The icon comes from the first set source in priority order, or is `"image-missing"` when none is set. A theme search path is added iff `IconName` was chosen, the theme lacks it and `IconThemePath` is not None, and then it is that path. |
| TrayItem.Tooltip | ignis/services/system_tray/item.py:199-207 | With no D-Bus tooltip the item's title is returned. Otherwise the tooltip's title field is returned, even when it is empty. |
| TrayItem.SignalProperty | ignis/services/system_tray/item.py:52-61 | The notified property name is no longer than the signal name and has no upper-case letters. |
| TrayItem.SignalPropertyOfNew | ignis/services/system_tray/item.py:60 | For `"New"` followed by a name free of `"New"`, the property is that name lower-cased. |
| TrayItem.TitleSignal | ignis/services/system_tray/item.py:52-61 | `NewTitle` notifies `title`. |
| TrayItem.ToolTipSignal | ignis/services/system_tray/item.py:52-61 | `NewToolTip` notifies `tooltip`. |
| TrayItem.StatusSignal | ignis/services/system_tray/item.py:52-61 | `NewStatus` notifies `status`. |
| Text.RemoveAll | ignis/services/system_tray/item.py:60 | `str.replace(pat, "")` never lengthens the string and only drops characters of it. |
| Text.RemoveAllAbsent | ignis/services/system_tray/item.py:60 | Without an occurrence of the pattern, the replacement changes nothing. |
| Text.Lower | ignis/services/system_tray/item.py:60 | `lower()` keeps the length and lowers each ASCII capital, leaving other characters alone. |

## Left out

- GObject notifications (`notify("apps")`, `notify("pinned")`, `notify("icon")`, the tray's `notify` of the property name), signal connections, the `removed` and `ready` signals, and `Utils.thread` / `run_in_thread`. These are event plumbing and threads. Only the property name a signal notifies is modelled.
- The `Application` class (`ignis/services/applications/application.py`) is not part of this model. Its entries are reduced to `(id, name, isPinned)`. Object identity between the `_apps` and `_pinned` entries is not modelled, and neither is any flag the class flips when `pin()`/`unpin()` are called on it.
- The option group and option names (`options.py`), `CACHE_WALLPAPER_PATH` (`constants.py`) and `WallpaperLayerWindow` (`window.py`) are not part of this model. The options are state fields, and the cache path is an environment value. A newly constructed window is taken to be realized.
- Desktop-entry parsing, `Gio.DesktopAppInfo.search` matching and `Gio.AppInfoMonitor` are left out. Search results are an input `seq<seq<string>>`, and the snapshot is an input sequence.
- `shutil.copy`, `os.path.isfile`, GDK monitor queries, window rendering and `GdkPixbuf` construction are left out. They are an outcome parameter, a flag, a monitor list and the descriptors and bytes they receive. Exceptions of `shutil.copy` other than `SameFileError`, and GdkPixbuf errors for non-positive sizes, are not modelled.
- `Wallpaper.Sync`: calls `unrealize()` on windows that are then dropped from the list. Only the windows that stay in the list show that they were unrealized.
- D-Bus proxying, the `Menu` object, and the `activate`, `secondary_activate`, `context_menu` and `scroll` calls are foreign I/O. So are the `id`, `category`, `title`, `status`, `window_id` and `item_is_menu` properties, which only forward D-Bus values.
- `ignis/services/bluetooth/device.py` forwards properties and makes an asynchronous call; it has no logic of its own.
- `Text.Lower`: handles ASCII capitals only, not Unicode case mapping. The signal names it is applied to are ASCII.
- `TrayItem.Tooltip`: a D-Bus tooltip that is present but falsy (an empty tuple) is folded into "absent", since the `(sa(iiay)ss)` signature always carries four fields.
- `TrayPixmap.ConvertPixels`: requires at least `4*w*h` bytes, which the loop's indexing demands. The short-buffer `IndexError` is modelled in `TrayPixmap.GetPixbuf`.
- `Wallpaper.Set`: the copy outcome and the cache flag are independent inputs. In the source a successful copy creates the cache file, so `Copied` with the cache missing only happens if the file disappears before `__sync` checks it.
- Monitor hot-plug: the service does not re-sync on it, and neither does the model.
