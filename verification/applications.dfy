/** `ApplicationsService`: the registry of visible applications (`_apps`),
    the user's pins (`_pinned`) and the persisted `pinned_apps` option,
    over an abstract environment: the `Gio.AppInfo.get_all()` snapshot and
    the outcome of `Gio.DesktopAppInfo.new(desktop_id=...)` per id. */
module Applications {
  import opened Wrappers
  import opened AppDict
  import opened AppSort

  /** One item of the application snapshot. `isDesktop` says whether it is
      a `Gio.DesktopAppInfo`; `nodisplay` is `get_nodisplay()`. */
  datatype AppInfo = AppInfo(id: string, name: string, nodisplay: bool, isDesktop: bool)

  /** What looking up a persisted id does: yield an app info, raise
      `TypeError`, or return a falsy value. */
  datatype Resolution = Resolved(info: AppInfo) | TypeErr | Falsy

  /** Everything the service reads from the system. */
  datatype Env = Env(snapshot: seq<AppInfo>, resolve: string -> Resolution)

  /** The service: `_apps`, `_pinned` and the `pinned_apps` option. */
  datatype Service = Service(apps: seq<Application>, pinned: seq<Application>, persisted: seq<string>)

  /** Both dicts hold each key once. */
  predicate Valid(s: Service) {
    UniqueIds(s.apps) && UniqueIds(s.pinned)
  }

  // ---------------------------------------------------------------------
  // __read_pinned_apps

  /** The infos the pinned-read loop gets to insert: ids whose lookup raises
      `TypeError` are skipped, and the first falsy lookup ends the loop. */
  function Admitted(ids: seq<string>, resolve: string -> Resolution): (r: seq<AppInfo>)
    ensures |r| <= |ids|
  {
    if ids == [] then []
    else match resolve(ids[0])
      case TypeErr => Admitted(ids[1..], resolve)
      case Falsy => []
      case Resolved(info) => [info] + Admitted(ids[1..], resolve)
  }

  /** The index of the first persisted id whose lookup is falsy, or the
      list's length when there is none. */
  function FirstFalsy(ids: seq<string>, resolve: string -> Resolution): (k: nat)
    ensures k <= |ids|
    ensures forall i :: 0 <= i < k ==> resolve(ids[i]) != Falsy
    ensures k < |ids| ==> resolve(ids[k]) == Falsy
  {
    if ids == [] || resolve(ids[0]) == Falsy then 0 else 1 + FirstFalsy(ids[1..], resolve)
  }

  /** The read admits an info exactly when some id before the first falsy
      lookup resolves to it. */
  lemma {:induction false} AdmittedExactly(ids: seq<string>, resolve: string -> Resolution, x: AppInfo)
    ensures x in Admitted(ids, resolve) <==>
              exists i :: 0 <= i < FirstFalsy(ids, resolve) && resolve(ids[i]) == Resolved(x)
    decreases |ids|
  {
    if ids != [] && resolve(ids[0]) != Falsy {
      var k := FirstFalsy(ids, resolve);
      var tail := ids[1..];
      AdmittedExactly(tail, resolve, x);
      assert k == 1 + FirstFalsy(tail, resolve);
      if exists i :: 0 <= i < k && resolve(ids[i]) == Resolved(x) {
        var i :| 0 <= i < k && resolve(ids[i]) == Resolved(x);
        if i > 0 {
          assert resolve(tail[i - 1]) == Resolved(x);
        }
      }
      if exists i :: 0 <= i < FirstFalsy(tail, resolve) && resolve(tail[i]) == Resolved(x) {
        var i :| 0 <= i < FirstFalsy(tail, resolve) && resolve(tail[i]) == Resolved(x);
        assert resolve(ids[i + 1]) == Resolved(x);
      }
    }
  }

  /** An id whose lookup raises `TypeError` is skipped and reading goes on. */
  lemma {:induction false} AdmittedSkipsTypeError(a: seq<string>, x: string, b: seq<string>, resolve: string -> Resolution)
    requires resolve(x) == TypeErr
    ensures Admitted(a + [x] + b, resolve) == Admitted(a + b, resolve)
    decreases |a|
  {
    if a == [] {
      assert a + [x] + b == [x] + b;
      assert ([x] + b)[0] == x && ([x] + b)[1..] == b;
      assert a + b == b;
    } else {
      assert (a + [x] + b)[0] == a[0] && (a + [x] + b)[1..] == a[1..] + [x] + b;
      assert (a + b)[0] == a[0] && (a + b)[1..] == a[1..] + b;
      AdmittedSkipsTypeError(a[1..], x, b, resolve);
    }
  }

  /** The first id that resolves to a falsy value ends the read: nothing after it counts. */
  lemma {:induction false} AdmittedStopsAtFalsy(a: seq<string>, x: string, b: seq<string>, resolve: string -> Resolution)
    requires resolve(x) == Falsy
    ensures Admitted(a + [x] + b, resolve) == Admitted(a, resolve)
    decreases |a|
  {
    if a == [] {
      assert a + [x] + b == [x] + b;
    } else {
      assert (a + [x] + b)[0] == a[0] && (a + [x] + b)[1..] == a[1..] + [x] + b;
      AdmittedStopsAtFalsy(a[1..], x, b, resolve);
    }
  }

  /** `Application(app=info, is_pinned=True)` for every info. */
  function PinnedEntries(infos: seq<AppInfo>): (r: seq<Application>)
    ensures |r| == |infos|
    ensures forall i :: 0 <= i < |r| ==> r[i] == Application(infos[i].id, infos[i].name, true)
  {
    seq(|infos|, i requires 0 <= i < |infos| => Application(infos[i].id, infos[i].name, true))
  }

  /** `__read_pinned_apps` into an empty `_pinned`. */
  function ReadPinned(ids: seq<string>, resolve: string -> Resolution): (r: seq<Application>)
    ensures UniqueIds(r)
    ensures forall a :: a in r ==> a.isPinned
    ensures Ids(r) == Dedup(Ids(PinnedEntries(Admitted(ids, resolve))))
    ensures forall a :: a in r ==>
              LastById(PinnedEntries(Admitted(ids, resolve)), a.id) == Some(a)
  {
    var es := PinnedEntries(Admitted(ids, resolve));
    var r := PutAll([], es);
    PutAllFresh(es);
    forall a | a in r ensures a.isPinned {
      var k :| 0 <= k < |es| && es[k] == a;
    }
    r
  }

  /** A persisted list of distinct ids that all resolve to themselves is
      read back as exactly that list. */
  lemma {:induction false} ReadPinnedRoundTrip(ids: seq<string>, resolve: string -> Resolution)
    requires NoDup(ids)
    requires forall i :: 0 <= i < |ids| ==> resolve(ids[i]).Resolved? && resolve(ids[i]).info.id == ids[i]
    ensures Ids(ReadPinned(ids, resolve)) == ids
  {
    AdmittedAllResolved(ids, resolve);
    DedupNoDup(ids);
  }

  lemma {:induction false} AdmittedAllResolved(ids: seq<string>, resolve: string -> Resolution)
    requires forall i :: 0 <= i < |ids| ==> resolve(ids[i]).Resolved? && resolve(ids[i]).info.id == ids[i]
    ensures Ids(PinnedEntries(Admitted(ids, resolve))) == ids
    decreases |ids|
  {
    if ids != [] {
      AdmittedAllResolved(ids[1..], resolve);
      var rest := Admitted(ids[1..], resolve);
      assert Admitted(ids, resolve) == [resolve(ids[0]).info] + rest;
      assert Ids(PinnedEntries([resolve(ids[0]).info] + rest)) == [ids[0]] + Ids(PinnedEntries(rest));
    }
  }

  // ---------------------------------------------------------------------
  // __add_app and __sync

  /** An app that `__sync` hands to `__add_app` and that is not hidden. */
  predicate Visible(info: AppInfo) {
    info.isDesktop && !info.nodisplay
  }

  /** The visible apps of the snapshot, in snapshot order. */
  function Shown(snapshot: seq<AppInfo>): (r: seq<AppInfo>)
    ensures forall info :: info in r <==> info in snapshot && Visible(info)
  {
    if snapshot == [] then []
    else
      var init := snapshot[..|snapshot| - 1];
      var last := snapshot[|snapshot| - 1];
      assert snapshot == init + [last];
      Shown(init) + (if Visible(last) then [last] else [])
  }

  /** The last visible snapshot item with id `id`: the one whose entry
      survives in `_apps`. */
  function LastVisible(snapshot: seq<AppInfo>, id: string): (r: Option<AppInfo>)
    ensures r.Some? ==> r.value in snapshot && Visible(r.value) && r.value.id == id
    ensures r.None? ==> forall info :: info in snapshot && Visible(info) ==> info.id != id
  {
    if snapshot == [] then None
    else
      var init := snapshot[..|snapshot| - 1];
      var last := snapshot[|snapshot| - 1];
      assert snapshot == init + [last];
      if Visible(last) && last.id == id then Some(last) else LastVisible(init, id)
  }

  /** The entries `__add_app` builds, flagged pinned iff their id is pinned. */
  function AppEntries(infos: seq<AppInfo>, pinnedIds: seq<string>): (r: seq<Application>)
    ensures |r| == |infos|
    ensures forall i :: 0 <= i < |r| ==>
              r[i] == Application(infos[i].id, infos[i].name, infos[i].id in pinnedIds)
  {
    seq(|infos|, i requires 0 <= i < |infos| =>
      Application(infos[i].id, infos[i].name, infos[i].id in pinnedIds))
  }

  /** The last entry built for `id` comes from the last visible item with that id. */
  lemma {:induction false} LastEntryIsLastVisible(snapshot: seq<AppInfo>, pinnedIds: seq<string>, id: string)
    ensures LastById(AppEntries(Shown(snapshot), pinnedIds), id) ==
              match LastVisible(snapshot, id)
              case None => None
              case Some(info) => Some(Application(info.id, info.name, info.id in pinnedIds))
    decreases |snapshot|
  {
    if snapshot != [] {
      var init := snapshot[..|snapshot| - 1];
      var last := snapshot[|snapshot| - 1];
      LastEntryIsLastVisible(init, pinnedIds, id);
      var es := AppEntries(Shown(snapshot), pinnedIds);
      if Visible(last) {
        assert es[..|es| - 1] == AppEntries(Shown(init), pinnedIds);
      } else {
        assert es == AppEntries(Shown(init), pinnedIds);
      }
    }
  }

  /** The loop of `__sync` over the snapshot, calling `__add_app` on each
      `DesktopAppInfo`. */
  function BuildApps(snapshot: seq<AppInfo>, pinned: seq<Application>): (r: seq<Application>)
    ensures UniqueIds(r)
    ensures forall a :: a in r ==> (a.isPinned <==> a.id in Ids(pinned))
    ensures forall a :: a in r ==> LastVisible(snapshot, a.id) == Some(AppInfo(a.id, a.name, false, true))
    ensures forall info :: info in snapshot && Visible(info) ==> info.id in Ids(r)
    ensures Ids(r) == Dedup(Ids(AppEntries(Shown(snapshot), Ids(pinned))))
  {
    var es := AppEntries(Shown(snapshot), Ids(pinned));
    var r := PutAll([], es);
    PutAllFresh(es);
    forall a | a in r
      ensures (a.isPinned <==> a.id in Ids(pinned))
      ensures LastVisible(snapshot, a.id) == Some(AppInfo(a.id, a.name, false, true))
    {
      LastEntryIsLastVisible(snapshot, Ids(pinned), a.id);
    }
    forall info | info in snapshot && Visible(info) ensures info.id in Ids(r) {
      var k :| 0 <= k < |Shown(snapshot)| && Shown(snapshot)[k] == info;
      assert Ids(es)[k] == info.id;
      assert info.id in Dedup(Ids(es));
    }
    r
  }

  /** `__sync`: both dicts rebuilt from scratch out of the persisted list
      and the snapshot; the option itself is only read. */
  function Sync(s: Service, env: Env): (r: Service)
    ensures Valid(r)
    ensures r.persisted == s.persisted
    ensures r.pinned == ReadPinned(s.persisted, env.resolve)
    ensures forall a :: a in r.apps ==> (a.isPinned <==> a.id in Ids(r.pinned))
    ensures forall a :: a in r.apps ==>
              LastVisible(env.snapshot, a.id) == Some(AppInfo(a.id, a.name, false, true))
    ensures forall info :: info in env.snapshot && Visible(info) ==> info.id in Ids(r.apps)
    ensures Ids(r.apps) == Dedup(Ids(AppEntries(Shown(env.snapshot), Ids(r.pinned))))
  {
    var pinned := ReadPinned(s.persisted, env.resolve);
    Service(BuildApps(env.snapshot, pinned), pinned, s.persisted)
  }

  /** `__sync` keeps nothing of the state it replaces, so a second run in a
      row changes nothing. */
  lemma SyncIdempotent(s: Service, env: Env)
    ensures Sync(Sync(s, env), env) == Sync(s, env)
  {
  }

  /** A hidden app or a non-desktop item never enters `_apps`. */
  lemma SyncSkipsHidden(s: Service, env: Env, id: string)
    requires forall info :: info in env.snapshot && info.id == id ==> !Visible(info)
    ensures id !in Ids(Sync(s, env).apps)
  {
    var apps := Sync(s, env).apps;
    forall k | 0 <= k < |apps| ensures apps[k].id != id {
      var a := apps[k];
      assert a in apps;
      var info := LastVisible(env.snapshot, a.id).value;
      assert info in env.snapshot && Visible(info) && info.id == a.id;
    }
  }

  /** A pinned id that no visible app carries stays in `_pinned` only. */
  lemma SyncPinnedOutsideSnapshot(s: Service, env: Env, id: string)
    requires id in Ids(Sync(s, env).pinned)
    requires forall info :: info in env.snapshot && Visible(info) ==> info.id != id
    ensures id !in Ids(Sync(s, env).apps)
  {
    SyncSkipsHidden(s, env, id);
  }

  /** `__init__`: the `pinned_apps` option is created with default `[]`
      unless it already holds a value, then `__sync` runs. */
  function Init(stored: Option<seq<string>>, env: Env): (r: Service)
    ensures Valid(r)
    ensures r.persisted == stored.GetOr([])
    ensures r.pinned == ReadPinned(stored.GetOr([]), env.resolve)
    ensures forall a :: a in r.apps ==> (a.isPinned <==> a.id in Ids(r.pinned))
    ensures forall a :: a in r.apps ==>
              LastVisible(env.snapshot, a.id) == Some(AppInfo(a.id, a.name, false, true))
    ensures forall info :: info in env.snapshot && Visible(info) ==> info.id in Ids(r.apps)
    ensures Ids(r.apps) == Dedup(Ids(AppEntries(Shown(env.snapshot), Ids(r.pinned))))
  {
    Sync(Service([], [], stored.GetOr([])), env)
  }

  // ---------------------------------------------------------------------
  // apps, pinned, search

  /** The `apps` property: every registry entry once, ascending by name;
      equal names keep their `_apps` order (see `AppSort.SortStable`). */
  function Apps(s: Service): (r: seq<Application>)
    ensures SortedByName(r)
    ensures multiset(r) == multiset(s.apps)
    ensures forall a :: a in r <==> a in s.apps
  {
    var r := SortByName(s.apps);
    forall a ensures a in r <==> a in s.apps {
      assert a in r <==> a in multiset(r);
      assert a in s.apps <==> a in multiset(s.apps);
    }
    r
  }

  /** The `pinned` property: the values of `_pinned` in insertion order. */
  function Pinned(s: Service): (r: seq<Application>)
    ensures Ids(r) == Ids(s.pinned)
    ensures Valid(s) ==> UniqueIds(r)
  {
    s.pinned
  }

  /** The entries of `xs` whose id is in `group`, order kept. */
  function Matches(xs: seq<Application>, group: seq<string>): (r: seq<Application>)
    ensures forall a :: a in r <==> a in xs && a.id in group
  {
    if xs == [] then []
    else
      assert xs == [xs[0]] + xs[1..];
      if xs[0].id in group then [xs[0]] + Matches(xs[1..], group)
      else Matches(xs[1..], group)
  }

  /** Filtering keeps a name-sorted list sorted. */
  lemma {:induction false} MatchesSorted(xs: seq<Application>, group: seq<string>)
    requires SortedByName(xs)
    ensures SortedByName(Matches(xs, group))
    decreases |xs|
  {
    if xs != [] {
      MatchesSorted(xs[1..], group);
      var rest := Matches(xs[1..], group);
      if xs[0].id in group {
        forall b | b in rest ensures Text.Le(xs[0].name, b.name) {
          var k :| 0 <= k < |xs[1..]| && xs[1..][k] == b;
          assert xs[k + 1] == b;
        }
      }
    }
  }

  /** Filtering keeps each selected entry as often as it occurs. */
  lemma {:induction false} MatchesCount(xs: seq<Application>, group: seq<string>, a: Application)
    ensures multiset(Matches(xs, group))[a] == (if a.id in group then multiset(xs)[a] else 0)
    decreases |xs|
  {
    if xs != [] {
      MatchesCount(xs[1..], group, a);
      assert xs == [xs[0]] + xs[1..];
    }
  }

  /** The comprehension of `search` over already-sorted entries. */
  function SearchIn(xs: seq<Application>, results: seq<seq<string>>): (r: seq<Application>)
    ensures forall a :: a in r ==> a in xs
  {
    if results == [] then [] else Matches(xs, results[0]) + SearchIn(xs, results[1..])
  }

  lemma {:induction false} SearchInConcat(xs: seq<Application>, r1: seq<seq<string>>, r2: seq<seq<string>>)
    ensures SearchIn(xs, r1 + r2) == SearchIn(xs, r1) + SearchIn(xs, r2)
    decreases |r1|
  {
    if r1 == [] {
      assert r1 + r2 == r2;
    } else {
      assert (r1 + r2)[0] == r1[0] && (r1 + r2)[1..] == r1[1..] + r2;
      SearchInConcat(xs, r1[1..], r2);
    }
  }

  /** `search(query)`, given `Gio.DesktopAppInfo.search(query)` as `results`:
      every hit is an entry of `apps`. */
  function Search(s: Service, results: seq<seq<string>>): (r: seq<Application>)
    ensures forall a :: a in r ==> a in Apps(s) && a in s.apps
  {
    SearchIn(Apps(s), results)
  }

  /** Hits are grouped by result group: earlier groups' hits come first. */
  lemma SearchConcat(s: Service, r1: seq<seq<string>>, r2: seq<seq<string>>)
    ensures Search(s, r1 + r2) == Search(s, r1) + Search(s, r2)
  {
    SearchInConcat(Apps(s), r1, r2);
  }

  /** One group's hits are the apps whose id the group lists, by name. */
  lemma SearchOneGroup(s: Service, group: seq<string>)
    ensures SortedByName(Search(s, [group]))
    ensures forall a :: a in Search(s, [group]) <==> a in s.apps && a.id in group
  {
    assert [group][1..] == [];
    assert SearchIn(Apps(s), [group]) == Matches(Apps(s), group) + SearchIn(Apps(s), []);
    assert Search(s, [group]) == Matches(Apps(s), group);
    MatchesSorted(Apps(s), group);
  }

  /** The number of groups that list `id`. */
  function GroupsListing(results: seq<seq<string>>, id: string): nat {
    if results == [] then 0
    else (if id in results[0] then 1 else 0) + GroupsListing(results[1..], id)
  }

  /** A key-unique list holds each of its entries exactly once. */
  lemma {:induction false} UniqueOnce(xs: seq<Application>, a: Application)
    requires UniqueIds(xs) && a in xs
    ensures multiset(xs)[a] == 1
    decreases |xs|
  {
    assert xs == [xs[0]] + xs[1..];
    assert Ids(xs)[1..] == Ids(xs[1..]);
    if xs[0] == a {
      forall k | 0 <= k < |xs[1..]| ensures xs[1..][k] != a {
        assert Ids(xs)[0] != Ids(xs)[k + 1];
      }
      assert a !in xs[1..];
    } else {
      UniqueOnce(xs[1..], a);
    }
  }

  /** An app listed by k groups appears k times in the result. */
  lemma {:induction false} SearchMultiplicity(s: Service, results: seq<seq<string>>, a: Application)
    requires UniqueIds(s.apps) && a in s.apps
    ensures multiset(Search(s, results))[a] == GroupsListing(results, a.id)
    decreases |results|
  {
    if results != [] {
      SearchMultiplicity(s, results[1..], a);
      UniqueOnce(s.apps, a);
      assert multiset(Apps(s))[a] == 1;
      MatchesCount(Apps(s), results[0], a);
      assert Search(s, results) == Matches(Apps(s), results[0]) + Search(s, results[1..]);
    }
  }

  // ---------------------------------------------------------------------
  // __sync_pinned, __pin_entry, __unpin_entry

  /** `__sync_pinned`: the option is overwritten with the pinned ids. */
  function SyncPinned(s: Service): (r: Service)
    ensures r.persisted == Ids(Pinned(r))
    ensures r.apps == s.apps && r.pinned == s.pinned
  {
    s.(persisted := Ids(s.pinned))
  }

  /** `__pin_entry`: `_pinned[entry.id] = entry`, then the option is written. */
  function PinEntry(s: Service, e: Application): (r: Service)
    requires UniqueIds(s.pinned)
    ensures UniqueIds(r.pinned)
    ensures r.apps == s.apps
    ensures r.persisted == Ids(Pinned(r))
    ensures e in r.pinned
    ensures e.id in Ids(s.pinned) ==> Ids(r.pinned) == Ids(s.pinned)
    ensures e.id !in Ids(s.pinned) ==> Ids(r.pinned) == Ids(s.pinned) + [e.id]
    ensures forall a :: a in s.pinned && a.id != e.id ==> a in r.pinned
    ensures forall a :: a in r.pinned ==> a == e || a in s.pinned
  {
    var pinned := Put(s.pinned, e);
    forall a | a in pinned ensures a == e || a in s.pinned {
      var k :| 0 <= k < |pinned| && pinned[k] == a;
      if k < |s.pinned| {
        assert pinned[k] == (if s.pinned[k].id == e.id then e else s.pinned[k]);
      } else {
        assert Ids(pinned)[k] == e.id;
      }
    }
    forall a | a in s.pinned && a.id != e.id ensures a in pinned {
      var k :| 0 <= k < |s.pinned| && s.pinned[k] == a;
      assert pinned[k] == a;
    }
    SyncPinned(s.(pinned := pinned))
  }

  /** `__unpin_entry`: `_pinned.pop(entry.id)` raises `KeyError` when the id
      is not pinned (nothing is written); otherwise the id leaves `_pinned`,
      the other pins keep their order, and the option is written. */
  function UnpinEntry(s: Service, e: Application): (r: Result<Service, KeyError>)
    requires UniqueIds(s.pinned)
    ensures r.Failure? <==> e.id !in Ids(s.pinned)
    ensures r.Failure? ==> r.error == KeyError(e.id)
    ensures r.Success? ==> UniqueIds(r.value.pinned)
    ensures r.Success? ==> r.value.apps == s.apps
    ensures r.Success? ==> r.value.persisted == Ids(Pinned(r.value))
    ensures r.Success? ==> e.id !in Ids(r.value.pinned)
    ensures r.Success? ==> Ids(r.value.pinned) == Without(Ids(s.pinned), e.id)
    ensures r.Success? ==> forall a :: a in r.value.pinned <==> a in s.pinned && a.id != e.id
  {
    match Pop(s.pinned, e.id)
    case Failure(err) => Failure(err)
    case Success(pinned) => Success(SyncPinned(s.(pinned := pinned)))
  }

  /** Pinning then unpinning a new id gives back the pins and the option
      as they would be written before. */
  lemma PinThenUnpin(s: Service, e: Application)
    requires UniqueIds(s.pinned) && e.id !in Ids(s.pinned)
    ensures UnpinEntry(PinEntry(s, e), e) == Success(SyncPinned(s))
  {
    var p := PinEntry(s, e).pinned;
    WithoutAbsent(Ids(s.pinned), e.id);
    assert p == s.pinned + [e] by {
      assert |p| == |s.pinned| + 1;
      forall i | 0 <= i < |p| ensures p[i] == (s.pinned + [e])[i] {
        if i == |s.pinned| {
          assert Ids(p)[i] == e.id;
          assert p[i] in p;
        }
      }
    }
    RemoveAppended(s.pinned, e);
  }

  lemma {:induction false} RemoveAppended(d: seq<Application>, e: Application)
    requires e.id !in Ids(d)
    ensures Remove(d + [e], e.id) == d
    decreases |d|
  {
    if d == [] {
      assert Remove([e], e.id) == Remove([], e.id);
    } else {
      var tail := d[1..];
      assert (d + [e])[0] == d[0];
      assert (d + [e])[1..] == tail + [e];
      assert d[0].id != e.id by {
        assert Ids(d)[0] == d[0].id;
      }
      assert e.id !in Ids(tail) by {
        forall k | 0 <= k < |tail| ensures Ids(tail)[k] != e.id {
          assert Ids(tail)[k] == Ids(d)[k + 1];
        }
      }
      RemoveAppended(tail, e);
      assert d == [d[0]] + tail;
    }
  }

  /** A pinned app survives a restart: from an empty option, pinning
      `"app.Foo"` writes `["app.Foo"]`, and a fresh service started on that
      option lists one pinned `"app.Foo"` as long as the id still resolves. */
  lemma PinSurvivesRestart(env: Env, e: Application, name: string, nodisplay: bool, isDesktop: bool)
    requires e.id == "app.Foo"
    requires env.resolve("app.Foo") == Resolved(AppInfo("app.Foo", name, nodisplay, isDesktop))
    ensures PinEntry(Init(None, env), e).persisted == ["app.Foo"]
    ensures Pinned(Init(Some(PinEntry(Init(None, env), e).persisted), env)) ==
              [Application("app.Foo", name, true)]
  {
    var s := Init(None, env);
    assert Admitted([], env.resolve) == [];
    assert s.pinned == [];
    var ids := PinEntry(s, e).persisted;
    assert ids == ["app.Foo"];
    assert Admitted(ids, env.resolve) == [AppInfo("app.Foo", name, nodisplay, isDesktop)];
  }
}
