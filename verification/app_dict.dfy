/** The insertion-ordered `dict[str, Application]` that `ApplicationsService`
    keeps twice (`_apps` and `_pinned`). Every entry is stored under its own
    `id`, so the dict is the sequence of its values in insertion order with
    pairwise distinct ids. */
module AppDict {
  import opened Wrappers

  /** One `Application` entry: the desktop id, the display name and the
      pinned flag it was constructed with. */
  datatype Application = Application(id: string, name: string, isPinned: bool)

  /** Python's `KeyError` raised by `dict.pop` on a missing key. */
  datatype KeyError = KeyError(key: string)

  /** The keys of the dict, in insertion order. */
  function Ids(d: seq<Application>): (ks: seq<string>)
    ensures |ks| == |d|
    ensures forall i :: 0 <= i < |d| ==> ks[i] == d[i].id
  {
    seq(|d|, i requires 0 <= i < |d| => d[i].id)
  }

  predicate NoDup(ks: seq<string>) {
    forall i, j :: 0 <= i < j < |ks| ==> ks[i] != ks[j]
  }

  /** The dict invariant: no key twice. */
  predicate UniqueIds(d: seq<Application>) {
    NoDup(Ids(d))
  }

  /** The position of key `id`. */
  function IndexOf(d: seq<Application>, id: string): (k: nat)
    requires id in Ids(d)
    ensures k < |d| && d[k].id == id
  {
    if d[0].id == id then 0
    else
      assert Ids(d) == [d[0].id] + Ids(d[1..]);
      1 + IndexOf(d[1..], id)
  }

  /** `d[e.id] = e`: a new key is appended, while an existing key has its
      value replaced in place and keeps its position. */
  function Put(d: seq<Application>, e: Application): (r: seq<Application>)
    requires UniqueIds(d)
    ensures UniqueIds(r)
    ensures e.id in Ids(d) ==> Ids(r) == Ids(d)
    ensures e.id !in Ids(d) ==> Ids(r) == Ids(d) + [e.id]
    ensures e in r
    ensures forall i :: 0 <= i < |d| ==> r[i] == (if d[i].id == e.id then e else d[i])
  {
    if e.id in Ids(d) then
      d[IndexOf(d, e.id) := e]
    else
      d + [e]
  }

  /** The keys with `k` filtered out, order kept. */
  function Without(ks: seq<string>, k: string): (r: seq<string>)
    ensures k !in r
    ensures forall x :: x in r <==> x in ks && x != k
  {
    if ks == [] then []
    else if ks[0] == k then Without(ks[1..], k)
    else [ks[0]] + Without(ks[1..], k)
  }

  /** The entries whose key is not `id`, order kept. */
  function Remove(d: seq<Application>, id: string): (r: seq<Application>)
    ensures forall a :: a in r <==> a in d && a.id != id
  {
    if d == [] then []
    else if d[0].id == id then Remove(d[1..], id)
    else [d[0]] + Remove(d[1..], id)
  }

  /** Removing the entries of `id` removes exactly the key `id`. */
  lemma {:induction false} RemoveIds(d: seq<Application>, id: string)
    ensures Ids(Remove(d, id)) == Without(Ids(d), id)
    decreases |d|
  {
    if d != [] {
      assert Ids(d) == [d[0].id] + Ids(d[1..]);
      RemoveIds(d[1..], id);
      if d[0].id != id {
        assert Ids([d[0]] + Remove(d[1..], id)) == [d[0].id] + Ids(Remove(d[1..], id));
      }
    }
  }

  /** A filtered sequence of distinct keys still has distinct keys. */
  lemma {:induction false} WithoutNoDup(ks: seq<string>, k: string)
    requires NoDup(ks)
    ensures NoDup(Without(ks, k))
    decreases |ks|
  {
    if ks != [] {
      WithoutNoDup(ks[1..], k);
      if ks[0] != k {
        var w := Without(ks[1..], k);
        assert ks[0] !in ks[1..] by {
          forall j | 0 <= j < |ks[1..]| ensures ks[1..][j] != ks[0] {
            assert ks[1..][j] == ks[j + 1];
          }
        }
        assert ks[0] !in w;
        var r := [ks[0]] + w;
        forall i, j | 0 <= i < j < |r| ensures r[i] != r[j] {
          if i == 0 {
            assert r[j] == w[j - 1];
            assert r[j] in w;
          } else {
            assert r[i] == w[i - 1] && r[j] == w[j - 1];
          }
        }
      }
    }
  }

  /** `d.pop(id)`: the dict without `id`, or `KeyError` when `id` is no key. */
  function Pop(d: seq<Application>, id: string): (r: Result<seq<Application>, KeyError>)
    requires UniqueIds(d)
    ensures r.Failure? <==> id !in Ids(d)
    ensures r.Failure? ==> r.error == KeyError(id)
    ensures r.Success? ==> UniqueIds(r.value)
    ensures r.Success? ==> |r.value| == |d| - 1
    ensures r.Success? ==> Ids(r.value) == Without(Ids(d), id)
    ensures r.Success? ==> forall a :: a in r.value <==> a in d && a.id != id
  {
    if id !in Ids(d) then Failure(KeyError(id))
    else
      WithoutNoDup(Ids(d), id);
      WithoutOneLess(Ids(d), id);
      RemoveIds(d, id);
      Success(Remove(d, id))
  }

  /** Filtering out a key that occurs once shortens the keys by one. */
  lemma {:induction false} WithoutOneLess(ks: seq<string>, k: string)
    requires NoDup(ks) && k in ks
    ensures |Without(ks, k)| == |ks| - 1
    decreases |ks|
  {
    if ks[0] == k {
      WithoutAbsent(ks[1..], k);
    } else {
      WithoutOneLess(ks[1..], k);
    }
  }

  /** Filtering out a key that is absent changes nothing. */
  lemma {:induction false} WithoutAbsent(ks: seq<string>, k: string)
    requires k !in ks
    ensures Without(ks, k) == ks
    decreases |ks|
  {
    if ks != [] {
      WithoutAbsent(ks[1..], k);
    }
  }

  /** The keys of `ks` in order of first occurrence. */
  function Dedup(ks: seq<string>): (r: seq<string>)
    ensures NoDup(r)
    ensures forall x :: x in r <==> x in ks
  {
    if ks == [] then []
    else
      var p := Dedup(ks[..|ks| - 1]);
      var x := ks[|ks| - 1];
      assert forall y :: y in ks <==> y in ks[..|ks| - 1] || y == x by {
        assert ks == ks[..|ks| - 1] + [x];
      }
      if x in p then p else p + [x]
  }

  /** Keys that are already distinct are their own first occurrences. */
  lemma {:induction false} DedupNoDup(ks: seq<string>)
    requires NoDup(ks)
    ensures Dedup(ks) == ks
    decreases |ks|
  {
    if ks != [] {
      DedupNoDup(ks[..|ks| - 1]);
      assert ks == ks[..|ks| - 1] + [ks[|ks| - 1]];
    }
  }

  /** The last entry of `es` stored under `id`, if any. */
  function LastById(es: seq<Application>, id: string): (r: Option<Application>)
    ensures r.Some? ==> r.value in es && r.value.id == id
    ensures r.None? <==> id !in Ids(es)
  {
    if es == [] then None
    else if es[|es| - 1].id == id then Some(es[|es| - 1])
    else
      assert Ids(es) == Ids(es[..|es| - 1]) + [es[|es| - 1].id];
      LastById(es[..|es| - 1], id)
  }

  /** `for e in es: d[e.id] = e`, starting from `acc`. */
  function PutAll(acc: seq<Application>, es: seq<Application>): (r: seq<Application>)
    requires UniqueIds(acc)
    ensures UniqueIds(r)
    ensures Ids(r) == Dedup(Ids(acc) + Ids(es))
    ensures forall a :: a in r ==>
              (a in acc && LastById(es, a.id).None?) || LastById(es, a.id) == Some(a)
    decreases |es|
  {
    if es == [] then
      assert Ids(acc) + Ids(es) == Ids(acc);
      DedupNoDup(Ids(acc));
      acc
    else
      var init := es[..|es| - 1];
      var e := es[|es| - 1];
      assert Ids(acc) + Ids(es) == (Ids(acc) + Ids(init)) + [e.id];
      Put(PutAll(acc, init), e)
  }

  /** Filling an empty dict: one entry per distinct id, in first-seen order,
      each holding the last entry written under its id. */
  lemma PutAllFresh(es: seq<Application>)
    ensures Ids(PutAll([], es)) == Dedup(Ids(es))
    ensures forall a :: a in PutAll([], es) ==> LastById(es, a.id) == Some(a)
  {
    assert Ids([]) + Ids(es) == Ids(es);
  }
}
