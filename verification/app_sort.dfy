/** `sorted(values, key=lambda x: x.name)`: Python's stable sort of the
    registry entries by display name. */
module AppSort {
  import Text
  import opened AppDict

  /** Ascending by name under Python's `str` ordering. */
  predicate SortedByName(d: seq<Application>) {
    forall i, j :: 0 <= i < j < |d| ==> Text.Le(d[i].name, d[j].name)
  }

  /** `x` placed before the first entry whose name is not smaller than its own. */
  function Insert(x: Application, ys: seq<Application>): (r: seq<Application>)
    requires SortedByName(ys)
    ensures SortedByName(r)
    ensures multiset(r) == multiset(ys) + multiset{x}
  {
    if ys == [] || Text.Le(x.name, ys[0].name) then
      forall j | 0 <= j < |ys| ensures Text.Le(x.name, ys[j].name) {
        if j > 0 { Text.LeTrans(x.name, ys[0].name, ys[j].name); }
      }
      [x] + ys
    else
      Text.LeTotal(x.name, ys[0].name);
      var rest := Insert(x, ys[1..]);
      assert ys == [ys[0]] + ys[1..];
      forall z | z in rest ensures Text.Le(ys[0].name, z.name) {
        assert z in multiset(rest);
        if z != x {
          assert z in ys[1..];
        }
      }
      [ys[0]] + rest
  }

  /** Insertion sort: each entry goes in front of the equal-named entries
      that came after it in the input, so the order is stable. */
  function SortByName(d: seq<Application>): (r: seq<Application>)
    ensures SortedByName(r)
    ensures multiset(r) == multiset(d)
  {
    if d == [] then []
    else
      assert d == [d[0]] + d[1..];
      Insert(d[0], SortByName(d[1..]))
  }

  /** The entries named `n`, in order. */
  function Named(d: seq<Application>, n: string): (r: seq<Application>)
    ensures forall a :: a in r <==> a in d && a.name == n
  {
    if d == [] then []
    else if d[0].name == n then [d[0]] + Named(d[1..], n)
    else Named(d[1..], n)
  }

  /** Inserting `x` into a sorted list puts it ahead of every entry with the same name. */
  lemma {:induction false} InsertNamed(x: Application, ys: seq<Application>, n: string)
    requires SortedByName(ys)
    ensures Named(Insert(x, ys), n) == (if x.name == n then [x] else []) + Named(ys, n)
    decreases |ys|
  {
    if ys == [] || Text.Le(x.name, ys[0].name) {
      assert Insert(x, ys) == [x] + ys;
      assert ([x] + ys)[1..] == ys;
    } else {
      InsertNamed(x, ys[1..], n);
      var r := Insert(x, ys);
      assert r == [ys[0]] + Insert(x, ys[1..]);
      assert r[1..] == Insert(x, ys[1..]);
      if x.name == n && ys[0].name == n {
        Text.LeTotal(x.name, ys[0].name);
        assert false;
      }
    }
  }

  /** Stability: among entries of equal name, the sorted list keeps the
      input order. */
  lemma {:induction false} SortStable(d: seq<Application>, n: string)
    ensures Named(SortByName(d), n) == Named(d, n)
    decreases |d|
  {
    if d != [] {
      SortStable(d[1..], n);
      InsertNamed(d[0], SortByName(d[1..]), n);
    }
  }
}
