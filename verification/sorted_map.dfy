/** An ordered map from integer keys to values, standing in for `std::map<K, V>`.
    The map is a sequence of entries kept in strictly ascending key order; an
    iterator into the map is an index into the sequence, and `|m|` is `end()`.
    Keys are compared only with `<`, as the container's key type promises
    nothing else. */
module SortedMap {

  datatype Entry<V> = Entry(key: int, val: V)

  /** The key at position `i`. Sortedness is phrased through it so that the
      pairwise fact is only used where a proof asks for it. */
  function KeyAt<V>(m: seq<Entry<V>>, i: int): int
    requires 0 <= i < |m|
  {
    m[i].key
  }

  /** The ordering guarantee of `std::map`: keys unique and ascending. */
  predicate Sorted<V>(m: seq<Entry<V>>) {
    forall i, j :: 0 <= i < j < |m| ==> KeyAt(m, i) < KeyAt(m, j)
  }

  predicate KeyIn<V>(m: seq<Entry<V>>, k: int) {
    exists i :: 0 <= i < |m| && m[i].key == k
  }

  lemma SortedLt<V>(m: seq<Entry<V>>, i: int, j: int)
    requires Sorted(m) && 0 <= i < j < |m|
    ensures m[i].key < m[j].key
  {
    assert KeyAt(m, i) < KeyAt(m, j);
  }

  /** Every key after position `i` is above the key at `i`, every key before
      it below. */
  lemma SortedAround<V>(m: seq<Entry<V>>, i: int)
    requires Sorted(m) && 0 <= i < |m|
    ensures forall j :: i < j < |m| ==> m[i].key < m[j].key
    ensures forall j :: 0 <= j < i ==> m[j].key < m[i].key
  {
    forall j | i < j < |m| ensures m[i].key < m[j].key {
      SortedLt(m, i, j);
    }
    forall j | 0 <= j < i ensures m[j].key < m[i].key {
      SortedLt(m, j, i);
    }
  }

  /** `lower_bound(k)`: the first position whose key is not less than `k`. */
  function LowerBound<V>(m: seq<Entry<V>>, k: int): (i: nat)
    ensures i <= |m|
    ensures forall j :: 0 <= j < i ==> m[j].key < k
    ensures i < |m| ==> !(m[i].key < k)
  {
    LowerBoundFrom(m, k, 0)
  }

  /** The scan behind `lower_bound`, from position `i` on. */
  function LowerBoundFrom<V>(m: seq<Entry<V>>, k: int, i: nat): (r: nat)
    requires i <= |m|
    ensures i <= r <= |m|
    ensures forall j :: i <= j < r ==> m[j].key < k
    ensures r < |m| ==> !(m[r].key < k)
    decreases |m| - i
  {
    if i == |m| || !(m[i].key < k) then i else LowerBoundFrom(m, k, i + 1)
  }

  /** `upper_bound(k)`: the first position whose key is greater than `k`. */
  function UpperBound<V>(m: seq<Entry<V>>, k: int): (i: nat)
    ensures i <= |m|
    ensures forall j :: 0 <= j < i ==> !(k < m[j].key)
    ensures i < |m| ==> k < m[i].key
  {
    UpperBoundFrom(m, k, 0)
  }

  /** The scan behind `upper_bound`, from position `i` on. */
  function UpperBoundFrom<V>(m: seq<Entry<V>>, k: int, i: nat): (r: nat)
    requires i <= |m|
    ensures i <= r <= |m|
    ensures forall j :: i <= j < r ==> !(k < m[j].key)
    ensures r < |m| ==> k < m[r].key
    decreases |m| - i
  {
    if i == |m| || k < m[i].key then i else UpperBoundFrom(m, k, i + 1)
  }

  /** The two scans are determined by the property they promise. */
  lemma {:induction false} LowerBoundFromIs<V>(m: seq<Entry<V>>, k: int, i0: nat, i: nat)
    requires i0 <= i <= |m|
    requires forall j :: i0 <= j < i ==> m[j].key < k
    requires i < |m| ==> k <= m[i].key
    ensures LowerBoundFrom(m, k, i0) == i
    decreases i - i0
  {
    if i0 < i {
      LowerBoundFromIs(m, k, i0 + 1, i);
    }
  }

  lemma {:induction false} UpperBoundFromIs<V>(m: seq<Entry<V>>, k: int, i0: nat, i: nat)
    requires i0 <= i <= |m|
    requires forall j :: i0 <= j < i ==> m[j].key <= k
    requires i < |m| ==> k < m[i].key
    ensures UpperBoundFrom(m, k, i0) == i
    decreases i - i0
  {
    if i0 < i {
      UpperBoundFromIs(m, k, i0 + 1, i);
    }
  }

  lemma LowerBoundIs<V>(m: seq<Entry<V>>, k: int, i: nat)
    requires i <= |m|
    requires forall j :: 0 <= j < i ==> m[j].key < k
    requires i < |m| ==> k <= m[i].key
    ensures LowerBound(m, k) == i
  {
    LowerBoundFromIs(m, k, 0, i);
  }

  lemma UpperBoundIs<V>(m: seq<Entry<V>>, k: int, i: nat)
    requires i <= |m|
    requires forall j :: 0 <= j < i ==> m[j].key <= k
    requires i < |m| ==> k < m[i].key
    ensures UpperBound(m, k) == i
  {
    UpperBoundFromIs(m, k, 0, i);
  }

  /** In a sorted map every key from `lower_bound(k)` on is at least `k`. */
  lemma AboveLowerBound<V>(m: seq<Entry<V>>, k: int)
    requires Sorted(m)
    ensures forall i :: LowerBound(m, k) <= i < |m| ==> k <= m[i].key
  {
    var l := LowerBound(m, k);
    if l < |m| {
      SortedAround(m, l);
    }
  }

  /** In a sorted map every key from `upper_bound(k)` on is above `k`. */
  lemma AboveUpperBound<V>(m: seq<Entry<V>>, k: int)
    requires Sorted(m)
    ensures forall i :: UpperBound(m, k) <= i < |m| ==> k < m[i].key
  {
    var u := UpperBound(m, k);
    if u < |m| {
      SortedAround(m, u);
    }
  }

  /** When `k` is absent, every key from `lower_bound(k)` on is above it. */
  lemma FreshKeyAbove<V>(m: seq<Entry<V>>, k: int)
    requires Sorted(m)
    ensures var i := LowerBound(m, k);
            i == |m| || k < m[i].key ==> forall j :: i <= j < |m| ==> k < m[j].key
  {
    var i := LowerBound(m, k);
    if i < |m| {
      SortedAround(m, i);
    }
  }

  /** `emplace_hint(hint, k, v)`: inserts `(k, v)` at its ordered position
      unless `k` is already present, in which case the map is unchanged. The
      hint only affects complexity and is not modelled. */
  function Emplace<V>(m: seq<Entry<V>>, k: int, v: V): (r: seq<Entry<V>>)
    requires Sorted(m)
    ensures Sorted(r)
    ensures KeyIn(m, k) ==> r == m
    ensures !KeyIn(m, k) ==> multiset(r) == multiset(m) + multiset{Entry(k, v)}
  {
    var i := LowerBound(m, k);
    if i < |m| && !(k < m[i].key) then
      m
    else
      FreshKeyAbove(m, k);
      SortedInsert(m, i, Entry(k, v));
      m[..i] + [Entry(k, v)] + m[i..]
  }

  /** Inserting an entry between the keys below it and the keys above it keeps
      the map sorted, and the key was not there before. */
  lemma SortedInsert<V>(m: seq<Entry<V>>, i: nat, e: Entry<V>)
    requires Sorted(m)
    requires i <= |m|
    requires forall j :: 0 <= j < i ==> m[j].key < e.key
    requires forall j :: i <= j < |m| ==> e.key < m[j].key
    ensures Sorted(m[..i] + [e] + m[i..])
    ensures !KeyIn(m, e.key)
    ensures multiset(m[..i] + [e] + m[i..]) == multiset(m) + multiset{e}
  {
    var r := m[..i] + [e] + m[i..];
    forall a, b | 0 <= a < b < |r| ensures KeyAt(r, a) < KeyAt(r, b) {
      if b < i {
        assert r[a] == m[a] && r[b] == m[b];
        SortedLt(m, a, b);
      } else if b == i {
        assert r[a] == m[a] && r[b] == e;
      } else if a < i {
        assert r[a] == m[a] && r[b] == m[b - 1];
      } else if a == i {
        assert r[a] == e && r[b] == m[b - 1];
      } else {
        assert r[a] == m[a - 1] && r[b] == m[b - 1];
        SortedLt(m, a - 1, b - 1);
      }
    }
    assert m == m[..i] + m[i..];
  }

  /** Where the neighbours of `k` are known, emplacing `k` splices it in
      between them. */
  lemma EmplaceAt<V>(m: seq<Entry<V>>, k: int, v: V, i: nat)
    requires Sorted(m)
    requires i <= |m|
    requires forall j :: 0 <= j < i ==> m[j].key < k
    requires forall j :: i <= j < |m| ==> k < m[j].key
    ensures Emplace(m, k, v) == m[..i] + [Entry(k, v)] + m[i..]
  {
    LowerBoundIs(m, k, i);
  }

  /** `erase(it)`: removes the entry at `it`; the returned iterator is `it`,
      which now denotes the entry that followed the erased one. */
  function EraseAt<V>(m: seq<Entry<V>>, i: nat): (r: seq<Entry<V>>)
    requires Sorted(m)
    requires i < |m|
    ensures Sorted(r)
    ensures |r| == |m| - 1
    ensures multiset(r) == multiset(m) - multiset{m[i]}
  {
    SortedSplice(m, i, i + 1);
    assert m == m[..i] + [m[i]] + m[i + 1..];
    m[..i] + m[i + 1..]
  }

  /** `it->second = v`: replaces the value at `it`, keeping its key. */
  function SetValueAt<V>(m: seq<Entry<V>>, i: nat, v: V): (r: seq<Entry<V>>)
    requires i < |m|
    requires Sorted(m)
    ensures Sorted(r)
    ensures |r| == |m| && r[i] == Entry(m[i].key, v)
    ensures forall j :: 0 <= j < |m| && j != i ==> r[j] == m[j]
  {
    var r := m[i := Entry(m[i].key, v)];
    SortedSameKeys(m, r);
    r
  }

  /** Changing values only keeps a map sorted. */
  lemma SortedSameKeys<V>(m: seq<Entry<V>>, r: seq<Entry<V>>)
    requires Sorted(m) && |r| == |m|
    requires forall i :: 0 <= i < |m| ==> r[i].key == m[i].key
    ensures Sorted(r)
  {
    forall a, b | 0 <= a < b < |r| ensures KeyAt(r, a) < KeyAt(r, b) {
      SortedLt(m, a, b);
    }
  }

  /** Removing a contiguous block of entries keeps the map sorted. */
  lemma SortedSplice<V>(m: seq<Entry<V>>, lo: nat, hi: nat)
    requires Sorted(m)
    requires lo <= hi <= |m|
    ensures Sorted(m[..lo] + m[hi..])
  {
    var r := m[..lo] + m[hi..];
    forall a, b | 0 <= a < b < |r| ensures KeyAt(r, a) < KeyAt(r, b) {
      if b < lo {
        assert r[a] == m[a] && r[b] == m[b];
        SortedLt(m, a, b);
      } else if a < lo {
        assert r[a] == m[a] && r[b] == m[b - lo + hi];
        SortedLt(m, a, b - lo + hi);
      } else {
        assert r[a] == m[a - lo + hi] && r[b] == m[b - lo + hi];
        SortedLt(m, a - lo + hi, b - lo + hi);
      }
    }
  }

  /** Two sorted maps, the first entirely below the second, concatenate to a
      sorted map. */
  lemma SortedConcat<V>(a: seq<Entry<V>>, b: seq<Entry<V>>)
    requires Sorted(a) && Sorted(b)
    requires |a| == 0 || |b| == 0 || a[|a| - 1].key < b[0].key
    ensures Sorted(a + b)
  {
    var r := a + b;
    forall x, y | 0 <= x < y < |r| ensures KeyAt(r, x) < KeyAt(r, y) {
      if y < |a| {
        assert r[x] == a[x] && r[y] == a[y];
        SortedLt(a, x, y);
      } else if x >= |a| {
        assert r[x] == b[x - |a|] && r[y] == b[y - |a|];
        SortedLt(b, x - |a|, y - |a|);
      } else {
        assert r[x] == a[x] && r[y] == b[y - |a|];
        if x < |a| - 1 { SortedLt(a, x, |a| - 1); }
        if y > |a| { SortedLt(b, 0, y - |a|); }
      }
    }
  }

  /** The parts of a sorted concatenation are sorted, and every key of the
      first lies below every key of the second. */
  lemma SortedParts<V>(a: seq<Entry<V>>, b: seq<Entry<V>>)
    requires Sorted(a + b)
    ensures Sorted(a) && Sorted(b)
    ensures |b| > 0 ==> forall i :: 0 <= i < |a| ==> a[i].key < b[0].key
    ensures |a| > 0 ==> forall j :: 0 <= j < |b| ==> a[|a| - 1].key < b[j].key
  {
    var r := a + b;
    forall x, y | 0 <= x < y < |a| ensures KeyAt(a, x) < KeyAt(a, y) {
      assert r[x] == a[x] && r[y] == a[y];
      SortedLt(r, x, y);
    }
    forall x, y | 0 <= x < y < |b| ensures KeyAt(b, x) < KeyAt(b, y) {
      assert r[|a| + x] == b[x] && r[|a| + y] == b[y];
      SortedLt(r, |a| + x, |a| + y);
    }
    if |b| > 0 {
      forall i | 0 <= i < |a| ensures a[i].key < b[0].key {
        assert r[i] == a[i] && r[|a|] == b[0];
        SortedLt(r, i, |a|);
      }
    }
    if |a| > 0 {
      forall j | 0 <= j < |b| ensures a[|a| - 1].key < b[j].key {
        assert r[|a| - 1] == a[|a| - 1] && r[|a| + j] == b[j];
        SortedLt(r, |a| - 1, |a| + j);
      }
    }
  }
}
