/** The `interval_map<K, V>` container: a step function over integer keys,
    stored as a base value (the value below every breakpoint) and an ordered
    map of breakpoints, each meaning "from this key on, the value is this". */
module IntervalMaps {
  import opened SortedMap

  datatype IntervalMap<V> = IntervalMap(valBegin: V, entries: seq<Entry<V>>)

  /** The value of the last breakpoint, or `base` when there is none. */
  function LastValue<V>(base: V, m: seq<Entry<V>>): V {
    if |m| == 0 then base else m[|m| - 1].val
  }

  /** The representation invariant checked by the unit tests: the first stored
      value differs from the base, the last stored value equals the base, and
      no two neighbouring breakpoints hold the same value. Sortedness is what
      `std::map` itself guarantees. */
  predicate Valid<V(==)>(im: IntervalMap<V>) {
    var m := im.entries;
    && Sorted(m)
    && (|m| == 0 || m[0].val != im.valBegin)
    && (|m| == 0 || m[|m| - 1].val == im.valBegin)
    && (forall i :: 0 <= i < |m| - 1 ==> m[i].val != m[i + 1].val)
  }

  /** The weaker fact that the assign algorithm itself relies on: sorted, and
      the function returns to the base value after the last breakpoint. */
  predicate EndsAtBase<V(==)>(im: IntervalMap<V>) {
    Sorted(im.entries) && LastValue(im.valBegin, im.entries) == im.valBegin
  }

  /** The constructor: `val` over the whole key range. */
  function Empty<V>(val: V): (im: IntervalMap<V>)
    ensures im.valBegin == val && |im.entries| == 0
  {
    IntervalMap(val, [])
  }

  /** `operator[]`: the value of the greatest breakpoint at or below `key`, or
      the base value when every breakpoint lies above `key`. */
  function Lookup<V>(im: IntervalMap<V>, key: int): (r: V)
    requires Sorted(im.entries)
    ensures (forall i :: 0 <= i < |im.entries| ==> key < im.entries[i].key) ==> r == im.valBegin
    ensures forall i {:trigger im.entries[i]} :: 0 <= i < |im.entries| && im.entries[i].key <= key
                        && (i + 1 == |im.entries| || key < im.entries[i + 1].key)
                        ==> r == im.entries[i].val
  {
    UpperBoundAt(im.entries, key);
    var it := UpperBound(im.entries, key);
    if it == 0 then im.valBegin else im.entries[it - 1].val
  }

  /** A breakpoint at or below `key` whose successor lies above `key` sits
      just before `upper_bound(key)`. */
  lemma UpperBoundAt<V>(m: seq<Entry<V>>, key: int)
    requires Sorted(m)
    ensures forall i {:trigger m[i]} :: 0 <= i < |m| && m[i].key <= key && (i + 1 == |m| || key < m[i + 1].key)
                        ==> UpperBound(m, key) == i + 1
    ensures (forall i :: 0 <= i < |m| ==> key < m[i].key) ==> UpperBound(m, key) == 0
  {
    assert UpperBound(m, key) > 0 ==> m[0].key <= key;
    forall i {:trigger m[i]} | 0 <= i < |m| && m[i].key <= key && (i + 1 == |m| || key < m[i + 1].key)
      ensures UpperBound(m, key) == i + 1
    {
      UpperBoundAtOne(m, key, i);
    }
  }

  lemma UpperBoundAtOne<V>(m: seq<Entry<V>>, key: int, i: int)
    requires Sorted(m) && 0 <= i < |m| && m[i].key <= key && (i + 1 == |m| || key < m[i + 1].key)
    ensures UpperBound(m, key) == i + 1
  {
    SortedAround(m, i);
    assert forall j :: 0 <= j < i + 1 ==> m[j].key <= key;
    UpperBoundIs(m, key, i + 1);
  }

  /** The erase loop of `assign`, from the iterator `it` on: while the entry
      at the iterator is not above `keyEnd`, erase it (the iterator then
      denotes its successor), first recording its value in `valueForKeyEnd`
      when the successor is past `keyEnd` or absent. The result is where the
      loop stops, so the erased entries are those in `[it, stop)`, and the
      recorded value, which is that of the last erased entry. */
  function EraseLeading<V>(m: seq<Entry<V>>, it: nat, keyEnd: int, valueForKeyEnd: V): (r: (nat, V))
    requires it <= |m|
    ensures it <= r.0 <= |m|
    ensures forall j :: it <= j < r.0 ==> m[j].key <= keyEnd
    ensures r.0 < |m| ==> keyEnd < m[r.0].key
    ensures r.1 == (if r.0 == it then valueForKeyEnd else m[r.0 - 1].val)
    decreases |m| - it
  {
    if it < |m| && !(keyEnd < m[it].key) then
      var nextIsPast := it + 1 == |m| || keyEnd < m[it + 1].key;
      var v := if nextIsPast then m[it].val else valueForKeyEnd;
      EraseLeading(m, it + 1, keyEnd, v)
    else
      (it, valueForKeyEnd)
  }

  /** The tail shared by every branch of `assign` that reaches the erase loop:
      step past `keyBegin` if the iterator is still on it, then erase and close
      the range at `keyEnd`. */
  function FinishAssign<V(==)>(m: seq<Entry<V>>, it: nat, keyBegin: int, keyEnd: int, val: V, valueForKeyEnd: V)
    : (r: seq<Entry<V>>)
    requires Sorted(m)
    requires it <= |m|
    ensures Sorted(r)
  {
    var it' := if it < |m| && !(keyBegin < m[it].key) then it + 1 else it;
    EraseThenClose(m, it', keyEnd, val, valueForKeyEnd)
  }

  /** Erase the entries from `it` up to and including `keyEnd`, then re-insert
      at `keyEnd` the value that held there before, unless it equals `val`. */
  function EraseThenClose<V(==)>(m: seq<Entry<V>>, it: nat, keyEnd: int, val: V, valueForKeyEnd: V)
    : (r: seq<Entry<V>>)
    requires Sorted(m)
    requires it <= |m|
    ensures Sorted(r)
  {
    var (stop, v) := EraseLeading(m, it, keyEnd, valueForKeyEnd);
    SortedSplice(m, it, stop);
    var m' := m[..it] + m[stop..];
    if !(val == v) then Emplace(m', keyEnd, v) else m'
  }

  /** The end-collision situation of `assign`: no breakpoint in
      `[keyBegin, keyEnd)`, a breakpoint exactly at `keyEnd`, and a new value
      that differs from the one before `keyBegin`. `SameValue` adds that the
      breakpoint at `keyEnd` already holds `val`. */
  predicate EndCollision<V(==)>(im: IntervalMap<V>, keyBegin: int, keyEnd: int, val: V)
    requires Sorted(im.entries)
  {
    var m := im.entries;
    var it := LowerBound(m, keyBegin);
    && keyBegin < keyEnd
    && it < |m|
    && m[it].key == keyEnd
    && val != (if it == 0 then im.valBegin else m[it - 1].val)
  }

  predicate EndCollisionSameValue<V(==)>(im: IntervalMap<V>, keyBegin: int, keyEnd: int, val: V)
    requires Sorted(im.entries)
  {
    EndCollision(im, keyBegin, keyEnd, val) && im.entries[LowerBound(im.entries, keyBegin)].val == val
  }

  /** `assign(keyBegin, keyEnd, val)` as written: overwrite `[keyBegin, keyEnd)`
      with `val`. The branches follow the original one for one. */
  function Assign<V(==)>(im: IntervalMap<V>, keyBegin: int, keyEnd: int, val: V): (r: IntervalMap<V>)
    requires Sorted(im.entries)
    ensures Sorted(r.entries) && r.valBegin == im.valBegin
  {
    var m := im.entries;
    if !(keyBegin < keyEnd) then
      im
    else
      var it := LowerBound(m, keyBegin);
      if it == |m| then
        if val == im.valBegin then
          im
        else
          // no breakpoint at or after keyBegin
          IntervalMap(im.valBegin, Emplace(Emplace(m, keyBegin, val), keyEnd, im.valBegin))
      else
        var foundEntryAtKeyBegin := !(keyBegin < m[it].key) && !(m[it].key < keyBegin);
        var valueBeforeKeyBegin := if it == 0 then im.valBegin else m[it - 1].val;
        var valueForKeyEnd := if foundEntryAtKeyBegin then m[it].val else valueBeforeKeyBegin;
        if !(val == valueBeforeKeyBegin) then
          if !foundEntryAtKeyBegin then
            if keyEnd < m[it].key then
              // no breakpoint up to and including keyEnd
              IntervalMap(im.valBegin, Emplace(Emplace(m, keyBegin, val), keyEnd, valueBeforeKeyBegin))
            else if !(m[it].key < keyEnd) then
              // the first breakpoint from keyBegin on sits exactly at keyEnd
              IntervalMap(im.valBegin, Emplace(m, keyBegin, val))
            else
              IntervalMap(im.valBegin, FinishAssign(Emplace(m, keyBegin, val), it, keyBegin, keyEnd, val, valueForKeyEnd))
          else
            IntervalMap(im.valBegin, FinishAssign(SetValueAt(m, it, val), it, keyBegin, keyEnd, val, valueForKeyEnd))
        else if foundEntryAtKeyBegin then
          IntervalMap(im.valBegin, FinishAssign(EraseAt(m, it), it, keyBegin, keyEnd, val, valueForKeyEnd))
        else
          IntervalMap(im.valBegin, FinishAssign(m, it, keyBegin, keyEnd, val, valueForKeyEnd))
  }

  /** `assign` with the end-collision shortcut taken only when the
      breakpoint at `keyEnd` holds a value other than `val`; otherwise the call
      falls through to the general path, which erases that breakpoint. This is
      the only difference from `Assign`. */
  function AssignCanonical<V(==)>(im: IntervalMap<V>, keyBegin: int, keyEnd: int, val: V): (r: IntervalMap<V>)
    requires Sorted(im.entries)
    ensures Sorted(r.entries) && r.valBegin == im.valBegin
  {
    var m := im.entries;
    if !(keyBegin < keyEnd) then
      im
    else
      var it := LowerBound(m, keyBegin);
      if it == |m| then
        if val == im.valBegin then
          im
        else
          IntervalMap(im.valBegin, Emplace(Emplace(m, keyBegin, val), keyEnd, im.valBegin))
      else
        var foundEntryAtKeyBegin := !(keyBegin < m[it].key) && !(m[it].key < keyBegin);
        var valueBeforeKeyBegin := if it == 0 then im.valBegin else m[it - 1].val;
        var valueForKeyEnd := if foundEntryAtKeyBegin then m[it].val else valueBeforeKeyBegin;
        if !(val == valueBeforeKeyBegin) then
          if !foundEntryAtKeyBegin then
            if keyEnd < m[it].key then
              IntervalMap(im.valBegin, Emplace(Emplace(m, keyBegin, val), keyEnd, valueBeforeKeyBegin))
            else if !(m[it].key < keyEnd) && !(m[it].val == val) then
              IntervalMap(im.valBegin, Emplace(m, keyBegin, val))
            else
              IntervalMap(im.valBegin, FinishAssign(Emplace(m, keyBegin, val), it, keyBegin, keyEnd, val, valueForKeyEnd))
          else
            IntervalMap(im.valBegin, FinishAssign(SetValueAt(m, it, val), it, keyBegin, keyEnd, val, valueForKeyEnd))
        else if foundEntryAtKeyBegin then
          IntervalMap(im.valBegin, FinishAssign(EraseAt(m, it), it, keyBegin, keyEnd, val, valueForKeyEnd))
        else
          IntervalMap(im.valBegin, FinishAssign(m, it, keyBegin, keyEnd, val, valueForKeyEnd))
  }
}
