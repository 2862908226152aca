/** What `assign` computes, stated against an independent reference: the
    overwrite of `[keyBegin, keyEnd)` as a splice of the breakpoint sequence.
    The splice keeps every breakpoint below `keyBegin` and above `keyEnd`,
    drops the ones in between, and adds a breakpoint at `keyBegin` (when the
    value changes there) and one at `keyEnd` restoring the previous value
    (when it differs from the new one). */
module IntervalMapProofs {
  import opened SortedMap
  import opened IntervalMaps

  // ---------------------------------------------------------------------
  // Lookup over concatenations
  // ---------------------------------------------------------------------

  lemma LastValueConcat<V>(base: V, a: seq<Entry<V>>, b: seq<Entry<V>>)
    ensures LastValue(base, a + b) == LastValue(LastValue(base, a), b)
  {
    if |b| > 0 {
      assert (a + b)[|a + b| - 1] == b[|b| - 1];
    } else {
      assert a + b == a;
    }
  }

  /** A lookup below every breakpoint yields the base value. */
  lemma LookupBelowAll<V>(base: V, m: seq<Entry<V>>, k: int)
    requires Sorted(m)
    requires |m| == 0 || k < m[0].key
    ensures Lookup(IntervalMap(base, m), k) == base
  {
    if |m| > 0 {
      SortedAround(m, 0);
    }
  }

  /** A lookup at or above every breakpoint yields the last value. */
  lemma LookupAboveAll<V>(base: V, m: seq<Entry<V>>, k: int)
    requires Sorted(m)
    requires forall i :: 0 <= i < |m| ==> m[i].key <= k
    ensures Lookup(IntervalMap(base, m), k) == LastValue(base, m)
  {
  }

  /** Looking up in a concatenation: the right part decides once the key has
      reached its first breakpoint, with the left part's last value as its
      base; otherwise the left part alone decides. */
  lemma LookupConcat<V>(base: V, a: seq<Entry<V>>, b: seq<Entry<V>>, k: int)
    requires Sorted(a + b)
    ensures Sorted(a) && Sorted(b)
    ensures Lookup(IntervalMap(base, a + b), k)
         == if |b| > 0 && b[0].key <= k then Lookup(IntervalMap(LastValue(base, a), b), k)
            else Lookup(IntervalMap(base, a), k)
  {
    SortedParts(a, b);
    var ab := a + b;
    if |b| > 0 && b[0].key <= k {
      var u := UpperBound(b, k);
      assert u >= 1;
      assert ab[|a| + u - 1] == b[u - 1];
      assert |a| + u < |ab| ==> ab[|a| + u] == b[u];
    } else {
      var u := UpperBound(a, k);
      if u == 0 {
        if |a| > 0 {
          LookupBelowAll(base, ab, k);
          LookupBelowAll(base, a, k);
        } else {
          assert ab == b;
          LookupBelowAll(base, b, k);
        }
      } else {
        assert ab[u - 1] == a[u - 1];
        assert u < |a| ==> ab[u] == a[u];
        assert u == |a| && u < |ab| ==> ab[u] == b[0];
      }
    }
  }

  // ---------------------------------------------------------------------
  // The reference overwrite
  // ---------------------------------------------------------------------

  /** The breakpoints that an overwrite of `[keyBegin, keyEnd)` with `val`
      puts between the untouched parts: one at `keyBegin` unless `val`
      continues the value before it, one at `keyEnd` restoring the previous
      value unless that is `val` already. */
  function Middle<V(==)>(keyBegin: int, keyEnd: int, val: V, before: V, after: V): seq<Entry<V>> {
    (if val != before then [Entry(keyBegin, val)] else [])
    + (if val != after then [Entry(keyEnd, after)] else [])
  }

  /** The value just before `keyBegin`: that of the last breakpoint below it. */
  function ValueBefore<V>(im: IntervalMap<V>, keyBegin: int): V {
    var p := LowerBound(im.entries, keyBegin);
    if p == 0 then im.valBegin else im.entries[p - 1].val
  }

  /** The shape every splice has: `a` below `keyBegin`, `b` (the overwritten
      breakpoints) within `[keyBegin, keyEnd]`, `d` above `keyEnd`. */
  ghost predicate SpliceShape<V>(a: seq<Entry<V>>, b: seq<Entry<V>>, d: seq<Entry<V>>, keyBegin: int, keyEnd: int) {
    && keyBegin < keyEnd
    && (forall i :: 0 <= i < |a| ==> a[i].key < keyBegin)
    && (forall i :: 0 <= i < |b| ==> keyBegin <= b[i].key <= keyEnd)
    && (forall i :: 0 <= i < |d| ==> keyEnd < d[i].key)
  }

  /** The reference: the canonical overwrite of `[keyBegin, keyEnd)`. */
  function Overwrite<V(==)>(im: IntervalMap<V>, keyBegin: int, keyEnd: int, val: V): (r: IntervalMap<V>)
    requires Sorted(im.entries)
    requires keyBegin < keyEnd
    ensures r.valBegin == im.valBegin
    ensures Sorted(r.entries)
  {
    var m := im.entries;
    var p := LowerBound(m, keyBegin);
    var q := UpperBound(m, keyEnd);
    var before := ValueBefore(im, keyBegin);
    var after := Lookup(im, keyEnd);
    var mid := Middle(keyBegin, keyEnd, val, before, after);
    SlicesShape(m, keyBegin, keyEnd);
    SlicesSorted(m, p, q);
    MiddleShape(m[..p], m[p..q], m[q..], keyBegin, keyEnd, val, before, after);
    SpliceSorted(m[..p], mid, m[q..], keyBegin, keyEnd);
    IntervalMap(im.valBegin, m[..p] + mid + m[q..])
  }

  /** The slices of a sorted map around `[keyBegin, keyEnd]` have the splice
      shape. */
  lemma SlicesShape<V>(m: seq<Entry<V>>, keyBegin: int, keyEnd: int)
    requires Sorted(m) && keyBegin < keyEnd
    ensures var p := LowerBound(m, keyBegin);
            var q := UpperBound(m, keyEnd);
            && p <= q
            && SpliceShape(m[..p], m[p..q], m[q..], keyBegin, keyEnd)
            && m == (m[..p] + m[p..q]) + m[q..]
  {
    var p := LowerBound(m, keyBegin);
    var q := UpperBound(m, keyEnd);
    AboveLowerBound(m, keyBegin);
    AboveUpperBound(m, keyEnd);
    assert p <= q;
    PrefixKeys(m, p, keyBegin);
    MiddleKeys(m, p, q, keyBegin, keyEnd);
    SuffixKeys(m, q, keyEnd);
    ThreeSlices(m, p, q);
  }

  lemma PrefixKeys<V>(m: seq<Entry<V>>, p: nat, k: int)
    requires p <= |m| && forall i :: 0 <= i < p ==> m[i].key < k
    ensures forall i :: 0 <= i < |m[..p]| ==> m[..p][i].key < k
  {
  }

  lemma MiddleKeys<V>(m: seq<Entry<V>>, p: nat, q: nat, lo: int, hi: int)
    requires p <= q <= |m|
    requires forall i :: p <= i < |m| ==> lo <= m[i].key
    requires forall i :: 0 <= i < q ==> m[i].key <= hi
    ensures forall i :: 0 <= i < |m[p..q]| ==> lo <= m[p..q][i].key <= hi
  {
  }

  lemma SuffixKeys<V>(m: seq<Entry<V>>, q: nat, k: int)
    requires q <= |m| && forall i :: q <= i < |m| ==> k < m[i].key
    ensures forall i :: 0 <= i < |m[q..]| ==> k < m[q..][i].key
  {
  }

  lemma ThreeSlices<V>(m: seq<Entry<V>>, p: nat, q: nat)
    requires p <= q <= |m|
    ensures m == (m[..p] + m[p..q]) + m[q..]
  {
    assert m[..p] + m[p..q] == m[..q];
  }

  lemma SlicesSorted<V>(m: seq<Entry<V>>, p: nat, q: nat)
    requires Sorted(m) && p <= q <= |m|
    ensures Sorted(m[..p]) && Sorted(m[q..])
  {
    SortedCut(m, p);
    SortedCut(m, q);
  }

  lemma SortedCut<V>(m: seq<Entry<V>>, p: nat)
    requires Sorted(m) && p <= |m|
    ensures Sorted(m[..p]) && Sorted(m[p..])
  {
    assert m == m[..p] + m[p..];
    SortedParts(m[..p], m[p..]);
  }

  /** The middle stays within `[keyBegin, keyEnd]` and, taken after `a`, ends
      on the value `b` ended on. */
  lemma MiddleShape<V>(a: seq<Entry<V>>, b: seq<Entry<V>>, d: seq<Entry<V>>,
                       keyBegin: int, keyEnd: int, val: V, before: V, after: V)
    requires SpliceShape(a, b, d, keyBegin, keyEnd)
    ensures SpliceShape(a, Middle(keyBegin, keyEnd, val, before, after), d, keyBegin, keyEnd)
    ensures LastValue(before, Middle(keyBegin, keyEnd, val, before, after)) == after
    ensures var mid := Middle(keyBegin, keyEnd, val, before, after);
            |mid| <= 2 && (|mid| == 2 ==> mid[0].key < mid[1].key)
  {
  }

  /** Sorted outer parts around a middle within `[keyBegin, keyEnd]` make a
      sorted splice. */
  lemma SpliceSorted<V>(a: seq<Entry<V>>, mid: seq<Entry<V>>, d: seq<Entry<V>>, keyBegin: int, keyEnd: int)
    requires Sorted(a) && Sorted(d)
    requires SpliceShape(a, mid, d, keyBegin, keyEnd)
    requires |mid| <= 2 && (|mid| == 2 ==> mid[0].key < mid[1].key)
    ensures Sorted((a + mid) + d)
  {
    assert Sorted(mid) by {
      if |mid| == 2 {
        assert KeyAt(mid, 0) < KeyAt(mid, 1);
      }
    }
    SortedConcat(a, mid);
    assert |a + mid| == 0 || |d| == 0 || (a + mid)[|a + mid| - 1].key < d[0].key by {
      if |mid| > 0 {
        assert (a + mid)[|a + mid| - 1] == mid[|mid| - 1];
      } else if |a| > 0 {
        assert (a + mid)[|a + mid| - 1] == a[|a| - 1];
      }
    }
    SortedConcat(a + mid, d);
  }

  /** The values at the seams of the slices. */
  lemma SliceValues<V>(im: IntervalMap<V>, keyBegin: int, keyEnd: int)
    requires Sorted(im.entries) && keyBegin < keyEnd
    requires LowerBound(im.entries, keyBegin) <= UpperBound(im.entries, keyEnd)
    ensures var m := im.entries;
            var p := LowerBound(m, keyBegin);
            var q := UpperBound(m, keyEnd);
            && LastValue(im.valBegin, m[..p]) == ValueBefore(im, keyBegin)
            && LastValue(im.valBegin, m[..p] + m[p..q]) == Lookup(im, keyEnd)
  {
    var m := im.entries;
    var p := LowerBound(m, keyBegin);
    var q := UpperBound(m, keyEnd);
    assert p == 0 || m[..p][p - 1] == m[p - 1];
    assert m[..p] + m[p..q] == m[..q];
    assert q == 0 || m[..q][q - 1] == m[q - 1];
  }

  /** The reference as a splice of abstract pieces: `a` the breakpoints below
      `keyBegin`, `b` those within `[keyBegin, keyEnd]`, `d` those above
      `keyEnd`, and `mid` what replaces `b`. */
  lemma OverwriteParts<V>(im: IntervalMap<V>, keyBegin: int, keyEnd: int, val: V)
    returns (a: seq<Entry<V>>, b: seq<Entry<V>>, mid: seq<Entry<V>>, d: seq<Entry<V>>)
    requires Sorted(im.entries) && keyBegin < keyEnd
    ensures a == im.entries[..LowerBound(im.entries, keyBegin)]
    ensures d == im.entries[UpperBound(im.entries, keyEnd)..]
    ensures im.entries == (a + b) + d
    ensures Overwrite(im, keyBegin, keyEnd, val).entries == (a + mid) + d
    ensures Sorted((a + b) + d) && Sorted((a + mid) + d)
    ensures SpliceShape(a, b, d, keyBegin, keyEnd) && SpliceShape(a, mid, d, keyBegin, keyEnd)
    ensures LastValue(im.valBegin, a) == ValueBefore(im, keyBegin)
    ensures LastValue(im.valBegin, a + b) == Lookup(im, keyEnd)
    ensures mid == Middle(keyBegin, keyEnd, val, LastValue(im.valBegin, a), LastValue(im.valBegin, a + b))
    ensures LastValue(im.valBegin, a + mid) == LastValue(im.valBegin, a + b)
  {
    var m := im.entries;
    var p := LowerBound(m, keyBegin);
    var q := UpperBound(m, keyEnd);
    var before := ValueBefore(im, keyBegin);
    var after := Lookup(im, keyEnd);
    SlicesShape(m, keyBegin, keyEnd);
    a, b, d := m[..p], m[p..q], m[q..];
    mid := Middle(keyBegin, keyEnd, val, before, after);
    SliceValues(im, keyBegin, keyEnd);
    MiddleShape(a, b, d, keyBegin, keyEnd, val, before, after);
    LastValueConcat(im.valBegin, a, mid);
  }

  // ---------------------------------------------------------------------
  // Lookups in a splice
  // ---------------------------------------------------------------------

  lemma SpliceLookupRight<V>(base: V, a: seq<Entry<V>>, b: seq<Entry<V>>, mid: seq<Entry<V>>, d: seq<Entry<V>>, k: int)
    requires Sorted((a + b) + d) && Sorted((a + mid) + d)
    requires LastValue(base, a + mid) == LastValue(base, a + b)
    requires |d| > 0 && d[0].key <= k
    ensures Lookup(IntervalMap(base, (a + mid) + d), k) == Lookup(IntervalMap(base, (a + b) + d), k)
  {
    LookupConcat(base, a + b, d, k);
    LookupConcat(base, a + mid, d, k);
  }

  lemma SpliceLookupAbove<V>(base: V, a: seq<Entry<V>>, b: seq<Entry<V>>, mid: seq<Entry<V>>, d: seq<Entry<V>>,
                             keyBegin: int, keyEnd: int, k: int)
    requires Sorted((a + b) + d) && Sorted((a + mid) + d)
    requires SpliceShape(a, b, d, keyBegin, keyEnd) && SpliceShape(a, mid, d, keyBegin, keyEnd)
    requires LastValue(base, a + mid) == LastValue(base, a + b)
    requires keyEnd <= k && !(|d| > 0 && d[0].key <= k)
    ensures Lookup(IntervalMap(base, (a + mid) + d), k) == Lookup(IntervalMap(base, (a + b) + d), k)
  {
    LookupConcat(base, a + b, d, k);
    LookupConcat(base, a + mid, d, k);
    ShapeKeysUpTo(a, b, d, keyBegin, keyEnd, k);
    ShapeKeysUpTo(a, mid, d, keyBegin, keyEnd, k);
    LookupAboveAll(base, a + b, k);
    LookupAboveAll(base, a + mid, k);
  }

  /** Below the right part of a splice every key is at most `keyEnd`. */
  lemma ShapeKeysUpTo<V>(a: seq<Entry<V>>, b: seq<Entry<V>>, d: seq<Entry<V>>, keyBegin: int, keyEnd: int, k: int)
    requires SpliceShape(a, b, d, keyBegin, keyEnd) && keyEnd <= k
    ensures forall i :: 0 <= i < |a + b| ==> (a + b)[i].key <= k
  {
    forall i | 0 <= i < |a + b| ensures (a + b)[i].key <= k {
      if i < |a| {
        assert (a + b)[i] == a[i];
      } else {
        assert (a + b)[i] == b[i - |a|];
      }
    }
  }

  lemma SpliceLookupBelow<V>(base: V, a: seq<Entry<V>>, b: seq<Entry<V>>, mid: seq<Entry<V>>, d: seq<Entry<V>>,
                             keyBegin: int, keyEnd: int, k: int)
    requires Sorted((a + b) + d) && Sorted((a + mid) + d)
    requires SpliceShape(a, b, d, keyBegin, keyEnd) && SpliceShape(a, mid, d, keyBegin, keyEnd)
    requires k < keyBegin
    ensures Lookup(IntervalMap(base, (a + mid) + d), k) == Lookup(IntervalMap(base, (a + b) + d), k)
  {
    LookupConcat(base, a + b, d, k);
    LookupConcat(base, a + mid, d, k);
    LookupConcat(base, a, b, k);
    LookupConcat(base, a, mid, k);
  }

  lemma SpliceLookupInside<V>(base: V, a: seq<Entry<V>>, mid: seq<Entry<V>>, d: seq<Entry<V>>,
                              keyBegin: int, keyEnd: int, val: V, after: V, k: int)
    requires Sorted((a + mid) + d)
    requires SpliceShape(a, mid, d, keyBegin, keyEnd)
    requires mid == Middle(keyBegin, keyEnd, val, LastValue(base, a), after)
    requires keyBegin <= k < keyEnd
    ensures Lookup(IntervalMap(base, (a + mid) + d), k) == val
  {
    LookupConcat(base, a + mid, d, k);
    MiddleLookup(base, a, mid, keyBegin, keyEnd, val, after, k);
  }

  lemma MiddleLookup<V>(base: V, a: seq<Entry<V>>, mid: seq<Entry<V>>,
                        keyBegin: int, keyEnd: int, val: V, after: V, k: int)
    requires Sorted(a + mid)
    requires forall i :: 0 <= i < |a| ==> a[i].key < keyBegin
    requires mid == Middle(keyBegin, keyEnd, val, LastValue(base, a), after)
    requires keyBegin <= k < keyEnd
    ensures Lookup(IntervalMap(base, a + mid), k) == val
  {
    var tail := if val != after then [Entry(keyEnd, after)] else [];
    if val != LastValue(base, a) {
      var e := Entry(keyBegin, val);
      assert a + mid == (a + [e]) + tail;
      StartsAtNewValue(base, a, e, tail, k);
    } else {
      assert mid == tail;
      LookupConcat(base, a, tail, k);
      LookupAboveAll(base, a, k);
    }
  }

  lemma StartsAtNewValue<V>(base: V, a: seq<Entry<V>>, e: Entry<V>, tail: seq<Entry<V>>, k: int)
    requires Sorted((a + [e]) + tail)
    requires forall i :: 0 <= i < |a| ==> a[i].key < e.key
    requires e.key <= k
    requires |tail| == 0 || k < tail[0].key
    ensures Lookup(IntervalMap(base, (a + [e]) + tail), k) == e.val
  {
    LookupConcat(base, a + [e], tail, k);
    LookupAboveAll(base, a + [e], k);
  }

  /** Pointwise meaning of a splice: `val` inside `[keyBegin, keyEnd)`, the
      spliced map everywhere else. */
  lemma SplicePointwise<V>(base: V, a: seq<Entry<V>>, b: seq<Entry<V>>, mid: seq<Entry<V>>, d: seq<Entry<V>>,
                           keyBegin: int, keyEnd: int, val: V, k: int)
    requires Sorted((a + b) + d) && Sorted((a + mid) + d)
    requires SpliceShape(a, b, d, keyBegin, keyEnd) && SpliceShape(a, mid, d, keyBegin, keyEnd)
    requires mid == Middle(keyBegin, keyEnd, val, LastValue(base, a), LastValue(base, a + b))
    requires LastValue(base, a + mid) == LastValue(base, a + b)
    ensures Lookup(IntervalMap(base, (a + mid) + d), k)
         == if keyBegin <= k < keyEnd then val else Lookup(IntervalMap(base, (a + b) + d), k)
  {
    if |d| > 0 && d[0].key <= k {
      SpliceLookupRight(base, a, b, mid, d, k);
    } else if keyEnd <= k {
      SpliceLookupAbove(base, a, b, mid, d, keyBegin, keyEnd, k);
    } else if k < keyBegin {
      SpliceLookupBelow(base, a, b, mid, d, keyBegin, keyEnd, k);
    } else {
      SpliceLookupInside(base, a, mid, d, keyBegin, keyEnd, val, LastValue(base, a + b), k);
    }
  }

  /** Pointwise meaning of the reference: `val` inside `[keyBegin, keyEnd)`,
      the previous function everywhere else. */
  lemma OverwritePointwise<V>(im: IntervalMap<V>, keyBegin: int, keyEnd: int, val: V, k: int)
    requires Sorted(im.entries) && keyBegin < keyEnd
    ensures Lookup(Overwrite(im, keyBegin, keyEnd, val), k)
         == if keyBegin <= k < keyEnd then val else Lookup(im, k)
  {
    var a, b, mid, d := OverwriteParts(im, keyBegin, keyEnd, val);
    SplicePointwise(im.valBegin, a, b, mid, d, keyBegin, keyEnd, val, k);
    assert Overwrite(im, keyBegin, keyEnd, val) == IntervalMap(im.valBegin, (a + mid) + d);
    assert im == IntervalMap(im.valBegin, (a + b) + d);
  }

  // ---------------------------------------------------------------------
  // Canonical form
  // ---------------------------------------------------------------------

  /** No breakpoint repeats the value in force just before it: the first
      differs from `base`, each later one from its predecessor. */
  predicate NoRepeat<V(==)>(base: V, m: seq<Entry<V>>) {
    && (|m| == 0 || m[0].val != base)
    && (forall i :: 0 <= i < |m| - 1 ==> m[i].val != m[i + 1].val)
  }

  /** `Valid` is sortedness, no repeated value, and a return to the base. */
  lemma ValidIff<V>(im: IntervalMap<V>)
    ensures Valid(im) <==> Sorted(im.entries) && NoRepeat(im.valBegin, im.entries)
                           && LastValue(im.valBegin, im.entries) == im.valBegin
  {
  }

  lemma NoRepeatConcat<V>(base: V, a: seq<Entry<V>>, b: seq<Entry<V>>)
    ensures NoRepeat(base, a + b) <==> NoRepeat(base, a) && NoRepeat(LastValue(base, a), b)
  {
    var ab := a + b;
    if NoRepeat(base, ab) {
      forall i | 0 <= i < |a| - 1 ensures a[i].val != a[i + 1].val {
        assert ab[i] == a[i] && ab[i + 1] == a[i + 1];
      }
      forall i | 0 <= i < |b| - 1 ensures b[i].val != b[i + 1].val {
        assert ab[|a| + i] == b[i] && ab[|a| + i + 1] == b[i + 1];
      }
      if |b| > 0 && |a| > 0 {
        assert ab[|a| - 1] == a[|a| - 1] && ab[|a|] == b[0];
      }
      if |a| == 0 {
        assert ab == b;
      } else {
        assert ab[0] == a[0];
      }
    }
    if NoRepeat(base, a) && NoRepeat(LastValue(base, a), b) {
      forall i | 0 <= i < |ab| - 1 ensures ab[i].val != ab[i + 1].val {
        if i + 1 < |a| {
          assert ab[i] == a[i] && ab[i + 1] == a[i + 1];
        } else if i + 1 == |a| {
          assert ab[i] == a[i] && ab[i + 1] == b[0];
        } else {
          assert ab[i] == b[i - |a|] && ab[i + 1] == b[i - |a| + 1];
        }
      }
      if |a| == 0 {
        assert ab == b;
      } else {
        assert ab[0] == a[0];
      }
    }
  }

  /** The middle of the splice repeats nothing. */
  lemma MiddleNoRepeat<V>(keyBegin: int, keyEnd: int, val: V, before: V, after: V)
    ensures NoRepeat(before, Middle(keyBegin, keyEnd, val, before, after))
  {
  }

  /** Replacing `b` by the middle keeps both the absence of repeats and the
      final value. */
  lemma SpliceKeepsCanonical<V>(base: V, a: seq<Entry<V>>, b: seq<Entry<V>>, mid: seq<Entry<V>>, d: seq<Entry<V>>,
                                keyBegin: int, keyEnd: int, val: V)
    requires mid == Middle(keyBegin, keyEnd, val, LastValue(base, a), LastValue(base, a + b))
    requires LastValue(base, a + mid) == LastValue(base, a + b)
    ensures LastValue(base, (a + mid) + d) == LastValue(base, (a + b) + d)
    ensures NoRepeat(base, (a + b) + d) ==> NoRepeat(base, (a + mid) + d)
  {
    LastValueConcat(base, a + b, d);
    LastValueConcat(base, a + mid, d);
    NoRepeatConcat(base, a + b, d);
    NoRepeatConcat(base, a, b);
    MiddleNoRepeat(keyBegin, keyEnd, val, LastValue(base, a), LastValue(base, a + b));
    NoRepeatConcat(base, a, mid);
    NoRepeatConcat(base, a + mid, d);
  }

  /** The reference overwrite returns to the base after its last breakpoint
      whenever the map did. */
  lemma OverwriteEndsAtBase<V>(im: IntervalMap<V>, keyBegin: int, keyEnd: int, val: V)
    requires EndsAtBase(im) && keyBegin < keyEnd
    ensures EndsAtBase(Overwrite(im, keyBegin, keyEnd, val))
  {
    var a, b, mid, d := OverwriteParts(im, keyBegin, keyEnd, val);
    SpliceKeepsCanonical(im.valBegin, a, b, mid, d, keyBegin, keyEnd, val);
  }

  /** The reference overwrite keeps a map in canonical form. */
  lemma OverwriteValid<V>(im: IntervalMap<V>, keyBegin: int, keyEnd: int, val: V)
    requires Valid(im) && keyBegin < keyEnd
    ensures Valid(Overwrite(im, keyBegin, keyEnd, val))
  {
    ValidIff(im);
    var a, b, mid, d := OverwriteParts(im, keyBegin, keyEnd, val);
    SpliceKeepsCanonical(im.valBegin, a, b, mid, d, keyBegin, keyEnd, val);
    ValidIff(Overwrite(im, keyBegin, keyEnd, val));
  }
}
