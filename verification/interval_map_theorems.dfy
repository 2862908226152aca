/** The properties `assign` and `operator[]` promise, for the variant as
    written and for the corrected one: pointwise correctness, the frame, the
    representation invariant, and the situation in which the variant as
    written leaves a redundant breakpoint behind. */
module IntervalMapTheorems {
  import opened SortedMap
  import opened IntervalMaps
  import opened IntervalMapProofs
  import opened AssignProofs

  // ---------------------------------------------------------------------
  // The redundant breakpoint left by the end-collision shortcut
  // ---------------------------------------------------------------------

  /** A breakpoint that repeats the value already in force changes no lookup. */
  lemma RedundantLookup<V>(base: V, x: seq<Entry<V>>, e: Entry<V>, y: seq<Entry<V>>, k: int)
    requires Sorted((x + [e]) + y)
    requires LastValue(base, x) == e.val
    ensures Sorted(x + y)
    ensures Lookup(IntervalMap(base, (x + [e]) + y), k) == Lookup(IntervalMap(base, x + y), k)
  {
    assert Sorted(x + y) && Sorted(x + [e]) by {
      SortedParts(x + [e], y);
      SortedParts(x, [e]);
      if |y| > 0 && |x| > 0 {
        assert x[|x| - 1].key < e.key;
      }
      SortedConcat(x, y);
    }
    LookupConcat(base, x + [e], y, k);
    LookupConcat(base, x, y, k);
    LastValueConcat(base, x, [e]);
    LookupConcat(base, x, [e], k);
    if e.key <= k {
      SortedParts(x, [e]);
      LookupAboveAll(base, x, k);
    }
  }

  /** The shape of the result when the end-collision shortcut meets a
      breakpoint at `keyEnd` that already holds `val`: the reference
      overwrite with that breakpoint left in place right after the new one. */
  lemma SameValueCollisionShape<V>(im: IntervalMap<V>, keyBegin: int, keyEnd: int, val: V)
    returns (x: seq<Entry<V>>, y: seq<Entry<V>>)
    requires Sorted(im.entries)
    requires EndCollisionSameValue(im, keyBegin, keyEnd, val)
    ensures var it := LowerBound(im.entries, keyBegin);
            && Assign(im, keyBegin, keyEnd, val).entries == (x + [im.entries[it]]) + y
            && Overwrite(im, keyBegin, keyEnd, val).entries == x + y
            && |x| > 0 && x[|x| - 1] == Entry(keyBegin, val)
            && im.entries[it] == Entry(keyEnd, val)
  {
    var m := im.entries;
    var it := LowerBound(m, keyBegin);
    var e1 := Entry(keyBegin, val);
    OverwriteIs(im, keyBegin, keyEnd, val);
    AfterAbove(m, it);
    UpperBoundAtOne(m, keyEnd, it);
    assert Middle(keyBegin, keyEnd, val, ValueBefore(im, keyBegin), Lookup(im, keyEnd)) == [e1];
    EmplaceSplit(m, keyBegin, val);
    AssignSameValueCollision(im, keyBegin, keyEnd, val);
    x, y := m[..it] + [e1], m[it + 1..];
    KeepNext(x, m, it);
  }

  /** The breakpoint at `i`, kept after a prefix. */
  lemma KeepNext<V>(x: seq<Entry<V>>, m: seq<Entry<V>>, i: nat)
    requires i < |m|
    ensures x + m[i..] == (x + [m[i]]) + m[i + 1..]
  {
    assert m[i..] == [m[i]] + m[i + 1..];
  }

  /** The end-collision shortcut with a breakpoint at `keyEnd` that
      already holds `val` leaves two neighbouring breakpoints with the same
      value, so the result violates the representation invariant. */
  lemma AssignSameValueCollisionNotValid<V>(im: IntervalMap<V>, keyBegin: int, keyEnd: int, val: V)
    requires Sorted(im.entries)
    requires EndCollisionSameValue(im, keyBegin, keyEnd, val)
    ensures !Valid(Assign(im, keyBegin, keyEnd, val))
  {
    var x, y := SameValueCollisionShape(im, keyBegin, keyEnd, val);
    var r := Assign(im, keyBegin, keyEnd, val).entries;
    var n := |x|;
    assert r[n - 1] == Entry(keyBegin, val) && r[n] == Entry(keyEnd, val);
  }

  // ---------------------------------------------------------------------
  // Pointwise correctness
  // ---------------------------------------------------------------------

  /** `assign` as written overwrites exactly `[keyBegin, keyEnd)`: afterwards
      every key in the range maps to `val` and every other key keeps its value.
      This holds even where the result is not in canonical form. */
  lemma AssignPointwise<V>(im: IntervalMap<V>, keyBegin: int, keyEnd: int, val: V, k: int)
    requires EndsAtBase(im)
    ensures Lookup(Assign(im, keyBegin, keyEnd, val), k)
         == if keyBegin <= k < keyEnd then val else Lookup(im, k)
  {
    if keyBegin < keyEnd {
      OverwritePointwise(im, keyBegin, keyEnd, val, k);
      if EndCollisionSameValue(im, keyBegin, keyEnd, val) {
        var x, y := SameValueCollisionShape(im, keyBegin, keyEnd, val);
        var e := im.entries[LowerBound(im.entries, keyBegin)];
        assert LastValue(im.valBegin, x) == e.val;
        RedundantLookup(im.valBegin, x, e, y, k);
      } else {
        AssignAgrees(im, keyBegin, keyEnd, val);
        AssignCanonicalIsOverwrite(im, keyBegin, keyEnd, val);
      }
    }
  }

  /** Why `AssignPointwise` asks for `EndsAtBase`: the branch for a range past
      every breakpoint treats the base value as the value in force there, so
      on a map whose last breakpoint holds another value, assigning the base
      value past it changes nothing and the range keeps the old value. */
  lemma AssignPointwiseNeedsEndsAtBase()
    ensures !EndsAtBase(IntervalMap('A', [Entry(0, 'B')]))
    ensures Lookup(Assign(IntervalMap('A', [Entry(0, 'B')]), 5, 10, 'A'), 5) == 'B'
  {
    assert LowerBound([Entry(0, 'B')], 5) == 1;
    assert UpperBound([Entry(0, 'B')], 5) == 1;
  }

  /** Away from the same-value collision, `assign` as written builds exactly
      the reference splice `Overwrite`, breakpoint for breakpoint. */
  lemma AssignIsOverwrite<V>(im: IntervalMap<V>, keyBegin: int, keyEnd: int, val: V)
    requires EndsAtBase(im) && keyBegin < keyEnd
    requires !EndCollisionSameValue(im, keyBegin, keyEnd, val)
    ensures Assign(im, keyBegin, keyEnd, val) == Overwrite(im, keyBegin, keyEnd, val)
  {
    AssignAgrees(im, keyBegin, keyEnd, val);
    AssignCanonicalIsOverwrite(im, keyBegin, keyEnd, val);
  }

  /** The corrected `assign` overwrites exactly `[keyBegin, keyEnd)`. */
  lemma AssignCanonicalPointwise<V>(im: IntervalMap<V>, keyBegin: int, keyEnd: int, val: V, k: int)
    requires EndsAtBase(im)
    ensures Lookup(AssignCanonical(im, keyBegin, keyEnd, val), k)
         == if keyBegin <= k < keyEnd then val else Lookup(im, k)
  {
    if keyBegin < keyEnd {
      OverwritePointwise(im, keyBegin, keyEnd, val, k);
      AssignCanonicalIsOverwrite(im, keyBegin, keyEnd, val);
    }
  }

  // ---------------------------------------------------------------------
  // The representation invariant
  // ---------------------------------------------------------------------

  /** Both variants keep the function returning to its base value after the
      last breakpoint, which is all the pointwise result needs. */
  lemma AssignEndsAtBase<V>(im: IntervalMap<V>, keyBegin: int, keyEnd: int, val: V)
    requires EndsAtBase(im)
    ensures EndsAtBase(Assign(im, keyBegin, keyEnd, val))
    ensures EndsAtBase(AssignCanonical(im, keyBegin, keyEnd, val))
  {
    if keyBegin < keyEnd {
      OverwriteEndsAtBase(im, keyBegin, keyEnd, val);
      AssignCanonicalIsOverwrite(im, keyBegin, keyEnd, val);
      if EndCollisionSameValue(im, keyBegin, keyEnd, val) {
        var x, y := SameValueCollisionShape(im, keyBegin, keyEnd, val);
        var e := im.entries[LowerBound(im.entries, keyBegin)];
        LastValueConcat(im.valBegin, x + [e], y);
        LastValueConcat(im.valBegin, x, y);
      } else {
        AssignAgrees(im, keyBegin, keyEnd, val);
      }
    }
  }

  /** The corrected `assign` preserves the representation invariant. */
  lemma AssignCanonicalPreservesValid<V>(im: IntervalMap<V>, keyBegin: int, keyEnd: int, val: V)
    requires Valid(im)
    ensures Valid(AssignCanonical(im, keyBegin, keyEnd, val))
  {
    if keyBegin < keyEnd {
      OverwriteValid(im, keyBegin, keyEnd, val);
      AssignCanonicalIsOverwrite(im, keyBegin, keyEnd, val);
    }
  }

  /** `assign` as written preserves the representation invariant exactly when
      it does not meet a breakpoint at `keyEnd` that already holds `val`. */
  lemma AssignPreservesValid<V>(im: IntervalMap<V>, keyBegin: int, keyEnd: int, val: V)
    requires Valid(im)
    ensures Valid(Assign(im, keyBegin, keyEnd, val)) <==> !EndCollisionSameValue(im, keyBegin, keyEnd, val)
  {
    if EndCollisionSameValue(im, keyBegin, keyEnd, val) {
      AssignSameValueCollisionNotValid(im, keyBegin, keyEnd, val);
    } else {
      AssignAgrees(im, keyBegin, keyEnd, val);
      AssignCanonicalPreservesValid(im, keyBegin, keyEnd, val);
    }
  }

  // ---------------------------------------------------------------------
  // Canonical forms are unique, so the corrected `assign` is idempotent
  // ---------------------------------------------------------------------

  /** Looking up at or above the first breakpoint is looking up in the rest of
      the map, with the first breakpoint's value as the base. */
  lemma TailLookup<V>(base: V, m: seq<Entry<V>>, k: int)
    requires Sorted(m) && |m| > 0 && m[0].key <= k
    ensures Sorted(m[1..])
    ensures Lookup(IntervalMap(base, m), k) == Lookup(IntervalMap(m[0].val, m[1..]), k)
  {
    assert m == [m[0]] + m[1..];
    LookupConcat(base, [m[0]], m[1..], k);
    if !(|m| > 1 && m[1].key <= k) {
      LookupBelowAll(m[0].val, m[1..], k);
    }
  }

  /** A lookup exactly at a breakpoint yields that breakpoint's value. */
  lemma LookupAtBreakpoint<V>(base: V, m: seq<Entry<V>>, i: nat)
    requires Sorted(m) && i < |m|
    ensures Lookup(IntervalMap(base, m), m[i].key) == m[i].val
  {
    SortedAround(m, i);
    UpperBoundIs(m, m[i].key, i + 1);
  }

  /** Without its first breakpoint, a sequence without repeated values has
      none over the first breakpoint's value. */
  lemma NoRepeatTail<V>(base: V, m: seq<Entry<V>>)
    requires NoRepeat(base, m) && |m| > 0
    ensures NoRepeat(m[0].val, m[1..])
  {
    var t := m[1..];
    if |t| > 0 {
      assert t[0] == m[1];
      assert m[0].val != m[1].val;
    }
    forall i | 0 <= i < |t| - 1 ensures t[i].val != t[i + 1].val {
      assert t[i] == m[i + 1] && t[i + 1] == m[i + 2];
    }
  }

  /** Two sorted breakpoint sequences without repeated values that describe
      the same function over the same base are equal. */
  lemma {:induction false} NoRepeatUnique<V>(base: V, x: seq<Entry<V>>, y: seq<Entry<V>>)
    requires Sorted(x) && Sorted(y) && NoRepeat(base, x) && NoRepeat(base, y)
    requires forall k :: Lookup(IntervalMap(base, x), k) == Lookup(IntervalMap(base, y), k)
    ensures x == y
    decreases |x|
  {
    if |x| == 0 && |y| == 0 {
    } else if |x| == 0 || (|y| > 0 && y[0].key < x[0].key) {
      LookupBelowAll(base, x, y[0].key);
      LookupAtBreakpoint(base, y, 0);
      assert false;
    } else if |y| == 0 || x[0].key < y[0].key {
      LookupBelowAll(base, y, x[0].key);
      LookupAtBreakpoint(base, x, 0);
      assert false;
    } else {
      var k0 := x[0].key;
      assert x[0].val == y[0].val by {
        LookupAtBreakpoint(base, x, 0);
        LookupAtBreakpoint(base, y, 0);
      }
      var b := x[0].val;
      var x', y' := x[1..], y[1..];
      assert x == [x[0]] + x' && y == [y[0]] + y';
      SortedParts([x[0]], x');
      SortedParts([y[0]], y');
      forall k ensures Lookup(IntervalMap(b, x'), k) == Lookup(IntervalMap(b, y'), k) {
        if k < k0 {
          LookupBelowAll(b, x', k);
          LookupBelowAll(b, y', k);
        } else {
          TailLookup(base, x, k);
          TailLookup(base, y, k);
        }
      }
      NoRepeatTail(base, x);
      NoRepeatTail(base, y);
      NoRepeatUnique(b, x', y');
    }
  }

  /** A map in canonical form is determined by the function it describes. */
  lemma CanonicalUnique<V>(x: IntervalMap<V>, y: IntervalMap<V>)
    requires Valid(x) && Valid(y) && x.valBegin == y.valBegin
    requires forall k :: Lookup(x, k) == Lookup(y, k)
    ensures x == y
  {
    ValidIff(x);
    ValidIff(y);
    NoRepeatUnique(x.valBegin, x.entries, y.entries);
  }

  /** Assigning the same range and value twice is the same as assigning it
      once, for the corrected `assign` on maps in canonical form. */
  lemma AssignCanonicalIdempotent<V>(im: IntervalMap<V>, keyBegin: int, keyEnd: int, val: V)
    requires Valid(im)
    ensures var r := AssignCanonical(im, keyBegin, keyEnd, val);
            AssignCanonical(r, keyBegin, keyEnd, val) == r
  {
    var r := AssignCanonical(im, keyBegin, keyEnd, val);
    AssignCanonicalPreservesValid(im, keyBegin, keyEnd, val);
    var r2 := AssignCanonical(r, keyBegin, keyEnd, val);
    AssignCanonicalPreservesValid(r, keyBegin, keyEnd, val);
    forall k ensures Lookup(r2, k) == Lookup(r, k) {
      AssignCanonicalPointwise(im, keyBegin, keyEnd, val, k);
      AssignCanonicalPointwise(r, keyBegin, keyEnd, val, k);
    }
    CanonicalUnique(r2, r);
  }

  // ---------------------------------------------------------------------
  // The frame
  // ---------------------------------------------------------------------

  /** What an assignment of `[keyBegin, keyEnd)` may do to the breakpoints:
      every breakpoint of the result was already there or sits at `keyBegin` or
      `keyEnd`; none lies strictly inside the range; and every breakpoint
      outside `[keyBegin, keyEnd]` is kept as it was. */
  ghost predicate Framed<V>(m: seq<Entry<V>>, r: seq<Entry<V>>, keyBegin: int, keyEnd: int) {
    && (forall e :: e in r ==> e in m || e.key == keyBegin || e.key == keyEnd)
    && (forall e :: e in r ==> !(keyBegin < e.key < keyEnd))
    && (forall e :: e in m && (e.key < keyBegin || keyEnd < e.key) ==> e in r)
  }

  /** A middle made of `keyBegin` and `keyEnd` breakpoints, put in place of
      the breakpoints within `[keyBegin, keyEnd]`, stays within the frame. */
  lemma SpliceFramed<V>(a: seq<Entry<V>>, b: seq<Entry<V>>, mid: seq<Entry<V>>, d: seq<Entry<V>>, keyBegin: int, keyEnd: int)
    requires SpliceShape(a, b, d, keyBegin, keyEnd)
    requires forall i :: 0 <= i < |mid| ==> mid[i].key == keyBegin || mid[i].key == keyEnd
    ensures Framed((a + b) + d, (a + mid) + d, keyBegin, keyEnd)
  {
    assert forall x :: x in a ==> x.key < keyBegin;
    assert forall x :: x in b ==> keyBegin <= x.key <= keyEnd;
    assert forall x :: x in mid ==> x.key == keyBegin || x.key == keyEnd;
    assert forall x :: x in d ==> keyEnd < x.key;
  }

  lemma OverwriteFramed<V>(im: IntervalMap<V>, keyBegin: int, keyEnd: int, val: V)
    requires Sorted(im.entries) && keyBegin < keyEnd
    ensures Framed(im.entries, Overwrite(im, keyBegin, keyEnd, val).entries, keyBegin, keyEnd)
  {
    var a, b, mid, d := OverwriteParts(im, keyBegin, keyEnd, val);
    SpliceFramed(a, b, mid, d, keyBegin, keyEnd);
  }

  /** Both variants of `assign` stay within the frame. */
  lemma AssignFramed<V>(im: IntervalMap<V>, keyBegin: int, keyEnd: int, val: V)
    requires EndsAtBase(im)
    ensures Framed(im.entries, Assign(im, keyBegin, keyEnd, val).entries, keyBegin, keyEnd)
    ensures Framed(im.entries, AssignCanonical(im, keyBegin, keyEnd, val).entries, keyBegin, keyEnd)
  {
    if keyBegin < keyEnd {
      OverwriteFramed(im, keyBegin, keyEnd, val);
      AssignCanonicalIsOverwrite(im, keyBegin, keyEnd, val);
      if EndCollisionSameValue(im, keyBegin, keyEnd, val) {
        var x, y := SameValueCollisionShape(im, keyBegin, keyEnd, val);
        var e := im.entries[LowerBound(im.entries, keyBegin)];
        assert forall z :: z in (x + [e]) + y <==> z in x + y || z == e;
      } else {
        AssignAgrees(im, keyBegin, keyEnd, val);
      }
    }
  }

  // ---------------------------------------------------------------------
  // Calls that change nothing
  // ---------------------------------------------------------------------

  /** An empty or reversed range leaves the map untouched. */
  lemma AssignEmptyRange<V>(im: IntervalMap<V>, keyBegin: int, keyEnd: int, val: V)
    requires Sorted(im.entries) && !(keyBegin < keyEnd)
    ensures Assign(im, keyBegin, keyEnd, val) == im
    ensures AssignCanonical(im, keyBegin, keyEnd, val) == im
  {
  }

  /** Assigning the base value to a range that starts past every breakpoint
      leaves the map untouched: the function already has that value there. */
  lemma AssignBaseBeyondEnd<V>(im: IntervalMap<V>, keyBegin: int, keyEnd: int)
    requires Sorted(im.entries)
    requires forall i :: 0 <= i < |im.entries| ==> im.entries[i].key < keyBegin
    ensures Assign(im, keyBegin, keyEnd, im.valBegin) == im
    ensures AssignCanonical(im, keyBegin, keyEnd, im.valBegin) == im
  {
    LowerBoundIs(im.entries, keyBegin, |im.entries|);
  }

  /** Assigning a value equal to the one already held over the whole range
      leaves a canonical map untouched. */
  lemma AssignCanonicalNoChange<V>(im: IntervalMap<V>, keyBegin: int, keyEnd: int, val: V)
    requires Valid(im)
    requires forall k :: keyBegin <= k < keyEnd ==> Lookup(im, k) == val
    ensures AssignCanonical(im, keyBegin, keyEnd, val) == im
  {
    var r := AssignCanonical(im, keyBegin, keyEnd, val);
    AssignCanonicalPreservesValid(im, keyBegin, keyEnd, val);
    forall k ensures Lookup(r, k) == Lookup(im, k) {
      AssignCanonicalPointwise(im, keyBegin, keyEnd, val, k);
    }
    CanonicalUnique(r, im);
  }
}
