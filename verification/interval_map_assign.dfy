/** `assign` against the reference overwrite: the corrected variant computes
    exactly the overwrite on every map that returns to its base value, and the
    variant as written does too except in the end-collision situation
    where the breakpoint at `keyEnd` already holds the new value. */
module AssignProofs {
  import opened SortedMap
  import opened IntervalMaps
  import opened IntervalMapProofs

  // ---------------------------------------------------------------------
  // The erase loop and the closing emplace
  // ---------------------------------------------------------------------

  /** `upper_bound` on a suffix that starts at or below `k`. */
  lemma UpperBoundSuffix<V>(m: seq<Entry<V>>, s: nat, k: int)
    requires s <= |m|
    requires forall i :: 0 <= i < s ==> m[i].key <= k
    ensures s <= UpperBound(m, k)
    ensures UpperBound(m[s..], k) == UpperBound(m, k) - s
  {
    var u := s + UpperBound(m[s..], k);
    assert forall j :: s <= j < u ==> m[j] == m[s..][j - s];
    assert u < |m| ==> m[u] == m[s..][u - s];
    UpperBoundIs(m, k, u);
  }

  /** The erase loop stops where the `upper_bound` scan from `it` stops. */
  lemma EraseStop<V>(m: seq<Entry<V>>, it: nat, keyEnd: int, v0: V)
    requires it <= |m|
    ensures EraseLeading(m, it, keyEnd, v0).0 == UpperBoundFrom(m, keyEnd, it)
  {
    UpperBoundFromIs(m, keyEnd, it, EraseLeading(m, it, keyEnd, v0).0);
  }

  /** The `upper_bound` scan over the second part of a concatenation. */
  lemma {:induction false} UpperBoundFromConcat<V>(pre: seq<Entry<V>>, suf: seq<Entry<V>>, k: int, i: nat)
    requires i <= |suf|
    ensures UpperBoundFrom(pre + suf, k, |pre| + i) == |pre| + UpperBoundFrom(suf, k, i)
    decreases |suf| - i
  {
    if i < |suf| {
      assert (pre + suf)[|pre| + i] == suf[i];
      if !(k < suf[i].key) {
        UpperBoundFromConcat(pre, suf, k, i + 1);
      }
    }
  }

  /** One unfolding of `EraseThenClose`, given where the erase loop stops. */
  lemma EraseThenCloseUnfold<V>(m: seq<Entry<V>>, it: nat, stop: nat, keyEnd: int, val: V, v0: V)
    requires Sorted(m) && it <= stop <= |m|
    requires EraseLeading(m, it, keyEnd, v0).0 == stop
    ensures var v := if stop == it then v0 else m[stop - 1].val;
            var m' := m[..it] + m[stop..];
            && Sorted(m')
            && EraseThenClose(m, it, keyEnd, val, v0) == (if val != v then Emplace(m', keyEnd, v) else m')
  {
    SortedSplice(m, it, stop);
  }

  /** Where the erase loop stops when it starts at the seam of `pre + suf`. */
  lemma EraseStopConcat<V>(pre: seq<Entry<V>>, suf: seq<Entry<V>>, keyEnd: int, v0: V)
    ensures EraseLeading(pre + suf, |pre|, keyEnd, v0).0 == |pre| + UpperBound(suf, keyEnd)
  {
    EraseStop(pre + suf, |pre|, keyEnd, v0);
    UpperBoundFromConcat(pre, suf, keyEnd, 0);
  }

  /** Cutting `pre + suf` at the seam and again `j` entries later. */
  lemma SeamSlices<V>(pre: seq<Entry<V>>, suf: seq<Entry<V>>, j: nat)
    requires j <= |suf|
    ensures var m := pre + suf;
            && m[..|pre|] + m[|pre| + j..] == pre + suf[j..]
            && (j > 0 ==> m[|pre| + j - 1] == suf[j - 1])
  {
    var m := pre + suf;
    assert m[..|pre|] == pre;
    assert m[|pre| + j..] == suf[j..];
  }

  /** Emplacing a key that lies between the two halves of a map splices it
      in between them. */
  lemma EmplaceBetween<V>(pre: seq<Entry<V>>, post: seq<Entry<V>>, k: int, v: V)
    requires Sorted(pre + post)
    requires forall i :: 0 <= i < |pre| ==> pre[i].key < k
    requires forall i :: 0 <= i < |post| ==> k < post[i].key
    ensures Emplace(pre + post, k, v) == pre + [Entry(k, v)] + post
  {
    var m := pre + post;
    var n := |pre|;
    assert forall j :: 0 <= j < n ==> m[j].key < k by {
      assert forall j :: 0 <= j < n ==> m[j] == pre[j];
    }
    assert forall j :: n <= j < |m| ==> k < m[j].key by {
      assert forall j :: n <= j < |m| ==> m[j] == post[j - n];
    }
    EmplaceAt(m, k, v, n);
    assert m[..n] == pre && m[n..] == post;
  }

  /** The erase loop started at the seam of `pre + suf` drops the part of
      `suf` up to `keyEnd`, leaving a sorted map for the closing emplace. */
  lemma EraseThenCloseSeam<V>(pre: seq<Entry<V>>, suf: seq<Entry<V>>, keyEnd: int, val: V, v0: V)
    requires Sorted(pre + suf)
    ensures var j := UpperBound(suf, keyEnd);
            var v := if j == 0 then v0 else suf[j - 1].val;
            && Sorted(pre + suf[j..])
            && EraseThenClose(pre + suf, |pre|, keyEnd, val, v0)
               == (if val != v then Emplace(pre + suf[j..], keyEnd, v) else pre + suf[j..])
  {
    var j := UpperBound(suf, keyEnd);
    EraseStopConcat(pre, suf, keyEnd, v0);
    SeamSlices(pre, suf, j);
    EraseThenCloseUnfold(pre + suf, |pre|, |pre| + j, keyEnd, val, v0);
  }

  /** What follows the `upper_bound` of `k` in the second part of a sorted
      concatenation lies above `k`. */
  lemma TailAbove<V>(pre: seq<Entry<V>>, suf: seq<Entry<V>>, k: int)
    requires Sorted(pre + suf)
    ensures var rest := suf[UpperBound(suf, k)..];
            forall i :: 0 <= i < |rest| ==> k < rest[i].key
  {
    SortedParts(pre, suf);
    AboveUpperBound(suf, k);
  }

  /** The erase loop and the closing emplace, run on `pre + suf` from the
      start of `suf`: they drop the part of `suf` up to `keyEnd` and put a
      breakpoint at `keyEnd` carrying the last dropped value (or `v0` when
      nothing was dropped), unless that value is `val`. */
  lemma EraseThenCloseIs<V>(pre: seq<Entry<V>>, suf: seq<Entry<V>>, keyEnd: int, val: V, v0: V)
    requires Sorted(pre + suf)
    requires forall i :: 0 <= i < |pre| ==> pre[i].key < keyEnd
    ensures var j := UpperBound(suf, keyEnd);
            var v := if j == 0 then v0 else suf[j - 1].val;
            EraseThenClose(pre + suf, |pre|, keyEnd, val, v0)
            == (pre + (if val != v then [Entry(keyEnd, v)] else [])) + suf[j..]
  {
    var j := UpperBound(suf, keyEnd);
    var v := if j == 0 then v0 else suf[j - 1].val;
    if val != v {
      EraseThenCloseNew(pre, suf, keyEnd, val, v0);
    } else {
      EraseThenCloseSame(pre, suf, keyEnd, val, v0);
    }
  }

  /** `EraseThenCloseIs` when the last dropped value differs from `val`. */
  lemma EraseThenCloseNew<V>(pre: seq<Entry<V>>, suf: seq<Entry<V>>, keyEnd: int, val: V, v0: V)
    requires Sorted(pre + suf)
    requires forall i :: 0 <= i < |pre| ==> pre[i].key < keyEnd
    requires var j := UpperBound(suf, keyEnd);
             val != (if j == 0 then v0 else suf[j - 1].val)
    ensures var j := UpperBound(suf, keyEnd);
            var v := if j == 0 then v0 else suf[j - 1].val;
            EraseThenClose(pre + suf, |pre|, keyEnd, val, v0) == (pre + [Entry(keyEnd, v)]) + suf[j..]
  {
    var j := UpperBound(suf, keyEnd);
    var v := if j == 0 then v0 else suf[j - 1].val;
    EraseThenCloseSeam(pre, suf, keyEnd, val, v0);
    TailAbove(pre, suf, keyEnd);
    EmplaceBetween(pre, suf[j..], keyEnd, v);
  }

  /** `EraseThenCloseIs` when the last dropped value is `val`. */
  lemma EraseThenCloseSame<V>(pre: seq<Entry<V>>, suf: seq<Entry<V>>, keyEnd: int, val: V, v0: V)
    requires Sorted(pre + suf)
    requires var j := UpperBound(suf, keyEnd);
             val == (if j == 0 then v0 else suf[j - 1].val)
    ensures EraseThenClose(pre + suf, |pre|, keyEnd, val, v0) == (pre + []) + suf[UpperBound(suf, keyEnd)..]
  {
    EraseThenCloseSeam(pre, suf, keyEnd, val, v0);
    assert pre + [] == pre;
  }

  /** The same, with the dropped part taken from the original map from
      position `s` on, where everything before `s` is at most `keyEnd` and
      `v0` is the value in force at `s`: the breakpoint at `keyEnd` then
      carries the value the map had at `keyEnd`. */
  lemma CloseRestoresKeyEnd<V>(im: IntervalMap<V>, pre: seq<Entry<V>>, s: nat, keyEnd: int, val: V, v0: V)
    requires Sorted(im.entries) && s <= |im.entries|
    requires forall i :: 0 <= i < s ==> im.entries[i].key <= keyEnd
    requires v0 == LastValue(im.valBegin, im.entries[..s])
    requires Sorted(pre + im.entries[s..])
    requires forall i :: 0 <= i < |pre| ==> pre[i].key < keyEnd
    ensures var after := Lookup(im, keyEnd);
            EraseThenClose(pre + im.entries[s..], |pre|, keyEnd, val, v0)
            == (pre + (if val != after then [Entry(keyEnd, after)] else [])) + im.entries[UpperBound(im.entries, keyEnd)..]
  {
    var m := im.entries;
    var suf := m[s..];
    var u := UpperBound(m, keyEnd);
    var j := UpperBound(suf, keyEnd);
    assert s <= u && j == u - s by {
      UpperBoundSuffix(m, s, keyEnd);
    }
    var v := if j == 0 then v0 else suf[j - 1].val;
    assert v == Lookup(im, keyEnd) by {
      if j == 0 {
        assert s == 0 || m[..s][s - 1] == m[s - 1];
      } else {
        assert suf[j - 1] == m[u - 1];
      }
    }
    assert EraseThenClose(pre + suf, |pre|, keyEnd, val, v0)
           == (pre + (if val != v then [Entry(keyEnd, v)] else [])) + suf[j..] by {
      EraseThenCloseIs(pre, suf, keyEnd, val, v0);
    }
    assert suf[j..] == m[u..];
  }

  /** Dropping `m[p..s]` and putting at most a `keyBegin` breakpoint in its
      place keeps the map sorted. */
  lemma KeptSorted<V>(m: seq<Entry<V>>, p: nat, s: nat, pre: seq<Entry<V>>, keyBegin: int, val: V)
    requires Sorted(m) && p <= s <= |m|
    requires forall i :: 0 <= i < p ==> m[i].key < keyBegin
    requires forall i :: s <= i < |m| ==> keyBegin < m[i].key
    requires pre == m[..p] || pre == m[..p] + [Entry(keyBegin, val)]
    ensures Sorted(pre + m[s..])
  {
    SortedSplice(m, p, s);
    var r := m[..p] + m[s..];
    if pre != m[..p] {
      assert r[..p] == m[..p] && r[p..] == m[s..];
      SortedInsert(r, p, Entry(keyBegin, val));
      assert pre + m[s..] == r[..p] + [Entry(keyBegin, val)] + r[p..];
    }
  }

  /** Keys below `k` stay below `k` when one more such entry is appended. */
  lemma PrefixKeysBelow<V>(m: seq<Entry<V>>, p: nat, x: seq<Entry<V>>, k: int)
    requires p <= |m| && |x| <= 1
    requires forall i :: 0 <= i < p ==> m[i].key < k
    requires forall i :: 0 <= i < |x| ==> x[i].key < k
    ensures forall i :: 0 <= i < |m[..p] + x| ==> (m[..p] + x)[i].key < k
  {
  }

  /** The middle of the reference, put together in the two steps `assign`
      takes: the `keyBegin` breakpoint first, the `keyEnd` one after. */
  lemma MiddleSplit<V>(a: seq<Entry<V>>, keyBegin: int, keyEnd: int, val: V, before: V, after: V)
    ensures (a + (if val != before then [Entry(keyBegin, val)] else []))
            + (if val != after then [Entry(keyEnd, after)] else [])
            == a + Middle(keyBegin, keyEnd, val, before, after)
  {
  }

  /** The branches that end in the erase loop, in terms of what they hand to
      it: `pre` is kept, the original map from `s` on is handed to the loop
      with `v0` as the value recorded so far. Whatever the branch, the loop
      and the closing emplace then produce the reference overwrite. */
  lemma LoopIsOverwrite<V>(im: IntervalMap<V>, keyBegin: int, keyEnd: int, val: V, pre: seq<Entry<V>>, s: nat, v0: V, x: seq<Entry<V>>)
    requires Sorted(im.entries) && keyBegin < keyEnd
    requires pre == im.entries[..LowerBound(im.entries, keyBegin)]
                    + (if val != ValueBefore(im, keyBegin) then [Entry(keyBegin, val)] else [])
    requires LowerBound(im.entries, keyBegin) <= s <= |im.entries|
    requires forall i :: 0 <= i < s ==> im.entries[i].key <= keyEnd
    requires v0 == LastValue(im.valBegin, im.entries[..s])
    requires forall i :: s <= i < |im.entries| ==> keyBegin < im.entries[i].key
    requires x == pre + im.entries[s..]
    ensures Sorted(x) && |pre| <= |x|
    ensures EraseThenClose(x, |pre|, keyEnd, val, v0) == Overwrite(im, keyBegin, keyEnd, val).entries
  {
    var m := im.entries;
    var p := LowerBound(m, keyBegin);
    var before := ValueBefore(im, keyBegin);
    var after := Lookup(im, keyEnd);
    var x := if val != before then [Entry(keyBegin, val)] else [];
    var y := if val != after then [Entry(keyEnd, after)] else [];
    KeptSorted(m, p, s, pre, keyBegin, val);
    PrefixKeysBelow(m, p, x, keyEnd);
    CloseRestoresKeyEnd(im, pre, s, keyEnd, val, v0);
    MiddleSplit(m[..p], keyBegin, keyEnd, val, before, after);
  }

  // ---------------------------------------------------------------------
  // Branch by branch
  // ---------------------------------------------------------------------

  /** The reference, read off its definition. */
  lemma OverwriteIs<V>(im: IntervalMap<V>, keyBegin: int, keyEnd: int, val: V)
    requires Sorted(im.entries) && keyBegin < keyEnd
    ensures var m := im.entries;
            Overwrite(im, keyBegin, keyEnd, val).entries
            == (m[..LowerBound(m, keyBegin)]
                + Middle(keyBegin, keyEnd, val, ValueBefore(im, keyBegin), Lookup(im, keyEnd)))
               + m[UpperBound(m, keyEnd)..]
  {
  }

  /** `upper_bound(keyEnd)` where the map has no breakpoint in
      `[keyBegin, keyEnd]` past `lower_bound(keyBegin)`; the value at `keyEnd`
      is then the one before `keyBegin`. */
  lemma NoBreakpointBetween<V>(im: IntervalMap<V>, keyBegin: int, keyEnd: int)
    requires Sorted(im.entries) && keyBegin < keyEnd
    requires var it := LowerBound(im.entries, keyBegin);
             it == |im.entries| || keyEnd < im.entries[it].key
    ensures UpperBound(im.entries, keyEnd) == LowerBound(im.entries, keyBegin)
    ensures Lookup(im, keyEnd) == ValueBefore(im, keyBegin)
  {
    UpperBoundIs(im.entries, keyEnd, LowerBound(im.entries, keyBegin));
  }

  /** Emplacing a key above every breakpoint appends it. */
  lemma EmplaceLast<V>(m: seq<Entry<V>>, k: int, v: V)
    requires Sorted(m)
    requires forall i :: 0 <= i < |m| ==> m[i].key < k
    ensures Emplace(m, k, v) == m + [Entry(k, v)]
  {
    EmplaceAt(m, k, v, |m|);
    assert m[..|m|] == m && m[|m|..] == [];
  }

  /** The branch for an empty map or a `keyBegin` past every breakpoint. */
  lemma AtEndIsOverwrite<V>(im: IntervalMap<V>, keyBegin: int, keyEnd: int, val: V)
    requires EndsAtBase(im) && keyBegin < keyEnd
    requires LowerBound(im.entries, keyBegin) == |im.entries|
    ensures val == im.valBegin ==> Overwrite(im, keyBegin, keyEnd, val) == im
    ensures val != im.valBegin ==> Overwrite(im, keyBegin, keyEnd, val).entries
                                   == Emplace(Emplace(im.entries, keyBegin, val), keyEnd, im.valBegin)
  {
    var m := im.entries;
    var base := im.valBegin;
    OverwriteIs(im, keyBegin, keyEnd, val);
    NoBreakpointBetween(im, keyBegin, keyEnd);
    assert ValueBefore(im, keyBegin) == base;
    SplitAt(m, |m|);
    if val != base {
      EmplaceTwoLast(m, keyBegin, keyEnd, val, base);
    }
  }

  /** Emplacing two keys above every breakpoint, in order, appends both. */
  lemma EmplaceTwoLast<V>(m: seq<Entry<V>>, keyBegin: int, keyEnd: int, val: V, base: V)
    requires Sorted(m) && keyBegin < keyEnd
    requires forall i :: 0 <= i < |m| ==> m[i].key < keyBegin
    ensures Emplace(Emplace(m, keyBegin, val), keyEnd, base)
            == (m + [Entry(keyBegin, val), Entry(keyEnd, base)]) + m[|m|..]
  {
    var e1 := Entry(keyBegin, val);
    EmplaceLast(m, keyBegin, val);
    PrefixKeysBelow(m, |m|, [e1], keyEnd);
    assert m[..|m|] == m;
    EmplaceLast(m + [e1], keyEnd, base);
    AppendTwo(m, e1, Entry(keyEnd, base));
  }

  /** Two entries appended one by one, or as a pair before an empty rest. */
  lemma AppendTwo<V>(a: seq<Entry<V>>, x: Entry<V>, y: Entry<V>)
    ensures (a + [x]) + [y] == (a + [x, y]) + a[|a|..]
  {
  }

  /** Two entries put in one after the other between the halves. */
  lemma InsertTwo<V>(a: seq<Entry<V>>, x: Entry<V>, y: Entry<V>, c: seq<Entry<V>>)
    ensures (a + [x]) + [y] + c == (a + [x, y]) + c
  {
  }

  /** The gap insert: `[keyBegin, keyEnd]` holds no breakpoint. */
  lemma GapIsOverwrite<V>(im: IntervalMap<V>, keyBegin: int, keyEnd: int, val: V)
    requires Sorted(im.entries) && keyBegin < keyEnd
    requires LowerBound(im.entries, keyBegin) < |im.entries|
    requires keyEnd < im.entries[LowerBound(im.entries, keyBegin)].key
    requires val != ValueBefore(im, keyBegin)
    ensures Overwrite(im, keyBegin, keyEnd, val).entries
            == Emplace(Emplace(im.entries, keyBegin, val), keyEnd, ValueBefore(im, keyBegin))
  {
    var m := im.entries;
    var it := LowerBound(m, keyBegin);
    var before := ValueBefore(im, keyBegin);
    var e1 := Entry(keyBegin, val);
    var e2 := Entry(keyEnd, before);
    var a := m[..it];
    OverwriteIs(im, keyBegin, keyEnd, val);
    NoBreakpointBetween(im, keyBegin, keyEnd);
    EmplaceSplit(m, keyBegin, val);
    AboveFrom(m, it, keyEnd);
    PrefixKeysBelow(m, it, [e1], keyEnd);
    EmplaceBetween(a + [e1], m[it..], keyEnd, before);
    InsertTwo(a, e1, e2, m[it..]);
  }

  /** From a breakpoint above `k` on, every key is above `k`. */
  lemma AboveFrom<V>(m: seq<Entry<V>>, i: nat, k: int)
    requires Sorted(m) && i < |m| && k < m[i].key
    ensures forall j :: 0 <= j < |m[i..]| ==> k < m[i..][j].key
  {
    SortedAround(m, i);
  }

  /** The breakpoint after an inserted entry, kept in place. */
  lemma InsertBefore<V>(a: seq<Entry<V>>, x: Entry<V>, m: seq<Entry<V>>, i: nat)
    requires i < |m|
    ensures (a + [x]) + m[i..] == (a + [x, m[i]]) + m[i + 1..]
  {
    assert m[i..] == [m[i]] + m[i + 1..];
  }

  /** The end-collision shortcut, taken when the breakpoint at `keyEnd`
      holds a value other than `val`. */
  lemma CollisionIsOverwrite<V>(im: IntervalMap<V>, keyBegin: int, keyEnd: int, val: V)
    requires Sorted(im.entries)
    requires EndCollision(im, keyBegin, keyEnd, val)
    requires im.entries[LowerBound(im.entries, keyBegin)].val != val
    ensures Overwrite(im, keyBegin, keyEnd, val).entries == Emplace(im.entries, keyBegin, val)
  {
    var m := im.entries;
    var it := LowerBound(m, keyBegin);
    OverwriteIs(im, keyBegin, keyEnd, val);
    AfterAbove(m, it);
    UpperBoundAtOne(m, keyEnd, it);
    EmplaceSplit(m, keyBegin, val);
    InsertBefore(m[..it], Entry(keyBegin, val), m, it);
  }

  /** The value in force just before `keyBegin` is the last one below it. */
  lemma ValueBeforeIsLast<V>(im: IntervalMap<V>, keyBegin: int)
    ensures ValueBefore(im, keyBegin) == LastValue(im.valBegin, im.entries[..LowerBound(im.entries, keyBegin)])
  {
    var p := LowerBound(im.entries, keyBegin);
    assert p == 0 || im.entries[..p][p - 1] == im.entries[p - 1];
  }

  /** `FinishAssign` steps past a breakpoint at `keyBegin`, if there is one
      at the iterator, and hands over to the erase loop. */
  lemma FinishFrom<V>(m: seq<Entry<V>>, it: nat, keyBegin: int, keyEnd: int, val: V, v0: V, s: nat)
    requires Sorted(m) && it <= |m|
    requires s == if it < |m| && !(keyBegin < m[it].key) then it + 1 else it
    ensures FinishAssign(m, it, keyBegin, keyEnd, val, v0) == EraseThenClose(m, s, keyEnd, val, v0)
  {
  }

  /** A sequence is its prefix followed by its suffix. */
  lemma SplitAt<V>(m: seq<Entry<V>>, i: nat)
    requires i <= |m|
    ensures m == m[..i] + m[i..]
  {
  }

  /** Emplacing a fresh key at its `lower_bound` puts it there. */
  lemma EmplaceSplit<V>(m: seq<Entry<V>>, k: int, v: V)
    requires Sorted(m)
    requires var it := LowerBound(m, k);
             it == |m| || k < m[it].key
    ensures var it := LowerBound(m, k);
            var x := Emplace(m, k, v);
            && x == (m[..it] + [Entry(k, v)]) + m[it..]
            && it < |x| && x[it] == Entry(k, v)
            && forall i :: it <= i < |m| ==> k < m[i].key
  {
    var it := LowerBound(m, k);
    FreshKeyAbove(m, k);
    EmplaceAt(m, k, v, it);
  }

  /** Overwriting the value at `i` keeps the entries around it. */
  lemma SetValueSplit<V>(m: seq<Entry<V>>, i: nat, v: V)
    requires Sorted(m) && i < |m|
    ensures SetValueAt(m, i, v) == (m[..i] + [Entry(m[i].key, v)]) + m[i + 1..]
  {
  }

  /** What follows an erased entry moves into its place. */
  lemma ErasedAt<V>(m: seq<Entry<V>>, i: nat)
    requires Sorted(m) && i < |m|
    ensures EraseAt(m, i) == (m[..i] + []) + m[i + 1..]
    ensures i < |EraseAt(m, i)| ==> EraseAt(m, i)[i] == m[i + 1]
  {
    assert m[..i] + [] == m[..i];
  }

  /** Every key up to a breakpoint at `keyBegin` is at most `keyEnd`. */
  lemma KeysUpTo<V>(m: seq<Entry<V>>, i: nat, keyBegin: int, keyEnd: int)
    requires i < |m| && m[i].key == keyBegin && keyBegin < keyEnd
    requires forall j :: 0 <= j < i ==> m[j].key < keyBegin
    ensures forall j :: 0 <= j < i + 1 ==> m[j].key <= keyEnd
  {
  }

  /** The breakpoints after position `i` lie above its key. */
  lemma AfterAbove<V>(m: seq<Entry<V>>, i: nat)
    requires Sorted(m) && i < |m|
    ensures forall j :: i + 1 <= j < |m| ==> m[i].key < m[j].key
  {
    SortedAround(m, i);
  }

  /** The value recorded when stepping past the breakpoint at `i`. */
  lemma LastValueAt<V>(base: V, m: seq<Entry<V>>, i: nat)
    requires i < |m|
    ensures LastValue(base, m[..i + 1]) == m[i].val
  {
  }

  /** Branch "new value, no breakpoint at `keyBegin`": emplace `keyBegin`,
      step past it, and run the erase loop from the entry after it. */
  lemma EmplaceCaseIsOverwrite<V>(im: IntervalMap<V>, keyBegin: int, keyEnd: int, val: V)
    requires Sorted(im.entries) && keyBegin < keyEnd
    requires var it := LowerBound(im.entries, keyBegin);
             it == |im.entries| || keyBegin < im.entries[it].key
    requires val != ValueBefore(im, keyBegin)
    ensures var it := LowerBound(im.entries, keyBegin);
            FinishAssign(Emplace(im.entries, keyBegin, val), it, keyBegin, keyEnd, val, ValueBefore(im, keyBegin))
            == Overwrite(im, keyBegin, keyEnd, val).entries
  {
    var m := im.entries;
    var it := LowerBound(m, keyBegin);
    var before := ValueBefore(im, keyBegin);
    var pre := m[..it] + [Entry(keyBegin, val)];
    var x := Emplace(m, keyBegin, val);
    EmplaceSplit(m, keyBegin, val);
    FinishFrom(x, it, keyBegin, keyEnd, val, before, it + 1);
    ValueBeforeIsLast(im, keyBegin);
    LoopIsOverwrite(im, keyBegin, keyEnd, val, pre, it, before, x);
  }

  /** Branch "new value, breakpoint at `keyBegin`": overwrite its value, step
      past it, and run the erase loop from the entry after it. */
  lemma SetValueCaseIsOverwrite<V>(im: IntervalMap<V>, keyBegin: int, keyEnd: int, val: V)
    requires Sorted(im.entries) && keyBegin < keyEnd
    requires var it := LowerBound(im.entries, keyBegin);
             it < |im.entries| && im.entries[it].key == keyBegin
    requires val != ValueBefore(im, keyBegin)
    ensures var it := LowerBound(im.entries, keyBegin);
            FinishAssign(SetValueAt(im.entries, it, val), it, keyBegin, keyEnd, val, im.entries[it].val)
            == Overwrite(im, keyBegin, keyEnd, val).entries
  {
    var m := im.entries;
    var it := LowerBound(m, keyBegin);
    var v0 := m[it].val;
    var pre := m[..it] + [Entry(keyBegin, val)];
    var x := SetValueAt(m, it, val);
    SetValueSplit(m, it, val);
    FinishFrom(x, it, keyBegin, keyEnd, val, v0, it + 1);
    LastValueAt(im.valBegin, m, it);
    AfterAbove(m, it);
    LoopIsOverwrite(im, keyBegin, keyEnd, val, pre, it + 1, v0, x);
  }

  /** Branch "same value, breakpoint at `keyBegin`": erase it and run the erase
      loop from the entry that followed it. */
  lemma EraseCaseIsOverwrite<V>(im: IntervalMap<V>, keyBegin: int, keyEnd: int, val: V)
    requires Sorted(im.entries) && keyBegin < keyEnd
    requires var it := LowerBound(im.entries, keyBegin);
             it < |im.entries| && im.entries[it].key == keyBegin
    requires val == ValueBefore(im, keyBegin)
    ensures var it := LowerBound(im.entries, keyBegin);
            FinishAssign(EraseAt(im.entries, it), it, keyBegin, keyEnd, val, im.entries[it].val)
            == Overwrite(im, keyBegin, keyEnd, val).entries
  {
    var m := im.entries;
    var it := LowerBound(m, keyBegin);
    var v0 := m[it].val;
    EraseSplit(m, it, keyBegin, keyEnd, val, v0);
    LastValueAt(im.valBegin, m, it);
    LoopIsOverwrite(im, keyBegin, keyEnd, val, m[..it] + [], it + 1, v0, EraseAt(m, it));
  }

  /** Erasing the breakpoint at `keyBegin`, in the terms the erase loop
      needs: what is kept, where the loop starts, and the keys on either
      side. */
  lemma EraseSplit<V>(m: seq<Entry<V>>, it: nat, keyBegin: int, keyEnd: int, val: V, v0: V)
    requires Sorted(m) && it < |m| && m[it].key == keyBegin && keyBegin < keyEnd
    requires forall j :: 0 <= j < it ==> m[j].key < keyBegin
    ensures var x := EraseAt(m, it);
            && x == (m[..it] + []) + m[it + 1..]
            && FinishAssign(x, it, keyBegin, keyEnd, val, v0) == EraseThenClose(x, it, keyEnd, val, v0)
            && (forall j :: 0 <= j < it + 1 ==> m[j].key <= keyEnd)
            && (forall j :: it + 1 <= j < |m| ==> keyBegin < m[j].key)
  {
    var x := EraseAt(m, it);
    AfterAbove(m, it);
    ErasedAt(m, it);
    KeysUpTo(m, it, keyBegin, keyEnd);
    FinishFrom(x, it, keyBegin, keyEnd, val, v0, it);
  }

  /** Branch "same value, no breakpoint at `keyBegin`": run the erase loop
      from `lower_bound(keyBegin)`. */
  lemma KeepCaseIsOverwrite<V>(im: IntervalMap<V>, keyBegin: int, keyEnd: int, val: V)
    requires Sorted(im.entries) && keyBegin < keyEnd
    requires var it := LowerBound(im.entries, keyBegin);
             it == |im.entries| || keyBegin < im.entries[it].key
    requires val == ValueBefore(im, keyBegin)
    ensures var it := LowerBound(im.entries, keyBegin);
            FinishAssign(im.entries, it, keyBegin, keyEnd, val, ValueBefore(im, keyBegin))
            == Overwrite(im, keyBegin, keyEnd, val).entries
  {
    var m := im.entries;
    var it := LowerBound(m, keyBegin);
    var before := ValueBefore(im, keyBegin);
    FinishFrom(m, it, keyBegin, keyEnd, val, before, it);
    KeepLoopReady(im, keyBegin, keyEnd, val);
    LoopIsOverwrite(im, keyBegin, keyEnd, val, m[..it] + [], it, before, m);
  }

  /** In that branch the erase loop starts at `lower_bound(keyBegin)` on the
      unchanged map, with the value before `keyBegin` recorded. */
  lemma KeepLoopReady<V>(im: IntervalMap<V>, keyBegin: int, keyEnd: int, val: V)
    requires Sorted(im.entries) && keyBegin < keyEnd
    requires var it := LowerBound(im.entries, keyBegin);
             it == |im.entries| || keyBegin < im.entries[it].key
    requires val == ValueBefore(im, keyBegin)
    ensures var m := im.entries;
            var it := LowerBound(m, keyBegin);
            && m[..it] + [] == m[..it] + (if val != ValueBefore(im, keyBegin) then [Entry(keyBegin, val)] else [])
            && (forall i :: 0 <= i < it ==> m[i].key <= keyEnd)
            && ValueBefore(im, keyBegin) == LastValue(im.valBegin, m[..it])
            && (forall i :: it <= i < |m| ==> keyBegin < m[i].key)
            && m == (m[..it] + []) + m[it..]
  {
    var m := im.entries;
    var it := LowerBound(m, keyBegin);
    SplitAt(m, it);
    ValueBeforeIsLast(im, keyBegin);
    FreshKeyAbove(m, keyBegin);
    assert m[..it] + [] == m[..it];
  }

  // ---------------------------------------------------------------------
  // The whole of `assign`
  // ---------------------------------------------------------------------

  /** The corrected `assign` when `keyBegin` is not below an existing
      breakpoint key, or the new value differs from the one before it and no
      breakpoint sits at `keyBegin`. */
  lemma AssignCanonicalNewStart<V>(im: IntervalMap<V>, keyBegin: int, keyEnd: int, val: V)
    requires EndsAtBase(im) && keyBegin < keyEnd
    requires var it := LowerBound(im.entries, keyBegin);
             it == |im.entries| || (val != ValueBefore(im, keyBegin) && keyBegin < im.entries[it].key)
    ensures AssignCanonical(im, keyBegin, keyEnd, val) == Overwrite(im, keyBegin, keyEnd, val)
  {
    var m := im.entries;
    var it := LowerBound(m, keyBegin);
    if it == |m| {
      CanonicalAtEnd(im, keyBegin, keyEnd, val);
    } else if keyEnd < m[it].key {
      CanonicalGap(im, keyBegin, keyEnd, val);
    } else if m[it].key == keyEnd && m[it].val != val {
      CanonicalCollision(im, keyBegin, keyEnd, val);
    } else {
      CanonicalEmplace(im, keyBegin, keyEnd, val);
    }
  }

  lemma CanonicalAtEnd<V>(im: IntervalMap<V>, keyBegin: int, keyEnd: int, val: V)
    requires EndsAtBase(im) && keyBegin < keyEnd
    requires LowerBound(im.entries, keyBegin) == |im.entries|
    ensures AssignCanonical(im, keyBegin, keyEnd, val) == Overwrite(im, keyBegin, keyEnd, val)
  {
    AtEndIsOverwrite(im, keyBegin, keyEnd, val);
  }

  lemma CanonicalGap<V>(im: IntervalMap<V>, keyBegin: int, keyEnd: int, val: V)
    requires Sorted(im.entries) && keyBegin < keyEnd
    requires var it := LowerBound(im.entries, keyBegin);
             it < |im.entries| && keyEnd < im.entries[it].key
    requires val != ValueBefore(im, keyBegin)
    ensures AssignCanonical(im, keyBegin, keyEnd, val) == Overwrite(im, keyBegin, keyEnd, val)
  {
    GapIsOverwrite(im, keyBegin, keyEnd, val);
  }

  lemma CanonicalCollision<V>(im: IntervalMap<V>, keyBegin: int, keyEnd: int, val: V)
    requires Sorted(im.entries) && keyBegin < keyEnd
    requires var it := LowerBound(im.entries, keyBegin);
             it < |im.entries| && im.entries[it].key == keyEnd && im.entries[it].val != val
    requires val != ValueBefore(im, keyBegin)
    ensures AssignCanonical(im, keyBegin, keyEnd, val) == Overwrite(im, keyBegin, keyEnd, val)
  {
    CollisionIsOverwrite(im, keyBegin, keyEnd, val);
  }

  lemma CanonicalEmplace<V>(im: IntervalMap<V>, keyBegin: int, keyEnd: int, val: V)
    requires Sorted(im.entries) && keyBegin < keyEnd
    requires var it := LowerBound(im.entries, keyBegin);
             it < |im.entries| && keyBegin < im.entries[it].key && im.entries[it].key <= keyEnd
             && !(im.entries[it].key == keyEnd && im.entries[it].val != val)
    requires val != ValueBefore(im, keyBegin)
    ensures AssignCanonical(im, keyBegin, keyEnd, val) == Overwrite(im, keyBegin, keyEnd, val)
  {
    EmplaceCaseIsOverwrite(im, keyBegin, keyEnd, val);
  }

  /** The corrected `assign` in the remaining branches, which all go straight
      to the erase loop. */
  lemma AssignCanonicalToLoop<V>(im: IntervalMap<V>, keyBegin: int, keyEnd: int, val: V)
    requires Sorted(im.entries) && keyBegin < keyEnd
    requires var it := LowerBound(im.entries, keyBegin);
             it < |im.entries| && (val == ValueBefore(im, keyBegin) || im.entries[it].key == keyBegin)
    ensures AssignCanonical(im, keyBegin, keyEnd, val) == Overwrite(im, keyBegin, keyEnd, val)
  {
    var m := im.entries;
    var it := LowerBound(m, keyBegin);
    if val != ValueBefore(im, keyBegin) {
      SetValueCaseIsOverwrite(im, keyBegin, keyEnd, val);
    } else if keyBegin < m[it].key {
      KeepCaseIsOverwrite(im, keyBegin, keyEnd, val);
    } else {
      EraseCaseIsOverwrite(im, keyBegin, keyEnd, val);
    }
  }

  /** The corrected `assign` computes the reference overwrite on every map
      that returns to its base value. */
  lemma AssignCanonicalIsOverwrite<V>(im: IntervalMap<V>, keyBegin: int, keyEnd: int, val: V)
    requires EndsAtBase(im) && keyBegin < keyEnd
    ensures AssignCanonical(im, keyBegin, keyEnd, val) == Overwrite(im, keyBegin, keyEnd, val)
  {
    var it := LowerBound(im.entries, keyBegin);
    if it == |im.entries| || (val != ValueBefore(im, keyBegin) && keyBegin < im.entries[it].key) {
      AssignCanonicalNewStart(im, keyBegin, keyEnd, val);
    } else {
      AssignCanonicalToLoop(im, keyBegin, keyEnd, val);
    }
  }

  /** `assign` as written and the corrected one differ only when the
      breakpoint at `keyEnd` already holds the new value. A definitional
      comparison: unfolding both functions settles it, branch by branch. */
  lemma AssignAgrees<V>(im: IntervalMap<V>, keyBegin: int, keyEnd: int, val: V)
    requires Sorted(im.entries)
    requires !EndCollisionSameValue(im, keyBegin, keyEnd, val)
    ensures Assign(im, keyBegin, keyEnd, val) == AssignCanonical(im, keyBegin, keyEnd, val)
  {
  }

  /** In that situation `assign` as written only emplaces `keyBegin`. */
  lemma AssignSameValueCollision<V>(im: IntervalMap<V>, keyBegin: int, keyEnd: int, val: V)
    requires Sorted(im.entries)
    requires EndCollisionSameValue(im, keyBegin, keyEnd, val)
    ensures Assign(im, keyBegin, keyEnd, val) == IntervalMap(im.valBegin, Emplace(im.entries, keyBegin, val))
  {
  }
}
