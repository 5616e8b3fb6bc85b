/** Sorting a list attribute in place: partition, quicksort and sort. */
module AttributeSort {
  import opened Attribute

  // ------------------------------------------------------------------ the order

  /** strcmp(s, t) < 0 for NUL-terminated strings. */
  predicate StringLess(s: string, t: string) {
    if t == "" then false
    else if s == "" then true
    else if s[0] != t[0] then s[0] < t[0]
    else StringLess(s[1..], t[1..])
  }

  predicate LeafLess(a: Attr, b: Attr) {
    match (a, b)
    case (Str(s), Str(t)) => StringLess(s, t)
    case (Int64(i), Int64(j)) => i < j
    case (UInt64(u), UInt64(v)) => u < v
    case _ => false
  }

  /** Lists are compared by their element idx, everything else directly. */
  predicate Less(a: Attr, b: Attr, idx: nat) {
    if a.List? then b.List? && idx < |a.items| && idx < |b.items| && LeafLess(a.items[idx], b.items[idx])
    else LeafLess(a, b)
  }

  predicate AtMost(a: Attr, b: Attr, idx: nat) {
    !Less(b, a, idx)
  }

  datatype Kind = Text | Signed | Unsigned | Unordered

  function LeafKind(a: Attr): Kind {
    match a
    case Str(_) => Text
    case Int64(_) => Signed
    case UInt64(_) => Unsigned
    case _ => Unordered
  }

  /** Elements that compare: both plain, or both lists with a key at idx, of one kind. */
  predicate SameKind(a: Attr, b: Attr, idx: nat) {
    if a.List? then b.List? && idx < |a.items| && idx < |b.items| && LeafKind(a.items[idx]) == LeafKind(b.items[idx])
    else !b.List? && LeafKind(a) == LeafKind(b)
  }

  /** A list sort can handle: all elements of one kind. The comparison reads the pivot's value with the
      type of the other element, so a mixed list has no meaning. */
  predicate Sortable(s: seq<Attr>, idx: nat) {
    forall j, k | 0 <= j < |s| && 0 <= k < |s| :: SameKind(s[j], s[k], idx)
  }

  lemma {:induction false} StringLessTransitive(r: string, s: string, t: string)
    ensures !StringLess(s, r) && !StringLess(t, s) ==> !StringLess(t, r)
    ensures StringLess(r, s) ==> !StringLess(s, r)
  {
    if r != "" && s != "" && t != "" { StringLessTransitive(r[1..], s[1..], t[1..]); }
    else if r != "" && s != "" { StringLessTransitive(r[1..], s[1..], ""); }
  }

  /** Within one kind, AtMost is a total preorder and Less is its strict part. */
  lemma TotalPreorder(a: Attr, b: Attr, c: Attr, idx: nat)
    requires SameKind(a, b, idx) && SameKind(b, c, idx)
    ensures AtMost(a, a, idx) && (AtMost(a, b, idx) || AtMost(b, a, idx))
    ensures AtMost(a, b, idx) && AtMost(b, c, idx) ==> AtMost(a, c, idx)
    ensures Less(a, b, idx) ==> AtMost(a, b, idx)
  {
    var x, y, z := Key(a, idx), Key(b, idx), Key(c, idx);
    match (x, y, z) {
      case (Str(r), Str(s), Str(t)) =>
        StringLessTransitive(r, s, t);
        StringLessTransitive(r, r, r);
      case _ =>
    }
  }

  function Key(a: Attr, idx: nat): Attr {
    if a.List? && idx < |a.items| then a.items[idx] else a
  }

  // ------------------------------------------------------------------ what ascending means

  /** Numbers by size, strings by the first character in which they differ, a prefix before the longer
      string. */
  ghost predicate LeavesAscend(a: Attr, b: Attr) {
    match (a, b)
    case (UInt64(u), UInt64(v)) => u <= v
    case (Int64(i), Int64(j)) => i <= j
    case (Str(s), Str(t)) =>
      || (|s| <= |t| && t[..|s|] == s)
      || (exists n | 0 <= n < |s| && n < |t| :: s[..n] == t[..n] && (s[n] as int) < t[n] as int)
    case _ => true
  }

  /** Two elements of a list in ascending order: lists by their items idx, everything else directly. */
  ghost predicate Ascend(a: Attr, b: Attr, idx: nat) {
    if a.List? && b.List? then idx < |a.items| && idx < |b.items| ==> LeavesAscend(a.items[idx], b.items[idx])
    else LeavesAscend(a, b)
  }

  /** Within one kind, AtMost is this order. */
  lemma AtMostAscends(a: Attr, b: Attr, idx: nat)
    requires SameKind(a, b, idx)
    ensures AtMost(a, b, idx) <==> Ascend(a, b, idx)
  {
    match (Key(a, idx), Key(b, idx)) {
      case (Str(s), Str(t)) => StringsAscend(s, t);
      case _ =>
    }
  }

  lemma {:induction false} StringsAscend(s: string, t: string)
    ensures !StringLess(t, s) <==> LeavesAscend(Str(s), Str(t))
  {
    if s != "" && t != "" && s[0] == t[0] {
      StringsAscend(s[1..], t[1..]);
      assert s == [s[0]] + s[1..] && t == [t[0]] + t[1..];
      FirstDifference(s, t);
    } else if s != "" && t != "" {
      DifferAtOnce(s, t);
    }
  }

  lemma DifferAtOnce(s: string, t: string)
    requires s != "" && t != "" && s[0] != t[0]
    ensures LeavesAscend(Str(s), Str(t)) <==> s[0] < t[0]
  {
    assert s[..0] == t[..0];
    assert forall n | 0 < n <= |s| && n <= |t| :: s[..n][0] == s[0] && t[..n][0] == t[0];
  }

  /** A common first character changes nothing. */
  lemma FirstDifference(s: string, t: string)
    requires s != "" && t != "" && s[0] == t[0]
    ensures LeavesAscend(Str(s), Str(t)) <==> LeavesAscend(Str(s[1..]), Str(t[1..]))
  {
    var s1, t1 := s[1..], t[1..];
    if |s| <= |t| && t[..|s|] == s { assert t1[..|s1|] == t[..|s|][1..] == s1; }
    if |s1| <= |t1| && t1[..|s1|] == s1 { assert t[..|s|] == [t[0]] + t1[..|s1|] == s; }
    if n :| 0 <= n < |s| && n < |t| && s[..n] == t[..n] && (s[n] as int) < t[n] as int {
      assert n > 0 && s1[..n - 1] == s[..n][1..] && t1[..n - 1] == t[..n][1..];
      assert (s1[n - 1] as int) < t1[n - 1] as int;
    }
    if n :| 0 <= n < |s1| && n < |t1| && s1[..n] == t1[..n] && (s1[n] as int) < t1[n] as int {
      assert s[..n + 1] == [s[0]] + s1[..n] && t[..n + 1] == [t[0]] + t1[..n];
      assert (s[n + 1] as int) < t[n + 1] as int;
    }
  }

  // ------------------------------------------------------------------ rearrangements

  function Swapped(s: seq<Attr>, n: nat, m: nat): seq<Attr>
    requires n < |s| && m < |s|
  {
    s[n := s[m]][m := s[n]]
  }

  /** The range lo..hi, both ends included. */
  function Range(s: seq<Attr>, lo: nat, hi: int): seq<Attr>
    requires lo <= hi + 1 <= |s|
  {
    s[lo..hi + 1]
  }

  /** t is s with the elements of lo..hi in another order. */
  ghost predicate Rearranged(s: seq<Attr>, t: seq<Attr>, lo: nat, hi: int)
    requires lo <= hi + 1 <= |s|
  {
    && |s| == |t|
    && (forall k | 0 <= k < lo || hi < k < |s| :: t[k] == s[k])
    && multiset(Range(s, lo, hi)) == multiset(Range(t, lo, hi))
  }

  lemma SwapRearranges(s: seq<Attr>, n: nat, m: nat, lo: nat, hi: nat)
    requires lo <= n <= hi < |s| && lo <= m <= hi
    ensures Rearranged(s, Swapped(s, n, m), lo, hi)
  {
    var r := Range(s, lo, hi);
    assert Range(Swapped(s, n, m), lo, hi) == Swapped(r, n - lo, m - lo);
  }

  lemma RearrangedTwice(r: seq<Attr>, s: seq<Attr>, t: seq<Attr>, lo: nat, hi: int)
    requires lo <= hi + 1 <= |r| && Rearranged(r, s, lo, hi) && Rearranged(s, t, lo, hi)
    ensures Rearranged(r, t, lo, hi)
  {
  }

  /** Rearranging a part rearranges the whole. */
  lemma Widen(s: seq<Attr>, t: seq<Attr>, from: nat, to: int, lo: nat, hi: int)
    requires lo <= from <= to + 1 <= hi + 1 <= |s| && Rearranged(s, t, from, to)
    ensures Rearranged(s, t, lo, hi)
  {
    var a, b, c := s[lo..from], s[to + 1..hi + 1], Range(s, from, to);
    assert t[lo..from] == a && t[to + 1..hi + 1] == b;
    assert Range(s, lo, hi) == a + c + b;
    assert Range(t, lo, hi) == a + Range(t, from, to) + b;
  }

  /** Every element of a rearranged range was in the range before. */
  lemma Origin(s: seq<Attr>, t: seq<Attr>, lo: nat, hi: int, k: nat) returns (j: nat)
    requires lo <= hi + 1 <= |s| && Rearranged(s, t, lo, hi) && lo <= k <= hi
    ensures lo <= j <= hi && s[j] == t[k]
  {
    assert t[k] == Range(t, lo, hi)[k - lo];
    assert t[k] in multiset(Range(t, lo, hi));
    assert t[k] in Range(s, lo, hi);
    var n :| 0 <= n < |Range(s, lo, hi)| && Range(s, lo, hi)[n] == t[k];
    j := lo + n;
  }

  lemma StillSortable(s: seq<Attr>, t: seq<Attr>, lo: nat, hi: int, idx: nat)
    requires lo <= hi + 1 <= |s| && Rearranged(s, t, lo, hi) && Sortable(s, idx)
    ensures Sortable(t, idx)
  {
    hide SameKind;
    forall j, k | 0 <= j < |t| && 0 <= k < |t| ensures SameKind(t[j], t[k], idx) {
      var a := Before(s, t, lo, hi, j);
      var b := Before(s, t, lo, hi, k);
      assert SameKind(s[a], s[b], idx);
    }
  }

  lemma Before(s: seq<Attr>, t: seq<Attr>, lo: nat, hi: int, k: nat) returns (j: nat)
    requires lo <= hi + 1 <= |s| && Rearranged(s, t, lo, hi) && k < |t|
    ensures j < |s| && s[j] == t[k]
  {
    if lo <= k <= hi { j := Origin(s, t, lo, hi, k); } else { j := k; }
  }

  // ------------------------------------------------------------------ partition

  ghost predicate Below(s: seq<Attr>, from: nat, to: int, pivot: Attr, idx: nat) {
    forall k | from <= k <= to && k < |s| :: AtMost(s[k], pivot, idx)
  }

  ghost predicate Above(s: seq<Attr>, from: nat, to: int, pivot: Attr, idx: nat) {
    forall k | from <= k <= to && k < |s| :: AtMost(pivot, s[k], idx)
  }

  lemma RearrangedBelow(s: seq<Attr>, t: seq<Attr>, lo: nat, hi: int, pivot: Attr, idx: nat)
    requires lo <= hi + 1 <= |s| && Rearranged(s, t, lo, hi)
    ensures Below(s, lo, hi, pivot, idx) ==> Below(t, lo, hi, pivot, idx)
    ensures Above(s, lo, hi, pivot, idx) ==> Above(t, lo, hi, pivot, idx)
  {
    hide AtMost;
    forall k | lo <= k <= hi && k < |t|
      ensures Below(s, lo, hi, pivot, idx) ==> AtMost(t[k], pivot, idx)
      ensures Above(s, lo, hi, pivot, idx) ==> AtMost(pivot, t[k], idx)
    {
      var j := Origin(s, t, lo, hi, k);
    }
  }

  method SwapListItem(a: array<Attr>, n: nat, m: nat)
    requires n < a.Length && m < a.Length
    modifies a
    ensures a[..] == Swapped(old(a[..]), n, m)
  {
    if n == m {
      return;
    }
    var t := a[n];
    a[n] := a[m];
    a[m] := t;
  }

  /** while (++i < hi) over elements less than the one in slot lo. */
  method ScanUp(a: array<Attr>, lo: nat, hi: nat, start: int, idx: nat) returns (i: nat)
    requires lo < hi < a.Length && lo <= start + 1 <= hi
    ensures start < i <= hi && forall k | start < k < i :: Less(a[k], a[lo], idx)
    ensures i < hi ==> !Less(a[i], a[lo], idx)
  {
    i := start + 1;
    while i < hi && Less(a[i], a[lo], idx)
      invariant start < i <= hi && forall k | start < k < i :: Less(a[k], a[lo], idx)
    {
      i := i + 1;
    }
  }

  /** while (--j > lo) over elements greater than the one in slot lo. */
  method ScanDown(a: array<Attr>, lo: nat, hi: nat, start: int, idx: nat) returns (j: nat)
    requires lo < hi < a.Length && lo < start <= hi + 1
    ensures lo <= j < start && forall k | j < k < start :: Less(a[lo], a[k], idx)
    ensures j > lo ==> !Less(a[lo], a[j], idx)
  {
    j := start - 1;
    while j > lo && Less(a[lo], a[j], idx)
      invariant lo <= j < start && forall k | j < k < start :: Less(a[lo], a[k], idx)
    {
      j := j - 1;
    }
  }

  /** Between two rounds: slots lo..i are at most the pivot slot lo, slots j..hi at least it. */
  ghost predicate Split(s: seq<Attr>, lo: nat, i: nat, j: nat, hi: nat, idx: nat) {
    lo <= i < j <= hi < |s| && Below(s, lo, i, s[lo], idx) && Above(s, j, hi, s[lo], idx)
  }

  /** The first swap replaces the pivot itself by a value that is at most it. */
  lemma FirstSwap(s: seq<Attr>, lo: nat, j: nat, hi: nat, idx: nat)
    requires Sortable(s, idx) && lo < j <= hi < |s| && !Less(s[lo], s[j], idx)
    requires forall k | j < k <= hi :: Less(s[lo], s[k], idx)
    ensures Split(Swapped(s, lo, j), lo, lo, j, hi, idx)
  {
    hide Less, AtMost, SameKind;
    var t := Swapped(s, lo, j);
    TotalPreorder(s[j], s[lo], s[lo], idx);
    assert AtMost(s[j], s[lo], idx) by { NotLess(s[lo], s[j], idx); }
    forall k | j <= k <= hi ensures AtMost(t[lo], t[k], idx) {
      if k > j { TotalPreorder(s[lo], s[k], s[k], idx); }
      TotalPreorder(s[j], s[lo], s[k], idx);
    }
  }

  lemma NotLess(a: Attr, b: Attr, idx: nat)
    ensures !Less(a, b, idx) <==> AtMost(b, a, idx)
  {
  }

  /** What the two scans establish. */
  lemma Scanned(s: seq<Attr>, lo: nat, i0: nat, i: nat, j: nat, j0: nat, hi: nat, idx: nat)
    requires Sortable(s, idx) && Split(s, lo, i0, j0, hi, idx) && i0 < i <= hi && lo <= j < j0
    requires forall k | i0 < k < i :: Less(s[k], s[lo], idx)
    requires forall k | j < k < j0 :: Less(s[lo], s[k], idx)
    requires j > lo ==> !Less(s[lo], s[j], idx)
    ensures Below(s, lo, i - 1, s[lo], idx) && Above(s, j + 1, hi, s[lo], idx) && AtMost(s[j], s[lo], idx)
  {
    hide Less, AtMost, SameKind;
    forall k | lo <= k <= i - 1 ensures AtMost(s[k], s[lo], idx) {
      TotalPreorder(s[k], s[lo], s[lo], idx);
    }
    forall k | j + 1 <= k <= hi ensures AtMost(s[lo], s[k], idx) {
      TotalPreorder(s[lo], s[k], s[k], idx);
    }
    NotLess(s[lo], s[j], idx);
    TotalPreorder(s[lo], s[lo], s[lo], idx);
  }

  lemma LaterSwap(s: seq<Attr>, lo: nat, i: nat, j: nat, hi: nat, idx: nat)
    requires lo < i < j <= hi < |s|
    requires Below(s, lo, i - 1, s[lo], idx) && Above(s, j + 1, hi, s[lo], idx)
    requires AtMost(s[j], s[lo], idx) && AtMost(s[lo], s[i], idx)
    ensures Split(Swapped(s, i, j), lo, i, j, hi, idx)
  {
    hide AtMost;
  }

  /** partition: the pivot is whatever slot lo holds at the moment. */
  method Partition(a: array<Attr>, lo: nat, hi: nat, idx: nat) returns (j: nat)
    requires lo < hi < a.Length && Sortable(a[..], idx)
    modifies a
    ensures lo <= j < hi && Rearranged(old(a[..]), a[..], lo, hi) && Sortable(a[..], idx)
    ensures Below(a[..], lo, j, a[lo], idx) && Above(a[..], j + 1, hi, a[lo], idx)
  {
    hide Less, AtMost, SameKind, Sortable, Rearranged, Split, Below, Above, Swapped, Between;
    ghost var was := a[..];
    var i: int := lo - 1;
    j := hi + 1;
    Start(was, lo, hi, idx);
    while true
      invariant Between(was, a[..], lo, i, j, hi, idx)
      decreases j - i
    {
      BetweenBounds(was, a[..], lo, i, j, hi, idx);
      ghost var i0, j0, s := i, j, a[..];
      i := ScanUp(a, lo, hi, i, idx);
      j := ScanDown(a, lo, hi, j, idx);
      Round(was, s, lo, i0, i, j, j0, hi, idx);
      if i >= j {
        StillSortable(was, s, lo, hi, idx);
        return;
      }
      SwapListItem(a, i, j);
    }
  }

  /** The state at the head of the loop: untouched, or split around slot lo. */
  ghost predicate Between(was: seq<Attr>, s: seq<Attr>, lo: nat, i: int, j: nat, hi: nat, idx: nat)
    requires lo < hi < |was|
  {
    || (s == was && i == lo - 1 && j == hi + 1)
    || (i >= 0 && Rearranged(was, s, lo, hi) && Split(s, lo, i, j, hi, idx))
  }

  lemma Start(s: seq<Attr>, lo: nat, hi: nat, idx: nat)
    requires lo < hi < |s|
    ensures Between(s, s, lo, lo - 1, hi + 1, hi, idx)
  {
  }

  lemma BetweenBounds(was: seq<Attr>, s: seq<Attr>, lo: nat, i: int, j: nat, hi: nat, idx: nat)
    requires lo < hi < |was| && Between(was, s, lo, i, j, hi, idx)
    ensures lo <= i + 1 <= hi && lo < j <= hi + 1 && i < j && |s| == |was|
  {
  }

  /** One round: both scans, then either the result or a swap that keeps the split. */
  lemma Round(was: seq<Attr>, s: seq<Attr>, lo: nat, i0: int, i: nat, j: nat, j0: nat, hi: nat, idx: nat)
    requires lo < hi < |was| && Sortable(was, idx) && Between(was, s, lo, i0, j0, hi, idx) && |s| == |was|
    requires i0 < i <= hi && lo <= j < j0 && j <= hi
    requires forall k | i0 < k < i :: lo <= k < |s| ==> Less(s[k], s[lo], idx)
    requires i < hi ==> !Less(s[i], s[lo], idx)
    requires forall k | j < k < j0 :: k < |s| ==> Less(s[lo], s[k], idx)
    requires j > lo ==> !Less(s[lo], s[j], idx)
    ensures i >= j ==> j < hi && Rearranged(was, s, lo, hi)
    ensures i >= j ==> Below(s, lo, j, s[lo], idx) && Above(s, j + 1, hi, s[lo], idx)
    ensures i < j ==> Between(was, Swapped(s, i, j), lo, i, j, hi, idx)
  {
    hide Less, AtMost, SameKind, Sortable, Rearranged, Split, Below, Above, Swapped;
    if i0 == lo - 1 && s == was && j0 == hi + 1 {
      FirstStop(s, lo, i, hi, idx);
      if i >= j {
        Untouched(was, lo, hi, idx);
      } else {
        FirstSwap(was, lo, j, hi, idx);
        SwapRearranges(was, i, j, lo, hi);
      }
    } else {
      StillSortable(was, s, lo, hi, idx);
      SplitBounds(s, lo, i0, j0, hi, idx);
      Scanned(s, lo, i0, i, j, j0, hi, idx);
      if i >= j {
        LeftPart(s, lo, i, j, idx);
      } else {
        NotLess(s[i], s[lo], idx);
        LaterSwap(s, lo, i, j, hi, idx);
        SwapRearranges(s, i, j, lo, hi);
        RearrangedTwice(was, s, Swapped(s, i, j), lo, hi);
      }
    }
  }

  lemma SplitBounds(s: seq<Attr>, lo: nat, i: nat, j: nat, hi: nat, idx: nat)
    requires Split(s, lo, i, j, hi, idx)
    ensures lo <= i < j <= hi < |s|
  {
  }

  /** The first upward scan stops at once, at the pivot. */
  lemma FirstStop(s: seq<Attr>, lo: nat, i: nat, hi: nat, idx: nat)
    requires lo < hi < |s| && Sortable(s, idx) && lo <= i && (i > lo ==> Less(s[lo], s[lo], idx))
    ensures i == lo
  {
    hide Less, AtMost, SameKind;
    TotalPreorder(s[lo], s[lo], s[lo], idx);
    NotLess(s[lo], s[lo], idx);
  }

  lemma Untouched(s: seq<Attr>, lo: nat, hi: nat, idx: nat)
    requires lo < hi < |s| && Sortable(s, idx) && forall k | lo < k <= hi :: Less(s[lo], s[k], idx)
    ensures Rearranged(s, s, lo, hi) && Below(s, lo, lo, s[lo], idx) && Above(s, lo + 1, hi, s[lo], idx)
  {
    hide Less, AtMost, SameKind;
    TotalPreorder(s[lo], s[lo], s[lo], idx);
    forall k | lo < k <= hi ensures AtMost(s[lo], s[k], idx) { TotalPreorder(s[lo], s[k], s[k], idx); }
  }

  lemma LeftPart(s: seq<Attr>, lo: nat, i: nat, j: nat, idx: nat)
    requires lo < i && j <= i && lo < |s| && Below(s, lo, i - 1, s[lo], idx) && j < |s| && AtMost(s[j], s[lo], idx)
    ensures Below(s, lo, j, s[lo], idx)
  {
    hide AtMost;
  }

  // ------------------------------------------------------------------ quicksort

  ghost predicate Ascending(s: seq<Attr>, lo: nat, hi: int, idx: nat) {
    forall j, k | lo <= j < k <= hi && k < |s| :: AtMost(s[j], s[k], idx)
  }

  /** Two sorted parts around a pivot value make a sorted whole. */
  lemma Joined(s: seq<Attr>, lo: nat, q: nat, hi: nat, pivot: Attr, idx: nat)
    requires lo <= q < hi < |s| && Ascending(s, lo, q, idx) && Ascending(s, q + 1, hi, idx)
    requires Below(s, lo, q, pivot, idx) && Above(s, q + 1, hi, pivot, idx)
    requires Sortable(s, idx) && SameKind(s[lo], pivot, idx)
    ensures Ascending(s, lo, hi, idx)
  {
    hide AtMost, SameKind;
    forall j, k | lo <= j < k <= hi ensures AtMost(s[j], s[k], idx) {
      if j <= q < k {
        SameKinds(s[j], s[lo], pivot, s[k], idx);
        TotalPreorder(s[j], pivot, s[k], idx);
      }
    }
  }

  lemma SameKinds(a: Attr, b: Attr, pivot: Attr, c: Attr, idx: nat)
    requires SameKind(a, b, idx) && SameKind(b, pivot, idx) && SameKind(b, c, idx)
    ensures SameKind(a, pivot, idx) && SameKind(pivot, c, idx)
  {
  }

  lemma SubrangeUnchanged(s: seq<Attr>, t: seq<Attr>, lo: nat, hi: int, from: nat, to: int, pivot: Attr, idx: nat)
    requires lo <= hi + 1 <= |s| && Rearranged(s, t, lo, hi) && (to < lo || hi < from)
    ensures Ascending(s, from, to, idx) ==> Ascending(t, from, to, idx)
    ensures Below(s, from, to, pivot, idx) ==> Below(t, from, to, pivot, idx)
    ensures Above(s, from, to, pivot, idx) ==> Above(t, from, to, pivot, idx)
  {
    hide AtMost;
  }

  lemma PivotKind(s: seq<Attr>, t: seq<Attr>, k: nat, lo: nat, hi: int, m: nat, idx: nat)
    requires lo <= hi + 1 <= |s| && Rearranged(s, t, lo, hi) && Sortable(s, idx) && k < |s| && m < |s|
    ensures SameKind(t[m], s[k], idx)
  {
    hide SameKind;
    var j := Before(s, t, lo, hi, m);
    assert SameKind(s[j], s[k], idx);
  }

  /** quicksort on the slots lo..hi. */
  method Quicksort(a: array<Attr>, lo: nat, hi: int, idx: nat)
    requires lo <= hi + 1 <= a.Length && Sortable(a[..], idx)
    modifies a
    ensures Rearranged(old(a[..]), a[..], lo, hi) && Ascending(a[..], lo, hi, idx) && Sortable(a[..], idx)
    decreases hi - lo
  {
    hide Less, AtMost, SameKind, Sortable, Rearranged, Below, Above;
    if lo >= hi {
      AlreadySorted(a[..], lo, hi, idx);
      return;
    }
    hide Ascending;
    ghost var s0 := a[..];
    var q := Partition(a, lo, hi, idx);
    ghost var s1, pivot := a[..], a[lo];
    Quicksort(a, lo, q, idx);
    ghost var s2 := a[..];
    Quicksort(a, q + 1, hi, idx);
    Sorted(s0, s1, s2, a[..], lo, q, hi, idx);
  }

  lemma AlreadySorted(s: seq<Attr>, lo: nat, hi: int, idx: nat)
    requires hi <= lo <= hi + 1 <= |s|
    ensures Rearranged(s, s, lo, hi) && Ascending(s, lo, hi, idx)
  {
  }

  /** From the split through the two recursive sorts to the sorted range. */
  lemma Sorted(s0: seq<Attr>, s1: seq<Attr>, s2: seq<Attr>, s3: seq<Attr>, lo: nat, q: nat, hi: nat, idx: nat)
    requires lo <= q < hi < |s0| && Rearranged(s0, s1, lo, hi) && |s1| == |s0|
    requires Below(s1, lo, q, s1[lo], idx) && Above(s1, q + 1, hi, s1[lo], idx) && Sortable(s1, idx)
    requires Rearranged(s1, s2, lo, q) && Ascending(s2, lo, q, idx) && Sortable(s2, idx) && |s2| == |s0|
    requires Rearranged(s2, s3, q + 1, hi) && Ascending(s3, q + 1, hi, idx) && Sortable(s3, idx) && |s3| == |s0|
    ensures Rearranged(s0, s3, lo, hi) && Ascending(s3, lo, hi, idx)
  {
    hide Less, AtMost, SameKind, Sortable, Rearranged, Below, Above, Ascending;
    var pivot := s1[lo];
    RearrangedBelow(s1, s2, lo, q, pivot, idx);
    SubrangeUnchanged(s1, s2, lo, q, q + 1, hi, pivot, idx);
    SubrangeUnchanged(s2, s3, q + 1, hi, lo, q, pivot, idx);
    RearrangedBelow(s2, s3, q + 1, hi, pivot, idx);
    Widen(s1, s2, lo, q, lo, hi);
    Widen(s2, s3, q + 1, hi, lo, hi);
    RearrangedTwice(s0, s1, s2, lo, hi);
    RearrangedTwice(s0, s2, s3, lo, hi);
    RearrangedTwice(s1, s2, s3, lo, hi);
    PivotKind(s1, s3, lo, lo, hi, lo, idx);
    Joined(s3, lo, q, hi, pivot, idx);
  }

  lemma SortedKind(s: seq<Attr>, j: nat, k: nat, idx: nat)
    requires Sortable(s, idx) && j < |s| && k < |s|
    ensures SameKind(s[j], s[k], idx)
  {
    hide SameKind;
  }

  /** sort: the list in ascending order of its keys, holding the same elements. */
  method Sort(a: array<Attr>, idx: nat)
    requires Sortable(a[..], idx)
    modifies a
    ensures multiset(a[..]) == multiset(old(a[..]))
    ensures forall j, k | 0 <= j < k < a.Length :: AtMost(a[j], a[k], idx) && Ascend(a[j], a[k], idx)
  {
    hide AtMost, SameKind, Sortable, Ascend;
    ghost var was := a[..];
    Quicksort(a, 0, a.Length - 1, idx);
    assert Range(was, 0, a.Length - 1) == was && Range(a[..], 0, a.Length - 1) == a[..];
    forall j, k | 0 <= j < k < a.Length ensures AtMost(a[j], a[k], idx) && Ascend(a[j], a[k], idx) {
      assert AtMost(a[..][j], a[..][k], idx);
      SortedKind(a[..], j, k, idx);
      AtMostAscends(a[j], a[k], idx);
    }
  }
}
