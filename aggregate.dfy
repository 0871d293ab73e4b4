/**
 * The room aggregate: per category, the dominant value ("mostly") and the
 * concentration score ("heat") of the votes cast in the recent windows.
 *
 * A count map is an explicit sequence of (value, count) entries in the order
 * the JavaScript object yields them; that order decides ties in `mostly`, so
 * it is an input of the model rather than something the model fixes.
 */
module Aggregate {
  import opened Options

  datatype Category = MUSIC | TEMP | READING

  /** The categories in the order the aggregate is built. */
  const Categories: seq<Category> := [MUSIC, TEMP, READING]

  /** One grouped row: a submitted value and how many events carry it. */
  datatype Entry = Entry(value: string, n: int)

  /** A count map in iteration order. */
  type Counts = seq<Entry>

  /** The two count maps queried for one category: the last 5 and the last 30 minutes. */
  datatype Windows = Windows(last5m: Counts, last30m: Counts)

  /** The windows of every category of one room, as the database returns them. */
  datatype RoomWindows = RoomWindows(music: Windows, temp: Windows, reading: Windows) {
    function For(c: Category): Windows {
      match c
      case MUSIC => music
      case TEMP => temp
      case READING => reading
    }
  }

  datatype CategoryAggregate = CategoryAggregate(
    mostly: Option<string>,
    last5m: Counts,
    last30m: Counts,
    heat: real)

  datatype RoomAggregate = RoomAggregate(roomId: string, byCategory: map<Category, CategoryAggregate>)

  /** A JavaScript object never repeats a key. */
  predicate DistinctKeys(c: Counts) {
    forall i, j :: 0 <= i < j < |c| ==> c[i].value != c[j].value
  }

  /** `Object.values(counts)`, in iteration order. */
  function Values(c: Counts): (r: seq<int>)
    ensures |r| == |c|
    ensures forall i :: 0 <= i < |c| ==> r[i] == c[i].n
  {
    if c == [] then [] else [c[0].n] + Values(c[1..])
  }

  // ---------------------------------------------------------------------------
  // computeHeat
  // ---------------------------------------------------------------------------

  predicate SortedDesc(s: seq<int>) {
    forall i, j :: 0 <= i < j < |s| ==> s[i] >= s[j]
  }

  /** `vals.reduce((a, b) => a + b, 0)`: the total of the counts, never negative when no count is. */
  function Sum(s: seq<int>): (total: int)
    ensures (forall i :: 0 <= i < |s| ==> s[i] >= 0) ==> total >= 0
  {
    if s == [] then 0
    else
      assert forall i :: 0 <= i < |s[1..]| ==> s[1..][i] == s[i + 1];
      s[0] + Sum(s[1..])
  }

  /** Inserts `x` into a descending sequence. */
  function Insert(x: int, s: seq<int>): (r: seq<int>)
    requires SortedDesc(s)
    ensures SortedDesc(r)
    ensures multiset(r) == multiset(s) + multiset{x}
    ensures |r| == |s| + 1 && (r[0] == x || (|s| > 0 && r[0] == s[0]))
  {
    if s == [] || x >= s[0] then [x] + s
    else
      assert s == [s[0]] + s[1..];
      var rest := Insert(x, s[1..]);
      assert rest[0] <= s[0];
      [s[0]] + rest
  }

  /** `vals.sort((a, b) => b - a)`: a descending permutation of the input. */
  function SortDesc(xs: seq<int>): (r: seq<int>)
    ensures SortedDesc(r)
    ensures multiset(r) == multiset(xs)
  {
    if xs == [] then []
    else
      assert xs == [xs[0]] + xs[1..];
      Insert(xs[0], SortDesc(xs[1..]))
  }

  /** `vals[0] ?? 0`: the first sorted count, the largest one, or 0 when there is none. */
  function Top(sorted: seq<int>): (t: int)
    ensures sorted == [] ==> t == 0
    ensures sorted != [] ==> t in sorted
    ensures SortedDesc(sorted) ==> forall i :: 0 <= i < |sorted| ==> sorted[i] <= t
  {
    if |sorted| > 0 then sorted[0] else 0
  }

  /** `vals[1] ?? 0`: the second sorted count, the largest after the first, or 0 when there is none. */
  function Second(sorted: seq<int>): (t: int)
    ensures |sorted| <= 1 ==> t == 0
    ensures |sorted| > 1 ==> t in sorted[1..]
    ensures SortedDesc(sorted) ==> forall i :: 1 <= i < |sorted| ==> sorted[i] <= t
  {
    if |sorted| > 1 then
      assert sorted[1..][0] == sorted[1];
      sorted[1]
    else 0
  }

  /** `Math.max(0, Math.min(1, x))` */
  function Clamp01(x: real): (r: real)
    ensures 0.0 <= r <= 1.0
    ensures 0.0 <= x <= 1.0 ==> r == x
    ensures x < 0.0 ==> r == 0.0
    ensures x > 1.0 ==> r == 1.0
  {
    if x < 0.0 then 0.0 else if x > 1.0 then 1.0 else x
  }

  /** The heat formula applied to the sorted counts: in [0, 1], and 0 when the total is 0. */
  function HeatOfSorted(sorted: seq<int>): (h: real)
    ensures 0.0 <= h <= 1.0
    ensures Sum(sorted) == 0 ==> h == 0.0
  {
    var total := Sum(sorted);
    if total == 0 then 0.0
    else Clamp01((Top(sorted) - Second(sorted)) as real / total as real)
  }

  /**
   * `computeHeat(counts)`: how concentrated the votes are, `(top - second) / total`
   * clamped to [0, 1], and 0 when the counts add up to 0.
   */
  function ComputeHeat(counts: Counts): (h: real)
    ensures 0.0 <= h <= 1.0
  {
    HeatOfSorted(SortDesc(Values(counts)))
  }

  lemma {:induction false} SumAppend(a: seq<int>, b: seq<int>)
    ensures Sum(a + b) == Sum(a) + Sum(b)
  {
    if a == [] {
      assert a + b == b;
    } else {
      assert (a + b)[0] == a[0];
      assert (a + b)[1..] == a[1..] + b;
      SumAppend(a[1..], b);
    }
  }

  /** The total does not depend on the order of the counts. */
  lemma {:induction false} SumPermutation(a: seq<int>, b: seq<int>)
    requires multiset(a) == multiset(b)
    ensures Sum(a) == Sum(b)
  {
    if a == [] {
      assert |b| == |multiset(b)| == 0;
    } else {
      assert a[0] in multiset(b) by {
        assert a[0] in multiset(a);
      }
      var i :| 0 <= i < |b| && b[i] == a[0];
      var rest := b[..i] + b[i + 1..];
      TailMultiset(a);
      RemoveAt(b, i);
      SumPermutation(a[1..], rest);
      SumRemove(b, i);
    }
  }

  /** Removing the element at `i` takes exactly that element off the total. */
  lemma {:induction false} SumRemove(b: seq<int>, i: nat)
    requires i < |b|
    ensures Sum(b) == b[i] + Sum(b[..i] + b[i + 1..])
  {
    assert b == b[..i] + [b[i]] + b[i + 1..];
    SumAppend(b[..i] + [b[i]], b[i + 1..]);
    SumAppend(b[..i], [b[i]]);
    SumAppend(b[..i], b[i + 1..]);
  }

  /** Two descending sequences with the same elements are equal: sorting has one answer. */
  lemma {:induction false} SortedUnique(a: seq<int>, b: seq<int>)
    requires SortedDesc(a) && SortedDesc(b)
    requires multiset(a) == multiset(b)
    ensures a == b
  {
    if a == [] {
      assert |b| == |multiset(b)| == 0;
    } else {
      SameHead(a, b);
      SortedTail(a);
      SortedTail(b);
      SortedUnique(a[1..], b[1..]);
      assert a == [a[0]] + a[1..] && b == [b[0]] + b[1..];
    }
  }

  /** Two descending sequences with the same elements start with the same element. */
  lemma {:induction false} SameHead(a: seq<int>, b: seq<int>)
    requires SortedDesc(a) && SortedDesc(b)
    requires multiset(a) == multiset(b) && |a| > 0
    ensures |b| > 0 && a[0] == b[0]
    ensures multiset(a[1..]) == multiset(b[1..])
  {
    assert a[0] in multiset(a);
    HeadIsLargest(b, a[0]);
    HeadIsLargest(a, b[0]);
    TailMultiset(a);
    TailMultiset(b);
  }

  lemma {:induction false} SortedTail(s: seq<int>)
    requires SortedDesc(s) && |s| > 0
    ensures SortedDesc(s[1..])
  {
  }

  /** Dropping the head removes one copy of it from the elements. */
  lemma {:induction false} TailMultiset(s: seq<int>)
    requires |s| > 0
    ensures multiset(s[1..]) == multiset(s) - multiset{s[0]}
  {
    assert s == [s[0]] + s[1..];
  }

  /**
   * The heat depends only on the multiset of counts: not on the keys, not on
   * their iteration order.
   */
  lemma {:induction false} HeatDependsOnlyOnCounts(c1: Counts, c2: Counts)
    requires multiset(Values(c1)) == multiset(Values(c2))
    ensures ComputeHeat(c1) == ComputeHeat(c2)
  {
    SortedUnique(SortDesc(Values(c1)), SortDesc(Values(c2)));
  }

  /** The head of a descending sequence is at least every element. */
  lemma {:induction false} HeadIsLargest(s: seq<int>, v: int)
    requires SortedDesc(s) && v in multiset(s)
    ensures |s| > 0 && v <= s[0]
  {
    assert v in s;
  }

  /** `top` is the largest count and `second` the largest of the others. */
  lemma {:induction false} TopAndSecond(xs: seq<int>)
    ensures |xs| > 0 ==>
      var s := SortDesc(xs);
      Top(s) in multiset(xs) && forall v | v in multiset(xs) :: v <= Top(s)
    ensures |xs| > 1 ==>
      var s := SortDesc(xs);
      var rest := multiset(xs) - multiset{Top(s)};
      Second(s) in rest && forall v | v in rest :: v <= Second(s)
  {
    var s := SortDesc(xs);
    assert |s| == |multiset(s)| == |xs|;
    if |s| > 0 {
      HeadIsMaximum(s);
      TailMultiset(s);
      if |s| > 1 {
        SortedTail(s);
        HeadIsMaximum(s[1..]);
      }
    }
  }

  /** The head of a non-empty descending sequence is one of its elements and at least all of them. */
  lemma {:induction false} HeadIsMaximum(s: seq<int>)
    requires SortedDesc(s) && |s| > 0
    ensures s[0] in multiset(s) && forall v | v in multiset(s) :: v <= s[0]
  {
    forall v | v in multiset(s) ensures v <= s[0] {
      HeadIsLargest(s, v);
    }
  }

  /** Empty counts, or counts that add up to 0, have heat 0. */
  lemma {:induction false} HeatOfNoVotes(counts: Counts)
    requires |counts| == 0 || Sum(Values(counts)) == 0
    ensures ComputeHeat(counts) == 0.0
  {
    SumPermutation(SortDesc(Values(counts)), Values(counts));
  }

  /** A non-negative part of a positive whole is a ratio in [0, 1]. */
  lemma {:induction false} RatioInUnit(a: int, t: int)
    requires 0 <= a <= t && t > 0
    ensures 0.0 <= a as real / t as real <= 1.0
  {
    assert a as real / t as real * t as real == a as real;
  }

  /** On non-negative sorted counts, `0 <= top - second <= total`, so the clamp is inert. */
  lemma {:induction false} HeatOfSortedUnclamped(s: seq<int>, total: int)
    requires SortedDesc(s)
    requires forall i :: 0 <= i < |s| ==> s[i] >= 0
    requires total == Sum(s) > 0
    ensures HeatOfSorted(s) == (Top(s) - Second(s)) as real / total as real
  {
    GapWithinTotal(s);
    RatioInUnit(Top(s) - Second(s), total);
  }

  /** On non-negative sorted counts, `0 <= top - second <= total`. */
  lemma {:induction false} GapWithinTotal(s: seq<int>)
    requires SortedDesc(s)
    requires forall i :: 0 <= i < |s| ==> s[i] >= 0
    ensures 0 <= Top(s) - Second(s) <= Sum(s)
  {
    if |s| > 0 {
      assert forall i :: 0 <= i < |s[1..]| ==> s[1..][i] == s[i + 1];
      if |s| > 1 {
        assert Sum(s[1..]) == s[1] + Sum(s[2..]);
        assert forall i :: 0 <= i < |s[2..]| ==> s[2..][i] == s[i + 2];
      }
    }
  }

  /**
   * For non-negative counts `xs` with a positive total the clamp never changes
   * `(top - second) / total`: the heat of their descending arrangement `s`
   * (`SortDesc(xs)` is one) is exactly that ratio.
   */
  lemma {:induction false} HeatUnclamped(xs: seq<int>, s: seq<int>)
    requires forall i :: 0 <= i < |xs| ==> xs[i] >= 0
    requires Sum(xs) > 0
    requires SortedDesc(s) && multiset(s) == multiset(xs)
    ensures HeatOfSorted(s) == (Top(s) - Second(s)) as real / Sum(xs) as real
  {
    forall i | 0 <= i < |s| ensures s[i] >= 0 {
      assert s[i] in multiset(xs);
    }
    SumPermutation(s, xs);
    HeatOfSortedUnclamped(s, Sum(xs));
  }

  /** The sum of a sequence that is zero everywhere but at `k`. */
  lemma {:induction false} SumOfSingleNonZero(s: seq<int>, k: nat)
    requires k < |s|
    requires forall j :: 0 <= j < |s| && j != k ==> s[j] == 0
    ensures Sum(s) == s[k]
  {
    if k == 0 {
      assert forall j :: 0 <= j < |s[1..]| ==> s[1..][j] == s[j + 1];
      ZeroSum(s[1..]);
    } else {
      SumOfSingleNonZero(s[1..], k - 1);
    }
  }

  lemma {:induction false} ZeroSum(s: seq<int>)
    requires forall j :: 0 <= j < |s| ==> s[j] == 0
    ensures Sum(s) == 0
  {
    if s != [] {
      ZeroSum(s[1..]);
    }
  }

  /** Removing the element at `k` removes one occurrence of it. */
  lemma {:induction false} RemoveAt(xs: seq<int>, k: nat)
    requires k < |xs|
    ensures multiset(xs[..k] + xs[k + 1..]) == multiset(xs) - multiset{xs[k]}
  {
    assert xs == xs[..k] + [xs[k]] + xs[k + 1..];
  }

  /** With one positive count and zeros elsewhere: top is that count, second is 0. */
  lemma {:induction false} SingleValueTopSecond(xs: seq<int>, s: seq<int>, k: nat)
    requires SortedDesc(s) && multiset(s) == multiset(xs)
    requires k < |xs| && xs[k] > 0
    requires forall j :: 0 <= j < |xs| && j != k ==> xs[j] == 0
    ensures Top(s) == xs[k] && Second(s) == 0
  {
    HeadIsLargest(s, xs[k]);
    assert s[0] in multiset(s);
    assert s[0] in xs;
    if |s| > 1 {
      SortedTail(s);
      TailMultiset(s);
      RemoveAt(xs, k);
      var without := xs[..k] + xs[k + 1..];
      assert multiset(s[1..]) == multiset(without);
      assert s[1] in without by {
        assert s[1..][0] in multiset(s[1..]);
      }
      var j :| 0 <= j < |without| && without[j] == s[1];
      if j < k {
        assert s[1] == xs[j];
      } else {
        assert s[1] == xs[j + 1];
      }
    }
  }

  /** When exactly one value has votes, the heat is 1. */
  lemma {:induction false} HeatOfSingleValue(counts: Counts, k: nat)
    requires k < |counts| && counts[k].n > 0
    requires forall j :: 0 <= j < |counts| && j != k ==> counts[j].n == 0
    ensures ComputeHeat(counts) == 1.0
  {
    var xs := Values(counts);
    var s := SortDesc(xs);
    SumOfSingleNonZero(xs, k);
    SumPermutation(s, xs);
    SingleValueTopSecond(xs, s, k);
    HeatOfSortedSingle(s);
  }

  /** A positive top that makes up the whole total, with no second, has heat 1. */
  lemma {:induction false} HeatOfSortedSingle(s: seq<int>)
    requires Top(s) > 0 && Second(s) == 0 && Sum(s) == Top(s)
    ensures HeatOfSorted(s) == 1.0
  {
    var t := Top(s) as real;
    assert t / t == 1.0;
  }

  /** When some value other than a largest one has the same count, top and second are equal. */
  lemma {:induction false} TieTopSecond(xs: seq<int>, s: seq<int>, i: nat, j: nat)
    requires SortedDesc(s) && multiset(s) == multiset(xs)
    requires i < |xs| && j < |xs| && i != j
    requires xs[i] == xs[j]
    requires forall l :: 0 <= l < |xs| ==> xs[l] <= xs[i]
    ensures Top(s) == Second(s)
  {
    HeadIsLargest(s, xs[i]);
    assert s[0] in multiset(s);
    var l :| 0 <= l < |xs| && xs[l] == s[0];
    assert s[0] == xs[i];
    SortedTail(s);
    TailMultiset(s);
    RemoveAt(xs, i);
    var without := xs[..i] + xs[i + 1..];
    assert multiset(s[1..]) == multiset(without);
    assert xs[j] in without by {
      if j < i {
        assert without[j] == xs[j];
      } else {
        assert without[j - 1] == xs[j];
      }
    }
    assert xs[j] in multiset(s[1..]);
    HeadIsLargest(s[1..], xs[j]);
    assert s[0] >= s[1];
  }

  /** When the two largest counts are equal, the heat is 0: a tie shows no consensus. */
  lemma {:induction false} HeatOfTie(counts: Counts, i: nat, j: nat)
    requires i < |counts| && j < |counts| && i != j
    requires counts[i].n == counts[j].n
    requires forall l :: 0 <= l < |counts| ==> counts[l].n <= counts[i].n
    ensures ComputeHeat(counts) == 0.0
  {
    TieTopSecond(Values(counts), SortDesc(Values(counts)), i, j);
  }

  // ---------------------------------------------------------------------------
  // mostly
  // ---------------------------------------------------------------------------

  /** Entry `k` has the largest count and no earlier entry has as large a count. */
  predicate IsFirstMax(c: Counts, k: int) {
    && 0 <= k < |c|
    && (forall j :: 0 <= j < |c| ==> c[j].n <= c[k].n)
    && (forall j :: 0 <= j < k ==> c[j].n < c[k].n)
  }

  /** The position of the first entry with the largest count. */
  function FirstMaxIndex(c: Counts): (k: nat)
    requires |c| > 0
    ensures IsFirstMax(c, k)
  {
    if |c| == 1 then 0
    else
      var k := FirstMaxIndex(c[1..]);
      if c[0].n >= c[k + 1].n then 0 else k + 1
  }

  /** Only one position is the first maximum. */
  lemma {:induction false} FirstMaxUnique(c: Counts, a: int, b: int)
    requires IsFirstMax(c, a) && IsFirstMax(c, b)
    ensures a == b
  {
    assert c[a].n == c[b].n;
  }

  /**
   * What `mostly(counts)` returns: `null` when no count is positive, otherwise
   * the key of the first entry, in iteration order, with the largest count.
   */
  function MostlyOf(c: Counts): (r: Option<string>)
    ensures r == None <==> forall i :: 0 <= i < |c| ==> c[i].n <= 0
    ensures r != None ==>
      exists k :: IsFirstMax(c, k) && c[k].n > 0 && r == Some(c[k].value)
  {
    if |c| == 0 then None
    else
      var k := FirstMaxIndex(c);
      if c[k].n <= 0 then None else Some(c[k].value)
  }

  /**
   * `mostly(counts)`: a scan that keeps the first strictly larger count seen,
   * starting from -1, and answers `null` unless the best count is positive.
   */
  method Mostly(counts: Counts) returns (r: Option<string>)
    ensures r == MostlyOf(counts)
  {
    var best: Option<string> := None;
    var bestN := -1;
    ghost var bestIndex := -1;
    for i := 0 to |counts|
      invariant -1 <= bestIndex < i || (bestIndex == -1 && i == 0)
      invariant bestIndex == -1 ==>
        best == None && bestN == -1 && forall j :: 0 <= j < i ==> counts[j].n <= -1
      invariant bestIndex >= 0 ==>
        && bestIndex < |counts|
        && best == Some(counts[bestIndex].value) && bestN == counts[bestIndex].n > -1
        && (forall j :: 0 <= j < i ==> counts[j].n <= bestN)
        && (forall j :: 0 <= j < bestIndex ==> counts[j].n < bestN)
    {
      if counts[i].n > bestN {
        best := Some(counts[i].value);
        bestN := counts[i].n;
        bestIndex := i;
      }
    }
    r := if bestN <= 0 then None else best;
    if bestIndex >= 0 && bestN > 0 {
      FirstMaxUnique(counts, bestIndex, FirstMaxIndex(counts));
    }
  }

  /** With distinct keys, the answer is the key of a largest count, preferring the earliest. */
  lemma {:induction false} MostlyIsFirstLargest(c: Counts, v: string)
    requires DistinctKeys(c)
    requires MostlyOf(c) == Some(v)
    ensures exists k :: 0 <= k < |c| && c[k].value == v
    ensures forall k :: 0 <= k < |c| && c[k].value == v ==>
      c[k].n > 0 && IsFirstMax(c, k)
  {
    var k :| IsFirstMax(c, k) && c[k].n > 0 && MostlyOf(c) == Some(c[k].value);
    forall k' | 0 <= k' < |c| && c[k'].value == v ensures k' == k {
    }
  }

  // ---------------------------------------------------------------------------
  // getAggregate
  // ---------------------------------------------------------------------------

  /**
   * The aggregate of one category: `mostly` of the 5-minute counts, falling back to
   * the 30-minute counts when that is `null`; the heat of the 5-minute counts.
   */
  function Summarize(w: Windows): (r: CategoryAggregate)
    ensures r.last5m == w.last5m && r.last30m == w.last30m
    ensures 0.0 <= r.heat <= 1.0
    ensures r.mostly.Some? ==>
      (exists k :: 0 <= k < |w.last5m| && w.last5m[k].n > 0 && r.mostly.value == w.last5m[k].value)
      || (exists k :: 0 <= k < |w.last30m| && w.last30m[k].n > 0 && r.mostly.value == w.last30m[k].value)
  {
    CategoryAggregate(
      MostlyOf(w.last5m).OrElse(MostlyOf(w.last30m)),
      w.last5m,
      w.last30m,
      ComputeHeat(w.last5m))
  }

  /**
   * `getAggregate(roomId)`: one entry for each of MUSIC, TEMP and READING, built from
   * the counts `windows` gives for that category.
   */
  method GetAggregate(roomId: string, windows: RoomWindows) returns (agg: RoomAggregate)
    ensures agg.roomId == roomId
    ensures forall c :: c in agg.byCategory
    ensures SummarizesAll(agg.byCategory, windows)
  {
    var byCategory: map<Category, CategoryAggregate> := map[];
    for i := 0 to |Categories|
      invariant HoldsFirst(byCategory, i)
      invariant SummarizesAll(byCategory, windows)
    {
      var c := Categories[i];
      var entry := SummarizeCategory(windows.For(c));
      SummaryAdded(byCategory, windows, c, entry);
      NextHeld(byCategory, i, entry);
      byCategory := byCategory[c := entry];
    }
    EveryCategoryPresent(byCategory);
    agg := RoomAggregate(roomId, byCategory);
  }

  /** Every entry of `m` is the summary of its category's windows. */
  ghost predicate SummarizesAll(m: map<Category, CategoryAggregate>, windows: RoomWindows) {
    forall c :: c in m ==> m[c] == Summarize(windows.For(c))
  }

  lemma {:induction false} SummaryAdded(m: map<Category, CategoryAggregate>, windows: RoomWindows, c: Category, entry: CategoryAggregate)
    requires SummarizesAll(m, windows) && entry == Summarize(windows.For(c))
    ensures SummarizesAll(m[c := entry], windows)
  {
  }

  /** `m` holds the first `i` categories of `Categories`. */
  ghost predicate HoldsFirst(m: map<Category, CategoryAggregate>, i: int) {
    forall j :: 0 <= j < i && j < |Categories| ==> Categories[j] in m
  }

  lemma {:induction false} NextHeld(m: map<Category, CategoryAggregate>, i: int, entry: CategoryAggregate)
    requires 0 <= i < |Categories| && HoldsFirst(m, i)
    ensures HoldsFirst(m[Categories[i] := entry], i + 1)
  {
  }

  /** A map that holds each entry of `Categories` holds every category. */
  lemma {:induction false} EveryCategoryPresent(m: map<Category, CategoryAggregate>)
    requires HoldsFirst(m, |Categories|)
    ensures forall c :: c in m
  {
    forall c ensures c in m {
      match c
      case MUSIC => assert c == Categories[0];
      case TEMP => assert c == Categories[1];
      case READING => assert c == Categories[2];
    }
  }

  /** One turn of the loop in `getAggregate`: the 5-minute `mostly`, else the 30-minute one. */
  method SummarizeCategory(w: Windows) returns (entry: CategoryAggregate)
    ensures entry == Summarize(w)
  {
    var m := Mostly(w.last5m);
    if m == None {
      m := Mostly(w.last30m);
    }
    entry := CategoryAggregate(m, w.last5m, w.last30m, ComputeHeat(w.last5m));
  }

  /**
   * The fallback: the category's `mostly` is the 5-minute answer when some recent count
   * is positive, otherwise the 30-minute answer; it is `null` only when neither window
   * has a positive count.
   */
  lemma {:induction false} MostlyFallback(w: Windows)
    ensures (exists i :: 0 <= i < |w.last5m| && w.last5m[i].n > 0) ==>
      Summarize(w).mostly == MostlyOf(w.last5m) != None
    ensures (forall i :: 0 <= i < |w.last5m| ==> w.last5m[i].n <= 0) ==>
      Summarize(w).mostly == MostlyOf(w.last30m)
    ensures Summarize(w).mostly == None <==>
      (forall i :: 0 <= i < |w.last5m| ==> w.last5m[i].n <= 0)
      && (forall i :: 0 <= i < |w.last30m| ==> w.last30m[i].n <= 0)
  {
  }

  /** A room with no events has, in every category, no `mostly` and heat 0. */
  lemma {:induction false} EmptyRoom(windows: RoomWindows)
    requires forall c :: windows.For(c) == Windows([], [])
    ensures forall c :: Summarize(windows.For(c)).mostly == None && Summarize(windows.For(c)).heat == 0.0
  {
    forall c ensures Summarize(windows.For(c)).heat == 0.0 {
      HeatOfNoVotes(windows.For(c).last5m);
    }
  }

  /**
   * Two clients vote HIGHER then LOWER: the tie gives heat 0 and `mostly` is
   * whichever value the iteration meets first.
   */
  lemma {:induction false} TwoWayTie()
    ensures var w := Windows([Entry("HIGHER", 1), Entry("LOWER", 1)], [Entry("HIGHER", 1), Entry("LOWER", 1)]);
      Summarize(w).mostly == Some("HIGHER") && Summarize(w).heat == 0.0
    ensures var w := Windows([Entry("LOWER", 1), Entry("HIGHER", 1)], [Entry("LOWER", 1), Entry("HIGHER", 1)]);
      Summarize(w).mostly == Some("LOWER") && Summarize(w).heat == 0.0
  {
    HeatOfTie([Entry("HIGHER", 1), Entry("LOWER", 1)], 0, 1);
    HeatOfTie([Entry("LOWER", 1), Entry("HIGHER", 1)], 0, 1);
  }
}
