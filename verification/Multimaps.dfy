/** std::multimap from values to keys: entries in order of value, equal values in order of insertion. */
module Multimaps {
  import opened Bytes
  import opened Database

  datatype Pair = Pair(value: string, key: string)

  type Multimap = seq<Pair>

  predicate Sorted(m: Multimap) { forall i, j :: 0 <= i < j < |m| ==> UpTo(m[i].value, m[j].value) }

  /** insert(): after every entry whose value is not greater. */
  function InsertPair(m: Multimap, p: Pair): Multimap {
    if m == [] then [p]
    else if Less(p.value, m[0].value) then [p] + m
    else [m[0]] + InsertPair(m[1..], p)
  }

  /** What equal_range() spans. */
  function Range(m: Multimap, value: string): Multimap {
    if m == [] then [] else (if m[0].value == value then [m[0]] else []) + Range(m[1..], value)
  }

  /** The entries left after erasing those of one value and key. */
  function Without(m: Multimap, value: string, key: string): Multimap {
    if m == [] then [] else (if m[0] == Pair(value, key) then [] else [m[0]]) + Without(m[1..], value, key)
  }

  lemma HeadIsLeast(m: Multimap)
    requires Sorted(m) && m != []
    ensures Sorted(m[1..]) && forall p :: p in m ==> UpTo(m[0].value, p.value)
  {}

  lemma ConsSorted(p: Pair, m: Multimap)
    requires Sorted(m) && forall q :: q in m ==> UpTo(p.value, q.value)
    ensures Sorted([p] + m)
  {
    var s := [p] + m;
    forall i, j | 0 <= i < j < |s| ensures UpTo(s[i].value, s[j].value) {
      assert s[j] == m[j - 1];
      if i > 0 { assert s[i] == m[i - 1]; }
    }
  }

  lemma {:induction false} InsertKeepsSorted(m: Multimap, p: Pair)
    requires Sorted(m)
    ensures Sorted(InsertPair(m, p)) && multiset(InsertPair(m, p)) == multiset(m) + multiset{p}
  {
    if m != [] {
      HeadIsLeast(m);
      assert m == [m[0]] + m[1..];
      if Less(p.value, m[0].value) {
        forall q | q in m ensures UpTo(p.value, q.value) {
          if m[0].value != q.value { LessIsTransitive(p.value, m[0].value, q.value); }
        }
        ConsSorted(p, m);
      } else {
        InsertKeepsSorted(m[1..], p);
        LessIsTotal(p.value, m[0].value);
        var rest := InsertPair(m[1..], p);
        forall q | q in rest ensures UpTo(m[0].value, q.value) {
          assert q in multiset(rest);
        }
        ConsSorted(m[0], rest);
      }
    }
  }

  /** The new entry comes last among those of its value; other values do not notice. */
  lemma {:induction false} RangeOfInsert(m: Multimap, p: Pair, value: string)
    requires Sorted(m)
    ensures Range(InsertPair(m, p), value) == Range(m, value) + (if p.value == value then [p] else [])
  {
    hide *;
    InsertCases(m, p);
    if m == [] {
      RangeCons(p, m, value);
    } else if Less(p.value, m[0].value) {
      RangeCons(p, m, value);
      if p.value == value { NothingAbove(m, value); }
    } else {
      HeadIsLeast(m);
      RangeOfInsert(m[1..], p, value);
      RangeCons(m[0], m[1..], value);
      RangeCons(m[0], InsertPair(m[1..], p), value);
      assert [m[0]] + m[1..] == m;
    }
  }

  lemma InsertCases(m: Multimap, p: Pair)
    ensures InsertPair(m, p)
            == if m == [] || Less(p.value, m[0].value) then [p] + m else [m[0]] + InsertPair(m[1..], p)
    ensures m == [] ==> forall value :: Range(m, value) == []
  {}

  lemma NothingAbove(m: Multimap, value: string)
    requires Sorted(m) && m != [] && Less(value, m[0].value)
    ensures Range(m, value) == []
  {
    HeadIsLeast(m);
    hide Range, Less, Sorted;
    assert m[0] in m;
    NothingBelow(m, value);
  }

  lemma RangeCons(p: Pair, m: Multimap, value: string)
    ensures Range([p] + m, value) == (if p.value == value then [p] else []) + Range(m, value)
  {
    assert ([p] + m)[1..] == m;
  }

  lemma {:induction false} NothingBelow(m: Multimap, value: string)
    requires forall p :: p in m ==> Less(value, p.value) || exists q :: q in m && Less(value, q.value) && UpTo(q.value, p.value)
    ensures Range(m, value) == []
  {
    forall p | p in m ensures p.value != value {
      if !Less(value, p.value) {
        var q :| q in m && Less(value, q.value) && UpTo(q.value, p.value);
        if q.value != p.value { LessIsTransitive(value, q.value, p.value); LessIsStrict(value, p.value); }
        else { LessIsStrict(value, p.value); }
      } else {
        LessIsStrict(value, p.value);
      }
    }
    NoneOf(m, value);
  }

  lemma {:induction false} NoneOf(m: Multimap, value: string)
    requires forall p :: p in m ==> p.value != value
    ensures Range(m, value) == []
  {
    if m != [] {
      assert m[0] in m && forall p :: p in m[1..] ==> p in m;
      NoneOf(m[1..], value);
    }
  }

  lemma {:induction false} WithoutCounts(m: Multimap, value: string, key: string, p: Pair)
    ensures multiset(Without(m, value, key))[p] == if p == Pair(value, key) then 0 else multiset(m)[p]
  {
    if m != [] {
      WithoutCounts(m[1..], value, key, p);
      assert m == [m[0]] + m[1..];
      assert multiset(m)[p] == multiset([m[0]])[p] + multiset(m[1..])[p];
    }
  }

  lemma {:induction false} WithoutKeepsSorted(m: Multimap, value: string, key: string)
    requires Sorted(m)
    ensures Sorted(Without(m, value, key))
    ensures forall p :: p in Without(m, value, key) ==> p in m
  {
    if m != [] {
      HeadIsLeast(m);
      assert m == [m[0]] + m[1..];
      WithoutKeepsSorted(m[1..], value, key);
      if m[0] != Pair(value, key) { ConsSorted(m[0], Without(m[1..], value, key)); }
    }
  }

  /** First position whose value is `value` or greater. */
  function LowerBound(m: Multimap, value: string): (r: nat)
    ensures r <= |m|
  {
    if m == [] || !Less(m[0].value, value) then 0 else 1 + LowerBound(m[1..], value)
  }

  /** First position whose value is greater than `value`. */
  function UpperBound(m: Multimap, value: string): (r: nat)
    ensures r <= |m|
  {
    if m == [] || Less(value, m[0].value) then 0 else 1 + UpperBound(m[1..], value)
  }

  /** The entries of a value are those between two positions. */
  predicate Between(m: Multimap, value: string, low: nat, high: nat) {
    low <= high <= |m| && m[low..high] == Range(m, value)
    && forall i :: 0 <= i < |m| ==> (m[i].value == value <==> low <= i < high)
  }

  lemma OneFurther(m: Multimap, value: string, low: nat, high: nat)
    requires m != [] && Between(m[1..], value, low, high)
    ensures m[0].value != value ==> Between(m, value, low + 1, high + 1)
    ensures m[0].value == value && low == 0 ==> Between(m, value, 0, high + 1)
  {
    SliceOfTail(m, low, high);
    assert low == 0 ==> m[0..high + 1] == [m[0]] + m[1..high + 1];
    forall i | 0 < i < |m| ensures m[i] == m[1..][i - 1] {}
  }

  lemma SliceOfTail(m: Multimap, low: nat, high: nat)
    requires low <= high < |m|
    ensures m[1..][low..high] == m[low + 1..high + 1]
  {}

  /** equal_range() is the entries of the value, all of them, between two positions. */
  lemma {:induction false} EqualRange(m: Multimap, value: string)
    requires Sorted(m)
    ensures Between(m, value, LowerBound(m, value), UpperBound(m, value))
  {
    hide Between;
    if m == [] {
      EmptyBetween(value);
    } else {
      HeadIsLeast(m);
      LessIsTotal(m[0].value, value);
      if Less(value, m[0].value) {
        LessIsStrict(value, m[0].value);
        NothingBetween(m, value);
      } else {
        EqualRange(m[1..], value);
        OneFurther(m, value, LowerBound(m[1..], value), UpperBound(m[1..], value));
        if m[0].value == value {
          LessIsIrreflexive(value);
          NoneLower(m[1..], value);
        } else {
          LessIsStrict(m[0].value, value);
        }
      }
    }
  }

  lemma RangeIsSlice(m: Multimap, value: string)
    requires Sorted(m)
    ensures LowerBound(m, value) <= UpperBound(m, value) && m[LowerBound(m, value)..UpperBound(m, value)] == Range(m, value)
  {
    hide Sorted, Range, LowerBound, UpperBound;
    EqualRange(m, value);
  }

  lemma EmptyBetween(value: string)
    ensures Between([], value, 0, 0)
  {}

  lemma NothingBetween(m: Multimap, value: string)
    requires m != [] && Less(value, m[0].value) && forall p :: p in m ==> UpTo(m[0].value, p.value)
    ensures Between(m, value, 0, 0)
  {
    LessIsStrict(value, m[0].value);
    NothingBelow(m, value);
    forall i | 0 <= i < |m| ensures m[i].value != value { assert m[i] in m; }
  }

  lemma NoneLower(m: Multimap, value: string)
    requires forall p :: p in m ==> UpTo(value, p.value)
    ensures LowerBound(m, value) == 0
  {
    if m != [] {
      assert m[0] in m;
      if m[0].value == value { LessIsIrreflexive(value); } else { LessIsStrict(value, m[0].value); }
    }
  }
}
