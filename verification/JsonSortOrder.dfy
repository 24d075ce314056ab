/**
 In which order sort_list leaves members with equal names: the merge prefers the second list, so they
 come out in reverse. With the order of names and the permutation this determines the whole result.
 */
module JsonSortOrder {
  import opened Json
  import opened JsonSort

  /** The members with this name, in their order. */
  function Named(ms: seq<Member>, key: string, cs: bool): seq<Member>
  {
    if ms == [] then []
    else (if Compare(key, ms[0].key, cs) == 0 then [ms[0]] else []) + Named(ms[1..], key, cs)
  }

  function Reversed(ms: seq<Member>): seq<Member>
  {
    if ms == [] then [] else Reversed(ms[1..]) + [ms[0]]
  }

  lemma {:induction false} NamedAppend(a: seq<Member>, b: seq<Member>, key: string, cs: bool)
    ensures Named(a + b, key, cs) == Named(a, key, cs) + Named(b, key, cs)
  {
    if a == [] {
      assert a + b == b;
    } else {
      assert (a + b)[1..] == a[1..] + b;
      NamedAppend(a[1..], b, key, cs);
    }
  }

  lemma {:induction false} ReversedAppend(a: seq<Member>, b: seq<Member>)
    ensures Reversed(a + b) == Reversed(b) + Reversed(a)
  {
    if a == [] {
      assert a + b == b;
    } else {
      assert (a + b)[1..] == a[1..] + b;
      ReversedAppend(a[1..], b);
    }
  }

  lemma FewReversed(ms: seq<Member>)
    requires |ms| <= 1
    ensures Reversed(ms) == ms
  {
  }

  /** No member of this name behind one that comes after it. */
  lemma {:induction false} NoneNamed(ms: seq<Member>, key: string, cs: bool)
    requires forall i | 0 <= i < |ms| :: Compare(key, ms[i].key, cs) < 0
    ensures Named(ms, key, cs) == []
  {
    if ms != [] { NoneNamed(ms[1..], key, cs); }
  }

  lemma AllAfter(m: Member, ms: seq<Member>, key: string, cs: bool)
    requires Compare(key, m.key, cs) == 0 && Sorted(ms, cs) && (ms != [] ==> Compare(m.key, ms[0].key, cs) < 0)
    ensures Named(ms, key, cs) == []
  {
    forall i | 0 <= i < |ms| ensures Compare(key, ms[i].key, cs) < 0 {
      CompareTransitive(key, m.key, ms[0].key, cs);
      if i > 0 { CompareTransitive(key, ms[0].key, ms[i].key, cs); }
    }
    NoneNamed(ms, key, cs);
  }

  lemma {:induction false} MergePrefersSecond(a: seq<Member>, b: seq<Member>, key: string, cs: bool)
    requires Sorted(a, cs) && Sorted(b, cs)
    ensures Named(Merge(a, b, cs), key, cs) == Named(b, key, cs) + Named(a, key, cs)
    decreases |a| + |b|
  {
    if a == [] || b == [] {
    } else if Less(a[0], b[0], cs) {
      MergePrefersSecond(a[1..], b, key, cs);
      if Compare(key, a[0].key, cs) == 0 { AllAfter(a[0], b, key, cs); }
    } else {
      MergePrefersSecond(a, b[1..], key, cs);
    }
  }

  lemma AtMostOneNamed(ms: seq<Member>, key: string, cs: bool)
    requires ms != [] && StrictlySorted(ms, cs) && Compare(key, ms[0].key, cs) == 0
    ensures Named(ms, key, cs) == [ms[0]]
  {
    AllAfter(ms[0], ms[1..], key, cs);
  }

  /** Strictly ascending names have at most one member each. */
  lemma {:induction false} NamedOnce(ms: seq<Member>, key: string, cs: bool)
    requires StrictlySorted(ms, cs)
    ensures |Named(ms, key, cs)| <= 1
  {
    if ms != [] {
      if Compare(key, ms[0].key, cs) == 0 { AtMostOneNamed(ms, key, cs); } else { NamedOnce(ms[1..], key, cs); }
    }
  }

  lemma {:induction false} AscendingStrict(ms: seq<Member>, cs: bool)
    requires Ascending(ms, cs)
    ensures StrictlySorted(ms, cs)
  {
    if |ms| > 1 {
      AscendingStrict(ms[1..], cs);
      forall j | 0 < j < |ms| ensures Compare(ms[0].key, ms[j].key, cs) < 0 {
        assert Less(ms[0], ms[1], cs);
        if j > 1 {
          assert Compare(ms[1..][0].key, ms[1..][j - 1].key, cs) < 0;
          CompareTransitive(ms[0].key, ms[1].key, ms[j].key, cs);
        }
      }
      assert forall i | 0 < i < |ms| :: ms[i] == ms[1..][i - 1];
    }
  }

  lemma InOrderReversed(ms: seq<Member>, key: string, cs: bool)
    requires Ascending(ms, cs)
    ensures Reversed(Named(ms, key, cs)) == Named(ms, key, cs)
  {
    AscendingStrict(ms, cs);
    NamedOnce(ms, key, cs);
    FewReversed(Named(ms, key, cs));
  }

  lemma SortUnfold(ms: seq<Member>, a: seq<Member>, b: seq<Member>, cs: bool)
    requires |ms| > 1 && !Ascending(ms, cs) && a == ms[..(|ms| + 1) / 2] && b == ms[(|ms| + 1) / 2..]
    ensures ms == a + b && Sort(ms, cs) == Merge(Sort(a, cs), Sort(b, cs), cs)
  {
  }

  /** Members whose names compare as equal come out in reverse order, for every list. */
  lemma {:induction false} SortReversesEqual(ms: seq<Member>, key: string, cs: bool)
    ensures Named(Sort(ms, cs), key, cs) == Reversed(Named(ms, key, cs))
    decreases |ms|
  {
    if |ms| <= 1 || Ascending(ms, cs) {
      InOrderReversed(ms, key, cs);
    } else {
      var half := (|ms| + 1) / 2;
      var a, b := ms[..half], ms[half..];
      SortUnfold(ms, a, b, cs);
      SortReversesEqual(a, key, cs);
      SortReversesEqual(b, key, cs);
      MergeReverses(a, b, key, cs);
    }
  }

  lemma MergeReverses(a: seq<Member>, b: seq<Member>, key: string, cs: bool)
    requires Named(Sort(a, cs), key, cs) == Reversed(Named(a, key, cs))
    requires Named(Sort(b, cs), key, cs) == Reversed(Named(b, key, cs))
    ensures Named(Merge(Sort(a, cs), Sort(b, cs), cs), key, cs) == Reversed(Named(a + b, key, cs))
  {
    SortSorted(a, cs);
    SortSorted(b, cs);
    MergePrefersSecond(Sort(a, cs), Sort(b, cs), key, cs);
    NamedAppend(a, b, key, cs);
    ReversedAppend(Named(a, key, cs), Named(b, key, cs));
  }
}
