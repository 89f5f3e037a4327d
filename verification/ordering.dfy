/** Order-preserving selection and ordering by a (date, time) key, the two
    query operations the timeline view is built from. Where unset keys go
    is the database's choice, so it is a parameter: `nullsFirst`. */
module Ordering {
  import opened Common

  /** An `order_by('date_start', 'time_start')` key. */
  datatype Key = Key(primary: Option<int>, secondary: Option<int>)

  /** Non-strict order on one nullable column. */
  predicate OptLe(nullsFirst: bool, a: Option<int>, b: Option<int>) {
    match (a, b)
    case (None, None) => true
    case (None, Some(_)) => nullsFirst
    case (Some(_), None) => !nullsFirst
    case (Some(x), Some(y)) => x <= y
  }

  /** Lexicographic order on the two columns. */
  predicate KeyLe(nullsFirst: bool, a: Key, b: Key) {
    (OptLe(nullsFirst, a.primary, b.primary) && a.primary != b.primary) ||
    (a.primary == b.primary && OptLe(nullsFirst, a.secondary, b.secondary))
  }

  /** The key order is total and transitive, so sorting by it is
      meaningful. */
  lemma KeyLeTotalPreorder(nullsFirst: bool, a: Key, b: Key, c: Key)
    ensures KeyLe(nullsFirst, a, b) || KeyLe(nullsFirst, b, a)
    ensures KeyLe(nullsFirst, a, b) && KeyLe(nullsFirst, b, c) ==> KeyLe(nullsFirst, a, c)
  {
  }

  /** On keys whose columns are both set, the key order is the order of
      the instants `day * 86400 + second` they denote. */
  lemma {:induction false} KeyLeIsChronological(nullsFirst: bool, d1: int, t1: int, d2: int, t2: int)
    requires 0 <= t1 < 86400 && 0 <= t2 < 86400
    ensures KeyLe(nullsFirst, Key(Some(d1), Some(t1)), Key(Some(d2), Some(t2)))
        <==> d1 * 86400 + t1 <= d2 * 86400 + t2
  {
    if d1 < d2 {
      assert d1 * 86400 + 86400 <= d2 * 86400;
    } else if d2 < d1 {
      assert d2 * 86400 + 86400 <= d1 * 86400;
    }
  }

  predicate SortedBy<T>(s: seq<T>, key: T -> Key, nullsFirst: bool) {
    forall i, j :: 0 <= i < j < |s| ==> KeyLe(nullsFirst, key(s[i]), key(s[j]))
  }

  /** The elements of `s` that satisfy `p`, in their original order. */
  function Filter<T>(s: seq<T>, p: T -> bool): seq<T> {
    if s == [] then []
    else if p(s[0]) then [s[0]] + Filter(s[1..], p)
    else Filter(s[1..], p)
  }

  /** Filtering keeps every occurrence of a selected element and none of
      any other. */
  lemma {:induction false} FilterCount<T>(s: seq<T>, p: T -> bool, x: T)
    ensures multiset(Filter(s, p))[x] == if p(x) then multiset(s)[x] else 0
  {
    if s != [] {
      FilterCount(s[1..], p, x);
      assert s == [s[0]] + s[1..];
    }
  }

  lemma FilterMembership<T>(s: seq<T>, p: T -> bool, x: T)
    ensures x in Filter(s, p) <==> x in s && p(x)
  {
    FilterCount(s, p, x);
    assert x in s <==> multiset(s)[x] > 0;
  }

  /** `x` placed before the first element it does not follow. Equal keys
      keep their order. */
  function InsertBy<T>(x: T, s: seq<T>, key: T -> Key, nullsFirst: bool): seq<T> {
    if s == [] || KeyLe(nullsFirst, key(x), key(s[0])) then [x] + s
    else [s[0]] + InsertBy(x, s[1..], key, nullsFirst)
  }

  /** Stable insertion sort. */
  function SortBy<T>(s: seq<T>, key: T -> Key, nullsFirst: bool): seq<T> {
    if s == [] then [] else InsertBy(s[0], SortBy(s[1..], key, nullsFirst), key, nullsFirst)
  }

  lemma {:induction false} InsertByPermutes<T>(x: T, s: seq<T>, key: T -> Key, nullsFirst: bool)
    ensures multiset(InsertBy(x, s, key, nullsFirst)) == multiset{x} + multiset(s)
  {
    if s != [] && !KeyLe(nullsFirst, key(x), key(s[0])) {
      InsertByPermutes(x, s[1..], key, nullsFirst);
      assert s == [s[0]] + s[1..];
    }
  }

  lemma {:induction false} InsertBySorted<T>(x: T, s: seq<T>, key: T -> Key, nullsFirst: bool)
    requires SortedBy(s, key, nullsFirst)
    ensures SortedBy(InsertBy(x, s, key, nullsFirst), key, nullsFirst)
  {
    var r := InsertBy(x, s, key, nullsFirst);
    if s == [] {
    } else if KeyLe(nullsFirst, key(x), key(s[0])) {
      forall i, j | 0 <= i < j < |r| ensures KeyLe(nullsFirst, key(r[i]), key(r[j])) {
        if i == 0 {
          KeyLeTotalPreorder(nullsFirst, key(x), key(s[0]), key(s[j - 1]));
        }
      }
    } else {
      var t := InsertBy(x, s[1..], key, nullsFirst);
      InsertBySorted(x, s[1..], key, nullsFirst);
      InsertByPermutes(x, s[1..], key, nullsFirst);
      KeyLeTotalPreorder(nullsFirst, key(x), key(s[0]), key(s[0]));
      forall j | 0 <= j < |t| ensures KeyLe(nullsFirst, key(s[0]), key(t[j])) {
        assert t[j] in multiset(t);
        assert t[j] == x || t[j] in multiset(s[1..]);
        if t[j] != x {
          var k :| 0 <= k < |s[1..]| && s[1..][k] == t[j];
        }
      }
      assert r == [s[0]] + t;
    }
  }

  /** Sorting yields the input's elements, each as often as before, in
      non-decreasing key order. */
  lemma {:induction false} SortByCorrect<T>(s: seq<T>, key: T -> Key, nullsFirst: bool)
    ensures multiset(SortBy(s, key, nullsFirst)) == multiset(s)
    ensures SortedBy(SortBy(s, key, nullsFirst), key, nullsFirst)
  {
    if s != [] {
      SortByCorrect(s[1..], key, nullsFirst);
      InsertByPermutes(s[0], SortBy(s[1..], key, nullsFirst), key, nullsFirst);
      InsertBySorted(s[0], SortBy(s[1..], key, nullsFirst), key, nullsFirst);
      assert s == [s[0]] + s[1..];
    }
  }

  /** Two keys that each precede the other are the same key. */
  lemma KeyLeAntisymmetric(nullsFirst: bool, a: Key, b: Key)
    ensures KeyLe(nullsFirst, a, b) && KeyLe(nullsFirst, b, a) ==> a == b
  {
  }

  /** In a sorted sequence, every row between two rows with the same key
      has that key too. */
  lemma {:induction false} SortedRunShareKey<T>(s: seq<T>, key: T -> Key, nullsFirst: bool, k: int)
    requires SortedBy(s, key, nullsFirst)
    requires 0 <= k < |s| && key(s[k]) == key(s[0])
    ensures forall i :: 0 <= i <= k ==> key(s[i]) == key(s[0])
  {
    forall i | 0 <= i <= k ensures key(s[i]) == key(s[0]) {
      if 0 < i < k {
        KeyLeAntisymmetric(nullsFirst, key(s[0]), key(s[i]));
      }
    }
  }

  /** Removing one row from a sorted sequence leaves it sorted and removes
      exactly that row. */
  lemma {:induction false} SortedRemove<T>(s: seq<T>, key: T -> Key, nullsFirst: bool, k: int)
    requires SortedBy(s, key, nullsFirst) && 0 <= k < |s|
    ensures SortedBy(s[..k] + s[k + 1..], key, nullsFirst)
    ensures multiset(s[..k] + s[k + 1..]) == multiset(s) - multiset{s[k]}
  {
    var rest := s[..k] + s[k + 1..];
    assert s == s[..k] + [s[k]] + s[k + 1..];
    assert multiset(s) == multiset(s[..k]) + multiset{s[k]} + multiset(s[k + 1..]);
    forall i, j | 0 <= i < j < |rest| ensures KeyLe(nullsFirst, key(rest[i]), key(rest[j])) {
      var i' := if i < k then i else i + 1;
      var j' := if j < k then j else j + 1;
      assert rest[i] == s[i'] && rest[j] == s[j'];
    }
  }

  /** Two sorted arrangements of the same rows start with the same key;
      `k` is where the first row of `t` sits in `s`. */
  lemma {:induction false} SortedFirstKeysAgree<T>(s: seq<T>, t: seq<T>, key: T -> Key, nullsFirst: bool) returns (k: int)
    requires SortedBy(s, key, nullsFirst) && SortedBy(t, key, nullsFirst)
    requires multiset(s) == multiset(t) && s != []
    ensures |t| == |s| && 0 <= k < |s| && s[k] == t[0]
    ensures key(s[k]) == key(s[0])
  {
    assert |s| == |multiset(s)| == |multiset(t)| == |t|;
    assert t[0] in multiset(s);
    k :| 0 <= k < |s| && s[k] == t[0];
    assert s[0] in multiset(t);
    var m :| 0 <= m < |t| && t[m] == s[0];
    assert KeyLe(nullsFirst, key(s[0]), key(s[k]));
    assert KeyLe(nullsFirst, key(t[0]), key(t[m]));
    KeyLeAntisymmetric(nullsFirst, key(s[0]), key(t[0]));
  }

  /** One step of the comparison below: take the first row of `t` out of
      both arrangements; what is left is again two sorted arrangements of
      the same rows, and rows 0 to `k` of `s` share the removed row's key. */
  lemma {:induction false} SortedPeelFirst<T>(s: seq<T>, t: seq<T>, key: T -> Key, nullsFirst: bool)
      returns (k: int, rest: seq<T>, tail: seq<T>)
    requires SortedBy(s, key, nullsFirst) && SortedBy(t, key, nullsFirst)
    requires multiset(s) == multiset(t) && s != []
    ensures |s| == |t| && 0 <= k < |s| && s[k] == t[0]
    ensures rest == s[..k] + s[k + 1..] && tail == t[1..]
    ensures forall i :: 0 <= i <= k ==> key(s[i]) == key(s[0])
    ensures SortedBy(rest, key, nullsFirst) && SortedBy(tail, key, nullsFirst)
    ensures multiset(rest) == multiset(tail)
  {
    k := SortedFirstKeysAgree(s, t, key, nullsFirst);
    rest, tail := s[..k] + s[k + 1..], t[1..];
    SortedRemove(s, key, nullsFirst, k);
    assert multiset(rest) == multiset(s) - multiset{t[0]};
    assert t == [t[0]] + tail;
    assert multiset(tail) == multiset(t) - multiset{t[0]};
    SortedRunShareKey(s, key, nullsFirst, k);
  }

  /** However rows with equal keys are arranged, any two orderings of the
      same rows list the same keys at every position: the order the page
      shows is fixed up to swapping rows whose keys are equal. */
  lemma {:induction false} SortedPermutationsShareKeys<T>(s: seq<T>, t: seq<T>, key: T -> Key, nullsFirst: bool)
    requires SortedBy(s, key, nullsFirst) && SortedBy(t, key, nullsFirst)
    requires multiset(s) == multiset(t)
    ensures |s| == |t|
    ensures forall i :: 0 <= i < |s| ==> key(s[i]) == key(t[i])
    decreases |s|
  {
    assert |s| == |multiset(s)| == |multiset(t)| == |t|;
    if s != [] {
      var k, rest, tail := SortedPeelFirst(s, t, key, nullsFirst);
      SortedPermutationsShareKeys(rest, tail, key, nullsFirst);
      ReassembleKeys(s, t, rest, tail, key, k);
    }
  }

  /** The key bookkeeping of the step above: rows 0 to `k` of `s` share one
      key, row `k` of `s` heads `t`, and `s` without row `k` lists the keys
      of the tail of `t`. */
  lemma {:induction false} ReassembleKeys<T>(s: seq<T>, t: seq<T>, rest: seq<T>, tail: seq<T>, key: T -> Key, k: int)
    requires |s| == |t| && 0 <= k < |s|
    requires rest == s[..k] + s[k + 1..] && tail == t[1..]
    requires forall i :: 0 <= i <= k ==> key(s[i]) == key(s[0])
    requires s[k] == t[0]
    requires forall i :: 0 <= i < |rest| ==> key(rest[i]) == key(tail[i])
    ensures forall i :: 0 <= i < |s| ==> key(s[i]) == key(t[i])
  {
    forall i | 0 <= i < |s| ensures key(s[i]) == key(t[i]) {
      if i == 0 {
        assert key(s[k]) == key(s[0]);
      } else {
        assert tail[i - 1] == t[i];
        assert key(t[i]) == key(rest[i - 1]);
        if i - 1 < k {
          assert rest[i - 1] == s[i - 1];
          assert key(s[i - 1]) == key(s[0]) == key(s[i]);
        } else {
          assert rest[i - 1] == s[i];
        }
      }
    }
  }

  /** Ordering rows that are already in key order keeps the key at every
      position, whatever happens among rows with equal keys. */
  lemma {:induction false} SortByKeepsSortedKeys<T>(s: seq<T>, key: T -> Key, nullsFirst: bool)
    requires SortedBy(s, key, nullsFirst)
    ensures |SortBy(s, key, nullsFirst)| == |s|
    ensures forall i :: 0 <= i < |s| ==> key(SortBy(s, key, nullsFirst)[i]) == key(s[i])
  {
    SortByCorrect(s, key, nullsFirst);
    SortedPermutationsShareKeys(SortBy(s, key, nullsFirst), s, key, nullsFirst);
  }
}
