/** Lists with a key: the first element of each key, the last value of each key, and filtering. */
module Keyed {

  predicate HasKey<T, K(==)>(key: T -> K, s: seq<T>, k: K) {
    exists i :: 0 <= i < |s| && key(s[i]) == k
  }

  ghost predicate DistinctBy<T, K>(key: T -> K, s: seq<T>) {
    forall i, j :: 0 <= i < j < |s| ==> key(s[i]) != key(s[j])
  }

  function Kept<T>(s: seq<T>, keep: T -> bool): seq<T> {
    if s == [] then []
    else
      var front, last := Kept(s[..|s| - 1], keep), s[|s| - 1];
      if keep(last) then front + [last] else front
  }

  predicate Increasing(index: seq<nat>, n: nat) {
    (forall i :: 0 <= i < |index| ==> index[i] < n) && (forall i, j :: 0 <= i < j < |index| ==> index[i] < index[j])
  }

  /** The positions that pass. */
  function Positions<T>(s: seq<T>, keep: T -> bool): seq<nat> {
    if s == [] then []
    else
      var front, n := Positions(s[..|s| - 1], keep), |s| - 1;
      if keep(s[n]) then front + [n] else front
  }

  lemma {:induction false} PositionsIncrease<T>(s: seq<T>, keep: T -> bool)
    ensures Increasing(Positions(s, keep), |s|)
  {
    if s != [] {
      PositionsIncrease(s[..|s| - 1], keep);
    }
  }

  lemma {:induction false} PositionsExact<T>(s: seq<T>, keep: T -> bool, r: nat)
    ensures r in Positions(s, keep) <==> r < |s| && keep(s[r])
  {
    if s != [] {
      PositionsExact(s[..|s| - 1], keep, r);
    }
  }

  lemma {:induction false} KeptAt<T>(s: seq<T>, keep: T -> bool, i: nat)
    ensures |Kept(s, keep)| == |Positions(s, keep)|
    ensures i < |Kept(s, keep)| ==> Positions(s, keep)[i] < |s| && Kept(s, keep)[i] == s[Positions(s, keep)[i]]
  {
    if s != [] {
      KeptAt(s[..|s| - 1], keep, i);
    }
  }

  /** Filtering keeps exactly the elements that pass, in order. */
  lemma KeptInOrder<T>(s: seq<T>, keep: T -> bool) returns (index: seq<nat>)
    ensures |index| == |Kept(s, keep)| && Increasing(index, |s|)
    ensures forall i :: 0 <= i < |index| ==> Kept(s, keep)[i] == s[index[i]]
    ensures forall r :: 0 <= r < |s| ==> (r in index <==> keep(s[r]))
  {
    hide Kept, Positions;
    index := Positions(s, keep);
    PositionsIncrease(s, keep);
    KeptAt(s, keep, 0);
    forall i | 0 <= i < |index| ensures Kept(s, keep)[i] == s[index[i]] {
      KeptAt(s, keep, i);
    }
    forall r | 0 <= r < |s| ensures r in index <==> keep(s[r]) {
      PositionsExact(s, keep, r);
    }
  }

  lemma {:induction false} KeptAll<T>(s: seq<T>, keep: T -> bool)
    requires forall i :: 0 <= i < |s| ==> keep(s[i])
    ensures Kept(s, keep) == s
  {
    if s != [] {
      KeptAll(s[..|s| - 1], keep);
    }
  }

  lemma {:induction false} KeptConcat<T>(a: seq<T>, b: seq<T>, keep: T -> bool)
    ensures Kept(a + b, keep) == Kept(a, keep) + Kept(b, keep)
  {
    if b == [] {
      assert a + b == a;
    } else {
      var n := |b| - 1;
      assert (a + b)[..|a + b| - 1] == a + b[..n];
      KeptConcat(a, b[..n], keep);
    }
  }

  /** The first element of each key, in order. */
  function FirstOf<T, K(==)>(key: T -> K, s: seq<T>): seq<T> {
    if s == [] then []
    else
      var front, last := FirstOf(key, s[..|s| - 1]), s[|s| - 1];
      if HasKey(key, front, key(last)) then front else front + [last]
  }

  predicate IsFirst<T, K(==)>(key: T -> K, s: seq<T>, r: nat)
    requires r < |s|
  {
    !HasKey(key, s[..r], key(s[r]))
  }

  lemma HasKeySnoc<T, K>(key: T -> K, s: seq<T>, last: T, k: K)
    ensures HasKey(key, s + [last], k) <==> HasKey(key, s, k) || key(last) == k
  {
    var all := s + [last];
    if HasKey(key, s, k) {
      var i :| 0 <= i < |s| && key(s[i]) == k;
      assert all[i] == s[i];
    }
    assert all[|s|] == last;
  }

  lemma HasKeyConcat<T, K>(key: T -> K, a: seq<T>, b: seq<T>, k: K)
    ensures HasKey(key, a + b, k) <==> HasKey(key, a, k) || HasKey(key, b, k)
  {
    if HasKey(key, a, k) {
      var i :| 0 <= i < |a| && key(a[i]) == k;
      assert (a + b)[i] == a[i];
    }
    if HasKey(key, b, k) {
      var i :| 0 <= i < |b| && key(b[i]) == k;
      assert (a + b)[|a| + i] == b[i];
    }
  }

  lemma {:induction false} FirstOfKeys<T, K>(key: T -> K, s: seq<T>, k: K)
    ensures HasKey(key, FirstOf(key, s), k) <==> HasKey(key, s, k)
  {
    hide HasKey;
    if s != [] {
      var front, last := s[..|s| - 1], s[|s| - 1];
      assert s == front + [last];
      FirstOfKeys(key, front, k);
      HasKeySnoc(key, front, last, k);
      HasKeySnoc(key, FirstOf(key, front), last, k);
    }
  }

  /** Where the first elements of their keys are. */
  function Firsts<T, K(==)>(key: T -> K, s: seq<T>): seq<nat> {
    if s == [] then []
    else
      var front, n := Firsts(key, s[..|s| - 1]), |s| - 1;
      if IsFirst(key, s, n) then front + [n] else front
  }

  lemma {:induction false} FirstsIncrease<T, K>(key: T -> K, s: seq<T>)
    ensures Increasing(Firsts(key, s), |s|)
  {
    hide IsFirst;
    if s != [] {
      FirstsIncrease(key, s[..|s| - 1]);
    }
  }

  lemma IsFirstPrefix<T, K>(key: T -> K, s: seq<T>, n: nat, r: nat)
    requires r < n <= |s|
    ensures IsFirst(key, s, r) <==> IsFirst(key, s[..n], r)
  {
    hide HasKey;
    assert s[..n][..r] == s[..r];
  }

  lemma {:induction false} FirstsExact<T, K>(key: T -> K, s: seq<T>, r: nat)
    ensures r in Firsts(key, s) <==> r < |s| && IsFirst(key, s, r)
  {
    hide IsFirst;
    if s != [] {
      var n := |s| - 1;
      FirstsExact(key, s[..n], r);
      if r < n {
        IsFirstPrefix(key, s, n, r);
      }
    }
  }

  lemma LastIsFirst<T, K>(key: T -> K, s: seq<T>)
    requires s != []
    ensures IsFirst(key, s, |s| - 1) <==> !HasKey(key, FirstOf(key, s[..|s| - 1]), key(s[|s| - 1]))
  {
    FirstOfKeys(key, s[..|s| - 1], key(s[|s| - 1]));
  }

  lemma {:induction false} FirstOfAt<T, K>(key: T -> K, s: seq<T>, i: nat)
    ensures |FirstOf(key, s)| == |Firsts(key, s)|
    ensures i < |FirstOf(key, s)| ==> Firsts(key, s)[i] < |s| && FirstOf(key, s)[i] == s[Firsts(key, s)[i]]
  {
    hide HasKey, IsFirst;
    if s != [] {
      FirstOfAt(key, s[..|s| - 1], i);
      LastIsFirst(key, s);
    }
  }

  /** The kept elements are exactly the first ones of their key, in order. */
  lemma FirstOfInOrder<T, K>(key: T -> K, s: seq<T>) returns (index: seq<nat>)
    ensures |index| == |FirstOf(key, s)| && Increasing(index, |s|)
    ensures forall i :: 0 <= i < |index| ==> FirstOf(key, s)[i] == s[index[i]]
    ensures forall r :: 0 <= r < |s| ==> (r in index <==> IsFirst(key, s, r))
  {
    hide IsFirst, FirstOf, Firsts;
    index := Firsts(key, s);
    FirstsIncrease(key, s);
    FirstOfAt(key, s, 0);
    forall i | 0 <= i < |index| ensures FirstOf(key, s)[i] == s[index[i]] {
      FirstOfAt(key, s, i);
    }
    forall r | 0 <= r < |s| ensures r in index <==> IsFirst(key, s, r) {
      FirstsExact(key, s, r);
    }
  }

  lemma {:induction false} FirstOfDistinct<T, K>(key: T -> K, s: seq<T>)
    ensures DistinctBy(key, FirstOf(key, s))
  {
    if s != [] {
      FirstOfDistinct(key, s[..|s| - 1]);
    }
  }

  lemma {:induction false} FirstOfSelf<T, K>(key: T -> K, s: seq<T>)
    requires DistinctBy(key, s)
    ensures FirstOf(key, s) == s
  {
    if s != [] {
      FirstOfSelf(key, s[..|s| - 1]);
    }
  }

  lemma {:induction false} FirstOfPrefix<T, K>(key: T -> K, a: seq<T>, b: seq<T>)
    ensures FirstOf(key, a) <= FirstOf(key, a + b)
  {
    hide HasKey;
    if b != [] {
      assert (a + b)[..|a + b| - 1] == a + b[..|b| - 1];
      FirstOfPrefix(key, a, b[..|b| - 1]);
    } else {
      assert a + b == a;
    }
  }

  /** Elements whose keys are known already are all dropped. */
  lemma {:induction false} FirstOfKnown<T, K>(key: T -> K, a: seq<T>, b: seq<T>)
    requires forall i :: 0 <= i < |b| ==> HasKey(key, a, key(b[i]))
    ensures FirstOf(key, a + b) == FirstOf(key, a)
  {
    hide HasKey;
    if b != [] {
      var n := |b| - 1;
      assert (a + b)[..|a + b| - 1] == a + b[..n];
      FirstOfKnown(key, a, b[..n]);
      assert HasKey(key, a, key(b[n]));
      FirstOfKeys(key, a, key(b[n]));
    } else {
      assert a + b == a;
    }
  }

  // ---- A map in insertion order, as the list of its values ----

  function IndexOfKey<T, K(==)>(key: T -> K, values: seq<T>, k: K): (p: nat)
    ensures p <= |values| && (p < |values| ==> key(values[p]) == k) && (p == |values| ==> !HasKey(key, values, k))
  {
    if values == [] || key(values[0]) == k then 0 else 1 + IndexOfKey(key, values[1..], k)
  }

  /** `map.set(key(value), value)`: a known key keeps its place. */
  function Put<T, K(==)>(key: T -> K, values: seq<T>, value: T): seq<T> {
    var p := IndexOfKey(key, values, key(value));
    if p < |values| then values[p := value] else values + [value]
  }

  function Puts<T, K(==)>(key: T -> K, s: seq<T>): seq<T> {
    if s == [] then [] else Put(key, Puts(key, s[..|s| - 1]), s[|s| - 1])
  }

  /** The last element of a key. */
  function LastOf<T, K(==)>(key: T -> K, s: seq<T>, k: K): (t: T)
    requires HasKey(key, s, k)
    ensures key(t) == k
  {
    var n := |s| - 1;
    if key(s[n]) == k then s[n]
    else
      assert s == s[..n] + [s[n]];
      HasKeySnoc(key, s[..n], s[n], k);
      LastOf(key, s[..n], k)
  }

  lemma {:induction false} LastOfAt<T, K>(key: T -> K, s: seq<T>, k: K) returns (p: nat)
    requires HasKey(key, s, k)
    ensures p < |s| && s[p] == LastOf(key, s, k) && forall q :: p < q < |s| ==> key(s[q]) != k
  {
    p := |s| - 1;
    if key(s[p]) != k {
      assert s == s[..p] + [s[p]];
      HasKeySnoc(key, s[..p], s[p], k);
      p := LastOfAt(key, s[..p], k);
    }
  }

  ghost predicate SameKeys<T, K>(key: T -> K, x: seq<T>, y: seq<T>) {
    |x| == |y| && forall i :: 0 <= i < |x| ==> key(x[i]) == key(y[i])
  }

  lemma SameKeysHas<T, K>(key: T -> K, x: seq<T>, y: seq<T>, k: K)
    requires SameKeys(key, x, y)
    ensures HasKey(key, x, k) <==> HasKey(key, y, k)
  {
  }

  lemma {:induction false} PutsKeys<T, K>(key: T -> K, s: seq<T>)
    ensures SameKeys(key, Puts(key, s), FirstOf(key, s))
  {
    if s != [] {
      var front, last := s[..|s| - 1], s[|s| - 1];
      PutsKeys(key, front);
      SameKeysHas(key, Puts(key, front), FirstOf(key, front), key(last));
    }
  }

  lemma PutsDistinct<T, K>(key: T -> K, s: seq<T>)
    ensures DistinctBy(key, Puts(key, s))
  {
  }

  lemma PutsHas<T, K>(key: T -> K, s: seq<T>, k: K)
    ensures HasKey(key, Puts(key, s), k) <==> HasKey(key, s, k)
  {
    hide FirstOf, Puts;
    PutsKeys(key, s);
    SameKeysHas(key, Puts(key, s), FirstOf(key, s), k);
    FirstOfKeys(key, s, k);
  }

  /** Every stored value is the last one put under its key. */
  lemma {:induction false} PutsLast<T, K>(key: T -> K, s: seq<T>, i: nat)
    requires i < |Puts(key, s)|
    ensures HasKey(key, s, key(Puts(key, s)[i])) && Puts(key, s)[i] == LastOf(key, s, key(Puts(key, s)[i]))
  {
    hide HasKey;
    var n := |s| - 1;
    var front, last := s[..n], s[n];
    var before := Puts(key, front);
    var k := key(Puts(key, s)[i]);
    assert s == front + [last];
    HasKeySnoc(key, front, last, k);
    PutsDistinct(key, front);
    if k != key(last) {
      assert i < |before| && Puts(key, s)[i] == before[i];
      PutsLast(key, front, i);
    } else if i < |before| {
      KeyAt(key, before, i);
    }
  }

  /** An insertion-ordered map holds under each key what was put under it last, and its keys stand in the order in which
      they were put first. */
  lemma PutsHoldLast<T, K>(key: T -> K, s: seq<T>, i: nat) returns (first: nat, last: nat)
    requires i < |Puts(key, s)|
    ensures var value := Puts(key, s)[i];
            && first <= last < |s| && value == s[last] && key(s[first]) == key(value)
            && (forall q :: 0 <= q < first ==> key(s[q]) != key(value))
            && (forall q :: last < q < |s| ==> key(s[q]) != key(value))
            && |FirstOf(key, s)| == |Puts(key, s)| && FirstOf(key, s)[i] == s[first]
  {
    hide HasKey, Puts, FirstOf, LastOf;
    var value := Puts(key, s)[i];
    PutsLast(key, s, i);
    last := LastOfAt(key, s, key(value));
    PutsKeys(key, s);
    var index := FirstOfInOrder(key, s);
    first := index[i];
    assert first in index;
    NoneBefore(key, s, first);
  }

  lemma NoneBefore<T, K>(key: T -> K, s: seq<T>, r: nat)
    requires r < |s|
    ensures IsFirst(key, s, r) <==> forall q :: 0 <= q < r ==> key(s[q]) != key(s[r])
  {
    assert forall q :: 0 <= q < r ==> s[..r][q] == s[q];
  }

  lemma {:induction false} LastOfConcat<T, K>(key: T -> K, a: seq<T>, b: seq<T>, k: K)
    requires HasKey(key, a + b, k)
    ensures HasKey(key, b, k) ==> LastOf(key, a + b, k) == LastOf(key, b, k)
    ensures !HasKey(key, b, k) ==> HasKey(key, a, k) && LastOf(key, a + b, k) == LastOf(key, a, k)
  {
    hide HasKey;
    HasKeyConcat(key, a, b, k);
    if b == [] {
      assert a + b == a;
      NoKey(key, k);
    } else {
      var n := |b| - 1;
      assert b == b[..n] + [b[n]] && (a + b)[..|a + b| - 1] == a + b[..n] && a + b == (a + b[..n]) + [b[n]];
      HasKeySnoc(key, b[..n], b[n], k);
      HasKeySnoc(key, a + b[..n], b[n], k);
      if key(b[n]) != k {
        LastOfConcat(key, a, b[..n], k);
      }
    }
  }

  lemma NoKey<T, K>(key: T -> K, k: K)
    ensures !HasKey(key, [], k)
  {
  }

  lemma {:induction false} LastOfDistinct<T, K>(key: T -> K, s: seq<T>, i: nat)
    requires DistinctBy(key, s) && i < |s|
    ensures HasKey(key, s, key(s[i])) && LastOf(key, s, key(s[i])) == s[i]
  {
    if i < |s| - 1 {
      assert s[..|s| - 1][i] == s[i];
      LastOfDistinct(key, s[..|s| - 1], i);
    }
  }

  /** A filter that keeps every element of a key keeps the last one. */
  lemma {:induction false} LastOfKept<T, K>(key: T -> K, s: seq<T>, keep: T -> bool, k: K)
    requires forall i :: 0 <= i < |s| && key(s[i]) == k ==> keep(s[i])
    ensures HasKey(key, Kept(s, keep), k) <==> HasKey(key, s, k)
    ensures HasKey(key, s, k) ==> LastOf(key, Kept(s, keep), k) == LastOf(key, s, k)
  {
    hide HasKey;
    if s != [] {
      var n := |s| - 1;
      assert s == s[..n] + [s[n]];
      HasKeySnoc(key, s[..n], s[n], k);
      HasKeySnoc(key, Kept(s[..n], keep), s[n], k);
      LastOfKept(key, s[..n], keep, k);
      var front := Kept(s[..n], keep);
      assert (front + [s[n]])[..|front|] == front;
    }
  }

  /** Putting the second part again over the result changes nothing. */
  lemma PutsAgain<T, K>(key: T -> K, a: seq<T>, b: seq<T>)
    ensures Puts(key, Puts(key, a + b) + b) == Puts(key, a + b)
  {
    hide HasKey, Puts, FirstOf, LastOf;
    var r := Puts(key, a + b);
    var again := Puts(key, r + b);
    PutsDistinct(key, a + b);
    FirstOfSelf(key, r);
    forall i | 0 <= i < |b| ensures HasKey(key, r, key(b[i])) {
      PutsHas(key, a + b, key(b[i]));
      HasKeyConcat(key, a, b, key(b[i]));
      KeyAt(key, b, i);
    }
    FirstOfKnown(key, r, b);
    PutsKeys(key, r + b);
    forall i | 0 <= i < |r| ensures again[i] == r[i] {
      PutsLast(key, r + b, i);
      PutsLast(key, a + b, i);
      LastOfConcat(key, r, b, key(r[i]));
      LastOfConcat(key, a, b, key(r[i]));
      LastOfDistinct(key, r, i);
    }
  }

  lemma KeyAt<T, K>(key: T -> K, s: seq<T>, i: nat)
    requires i < |s|
    ensures HasKey(key, s, key(s[i]))
  {
  }
}
