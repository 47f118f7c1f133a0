/** The subject advisor of PS9/course_advisor.py: subjects are named
    (value, work) pairs; a greedy advisor takes subjects in comparator order
    while the work budget allows, and a brute-force advisor scans the whole
    power set for the most valuable selection within the budget. */
module CourseAdvisor {
  import opened Wrappers

  datatype SubInfo = SubInfo(value: int, work: int)

  /** A subject dictionary: name to (value, work). */
  type Subjects = map<string, SubInfo>

  // ---------------------------------------------------------------------
  // Comparators

  /** `cmpValue(a, b)`: a's value is greater than b's. */
  predicate CmpValue(a: SubInfo, b: SubInfo)
    ensures CmpValue(a, b) ==> a != b
    ensures a.value == b.value ==> !CmpValue(a, b)
  {
    a.value > b.value
  }

  /** `cmpWork(a, b)`: a's work is less than b's. */
  predicate CmpWork(a: SubInfo, b: SubInfo)
    ensures CmpWork(a, b) ==> a != b
    ensures a.work == b.work ==> !CmpWork(a, b)
  {
    a.work < b.work
  }

  /** The comparators the advisors are called with (`cmpRatio` is not modelled). */
  datatype Comparator = ByValue | ByWork

  /** `comp(a, b)`: a is strictly better than b. */
  predicate Better(comp: Comparator, a: SubInfo, b: SubInfo) {
    match comp
    case ByValue => CmpValue(a, b)
    case ByWork => CmpWork(a, b)
  }

  /** Both comparators are strict orders whose incomparability is transitive,
      the property selection sort relies on. */
  lemma BetterIsStrictWeakOrder(comp: Comparator, a: SubInfo, b: SubInfo, c: SubInfo)
    ensures !Better(comp, a, a)
    ensures Better(comp, a, b) ==> !Better(comp, b, a)
    ensures Better(comp, a, b) && Better(comp, b, c) ==> Better(comp, a, c)
    ensures !Better(comp, a, b) && !Better(comp, b, c) ==> !Better(comp, a, c)
  {
  }

  /** No later key compares better than an earlier one. */
  predicate SortedBy(comp: Comparator, subjects: Subjects, ks: seq<string>)
    requires forall k :: 0 <= k < |ks| ==> ks[k] in subjects
  {
    forall a, b :: 0 <= a < b < |ks| ==> !Better(comp, subjects[ks[b]], subjects[ks[a]])
  }

  /** Sorted by `cmpValue` means values never increase; by `cmpWork`, work
      never decreases. */
  lemma SortedMeaning(subjects: Subjects, ks: seq<string>, a: int, b: int)
    requires forall k :: 0 <= k < |ks| ==> ks[k] in subjects
    requires 0 <= a < b < |ks|
    ensures SortedBy(ByValue, subjects, ks) ==> subjects[ks[a]].value >= subjects[ks[b]].value
    ensures SortedBy(ByWork, subjects, ks) ==> subjects[ks[a]].work <= subjects[ks[b]].work
  {
  }

  /** A new leader beats everything the old leader was not beaten by. */
  lemma NotBetterThanNewLeader(comp: Comparator, x: SubInfo, old_: SubInfo, new_: SubInfo)
    requires !Better(comp, x, old_) && Better(comp, new_, old_)
    ensures !Better(comp, x, new_)
  {
  }

  /** `dictSort(keys, dict, comp)`: selection sort of the key list in place,
      best first; each pass swaps the best remaining key into place. */
  method DictSort(keys: array<string>, subjects: Subjects, comp: Comparator)
    requires forall k :: 0 <= k < keys.Length ==> keys[k] in subjects
    modifies keys
    ensures multiset(keys[..]) == multiset(old(keys[..]))
    ensures forall k :: 0 <= k < keys.Length ==> keys[k] in subjects
    ensures SortedBy(comp, subjects, keys[..])
  {
    var n := keys.Length;
    var i := 0;
    while i < n - 1
      invariant 0 <= i <= n
      invariant KeysIn(subjects, keys[..])
      invariant multiset(keys[..]) == multiset(old(keys[..]))
      invariant PrefixSorted(comp, subjects, keys[..], i)
    {
      var minIndx := FindBest(keys, subjects, comp, i);
      ghost var before := keys[..];
      var temp := keys[i];
      keys[i] := keys[minIndx];
      keys[minIndx] := temp;
      assert keys[..] == before[i := before[minIndx]][minIndx := before[i]];
      SwapExtendsOrder(comp, subjects, before, i, minIndx);
      i := i + 1;
    }
    PrefixSortedAll(comp, subjects, keys[..], i);
  }

  predicate KeysIn(subjects: Subjects, ks: seq<string>) {
    forall k :: 0 <= k < |ks| ==> ks[k] in subjects
  }

  /** The first `i` keys are in place: none is beaten by a key after it. */
  predicate PrefixSorted(comp: Comparator, subjects: Subjects, ks: seq<string>, i: int)
    requires KeysIn(subjects, ks)
  {
    forall a, b :: 0 <= a < i && a < b < |ks| ==> !Better(comp, subjects[ks[b]], subjects[ks[a]])
  }

  lemma PrefixSortedAll(comp: Comparator, subjects: Subjects, ks: seq<string>, i: int)
    requires KeysIn(subjects, ks) && PrefixSorted(comp, subjects, ks, i) && i >= |ks| - 1
    ensures SortedBy(comp, subjects, ks)
  {
  }

  /** Swapping the best remaining key into position `i` extends the sorted,
      dominating prefix by one and keeps the keys. */
  lemma SwapExtendsOrder(comp: Comparator, subjects: Subjects, ks: seq<string>, i: int, m: int)
    requires 0 <= i <= m < |ks|
    requires KeysIn(subjects, ks) && PrefixSorted(comp, subjects, ks, i)
    requires forall k :: i <= k < |ks| ==> !Better(comp, subjects[ks[k]], subjects[ks[m]])
    ensures var sw := ks[i := ks[m]][m := ks[i]];
            multiset(sw) == multiset(ks) && KeysIn(subjects, sw) && PrefixSorted(comp, subjects, sw, i + 1)
  {
    var sw := ks[i := ks[m]][m := ks[i]];
    forall a, b | 0 <= a < i + 1 && a < b < |sw|
      ensures !Better(comp, subjects[sw[b]], subjects[sw[a]])
    {
      if a < i {
        assert sw[a] == ks[a];
        assert sw[b] == ks[b] || sw[b] == ks[i] || sw[b] == ks[m];
      } else {
        assert sw[a] == ks[m];
        assert sw[b] == ks[b] || sw[b] == ks[i];
      }
    }
  }

  /** The inner loop of `dictSort`: the first position from `i` on holding a
      key nothing after `i` beats. */
  method FindBest(keys: array<string>, subjects: Subjects, comp: Comparator, i: int) returns (minIndx: int)
    requires 0 <= i < keys.Length
    requires forall k :: 0 <= k < keys.Length ==> keys[k] in subjects
    ensures i <= minIndx < keys.Length
    ensures forall k :: i <= k < keys.Length ==> !Better(comp, subjects[keys[k]], subjects[keys[minIndx]])
  {
    minIndx := i;
    var minVal := keys[i];
    var j := i + 1;
    while j < keys.Length
      invariant i < j <= keys.Length
      invariant i <= minIndx < j && minVal == keys[minIndx]
      invariant forall k :: i <= k < j ==> !Better(comp, subjects[keys[k]], subjects[minVal])
    {
      if Better(comp, subjects[keys[j]], subjects[minVal]) {
        forall k | i <= k < j ensures !Better(comp, subjects[keys[k]], subjects[keys[j]]) {
          NotBetterThanNewLeader(comp, subjects[keys[k]], subjects[minVal], subjects[keys[j]]);
        }
        minIndx := j;
        minVal := keys[j];
      }
      j := j + 1;
    }
  }

  // ---------------------------------------------------------------------
  // Totals and selections

  predicate AllIn(subjects: Subjects, ks: seq<string>) {
    forall k :: k in ks ==> k in subjects
  }

  /** Total work of the listed subjects. */
  function WorkOf(subjects: Subjects, ks: seq<string>): int
    requires AllIn(subjects, ks)
  {
    if ks == [] then 0 else WorkOf(subjects, ks[..|ks| - 1]) + subjects[ks[|ks| - 1]].work
  }

  /** Total value of the listed subjects. */
  function ValueOf(subjects: Subjects, ks: seq<string>): int
    requires AllIn(subjects, ks)
  {
    if ks == [] then 0 else ValueOf(subjects, ks[..|ks| - 1]) + subjects[ks[|ks| - 1]].value
  }

  /** The dictionary holding the listed subjects with their own entries. */
  function Select(subjects: Subjects, ks: seq<string>): map<string, SubInfo>
    requires AllIn(subjects, ks)
  {
    map k | k in ks :: subjects[k]
  }

  lemma SelectSnoc(subjects: Subjects, ks: seq<string>, k: string)
    requires AllIn(subjects, ks) && k in subjects
    ensures AllIn(subjects, ks + [k])
    ensures Select(subjects, ks + [k]) == Select(subjects, ks)[k := subjects[k]]
  {
    assert forall x :: x in ks + [k] <==> x in ks || x == k;
  }

  /** Every entry of a selection is the subject's own (value, work), and the
      selection holds exactly the listed names. */
  lemma SelectEntries(subjects: Subjects, ks: seq<string>)
    requires AllIn(subjects, ks)
    ensures forall k :: k in Select(subjects, ks) <==> k in ks
    ensures forall k :: k in Select(subjects, ks) ==> Select(subjects, ks)[k] == subjects[k]
  {
  }

  // ---------------------------------------------------------------------
  // Greedy advisor

  /** The keys `greedyAdvisor` takes from the ordered list `ks`: each key in
      turn, if the work taken so far plus its own stays within `maxWork`. */
  function GreedyPick(subjects: Subjects, ks: seq<string>, maxWork: int): (r: seq<string>)
    requires AllIn(subjects, ks)
    ensures forall k :: k in r ==> k in ks
    ensures 0 <= maxWork ==> WorkOf(subjects, r) <= maxWork
  {
    if ks == [] then []
    else
      var init := ks[..|ks| - 1];
      var last := ks[|ks| - 1];
      assert forall k :: k in init ==> k in ks;
      var p := GreedyPick(subjects, init, maxWork);
      if WorkOf(subjects, p) + subjects[last].work <= maxWork then
        assert (p + [last])[..|p|] == p;
        p + [last]
      else p
  }

  /** The keys a list of keys `ks` of `subjects` names, each once. */
  ghost predicate ListsKeys(subjects: Subjects, ks: seq<string>) {
    (forall k :: k in subjects <==> k in ks) && NoDuplicates(ks)
  }

  /** `greedyAdvisor(subjects, maxWork, comparator)`, with `keyOrder` the order
      in which the dictionary hands out its keys: sort the keys best first,
      then take each one whose work still fits the budget. */
  method GreedyAdvisor(subjects: Subjects, keyOrder: seq<string>, maxWork: int, comp: Comparator)
      returns (best: map<string, SubInfo>, ghost sorted: seq<string>)
    requires ListsKeys(subjects, keyOrder)
    ensures multiset(sorted) == multiset(keyOrder)
    ensures AllIn(subjects, sorted) && SortedBy(comp, subjects, sorted)
    ensures best == Select(subjects, GreedyPick(subjects, sorted, maxWork))
    ensures forall k :: k in best ==> k in subjects && best[k] == subjects[k]
    ensures 0 <= maxWork ==>
              exists picked :: AllIn(subjects, picked) && NoDuplicates(picked) &&
                               best == Select(subjects, picked) && WorkOf(subjects, picked) <= maxWork
  {
    var keys := new string[|keyOrder|](i requires 0 <= i < |keyOrder| => keyOrder[i]);
    assert keys[..] == keyOrder;
    DictSort(keys, subjects, comp);
    sorted := keys[..];
    assert AllIn(subjects, sorted) by {
      forall x | x in sorted ensures x in subjects {
        var i :| 0 <= i < |sorted| && sorted[i] == x;
        assert keys[i] == x;
      }
    }
    best := GreedyTake(subjects, keys[..], maxWork);
    var picked := GreedyPick(subjects, sorted, maxWork);
    SelectEntries(subjects, picked);
    PermutationNoDuplicates(keyOrder, sorted);
    GreedyPickNoDuplicates(subjects, sorted, maxWork);
  }

  /** The keys are listed once each. */
  predicate NoDuplicates(ks: seq<string>) {
    forall a, b :: 0 <= a < b < |ks| ==> ks[a] != ks[b]
  }

  /** A list without repeats holds each key at most once. */
  lemma {:induction false} NoDuplicatesCount(ks: seq<string>, x: string)
    requires NoDuplicates(ks)
    ensures multiset(ks)[x] <= 1
    decreases |ks|
  {
    if ks != [] {
      var init := ks[..|ks| - 1];
      assert ks == init + [ks[|ks| - 1]];
      NoDuplicatesCount(init, x);
      if x == ks[|ks| - 1] {
        assert x !in init;
      }
    }
  }

  /** A rearrangement of a list without repeats has none either. */
  lemma PermutationNoDuplicates(ks: seq<string>, ps: seq<string>)
    requires NoDuplicates(ks) && multiset(ps) == multiset(ks)
    ensures NoDuplicates(ps)
  {
    forall a, b | 0 <= a < b < |ps| ensures ps[a] != ps[b] {
      if ps[a] == ps[b] {
        assert ps == ps[..a] + [ps[a]] + ps[a + 1..b] + [ps[b]] + ps[b + 1..];
        assert multiset(ps)[ps[a]] >= 2;
        NoDuplicatesCount(ks, ps[a]);
      }
    }
  }

  /** The greedy choice from a list without repeats has none. */
  lemma {:induction false} GreedyPickNoDuplicates(subjects: Subjects, ks: seq<string>, maxWork: int)
    requires AllIn(subjects, ks) && NoDuplicates(ks)
    ensures NoDuplicates(GreedyPick(subjects, ks, maxWork))
    decreases |ks|
  {
    if ks != [] {
      var init := ks[..|ks| - 1];
      assert forall k :: k in init ==> k in ks;
      GreedyPickNoDuplicates(subjects, init, maxWork);
      assert ks[|ks| - 1] !in init;
    }
  }

  /** The selection loop of `greedyAdvisor` over the sorted keys: take each
      key whose work still fits, keeping the running total. */
  method GreedyTake(subjects: Subjects, sorted: seq<string>, maxWork: int) returns (best: map<string, SubInfo>)
    requires AllIn(subjects, sorted)
    ensures best == Select(subjects, GreedyPick(subjects, sorted, maxWork))
  {
    var totalWork := 0;
    best := map[];
    for k := 0 to |sorted|
      invariant AllIn(subjects, sorted[..k])
      invariant best == Select(subjects, GreedyPick(subjects, sorted[..k], maxWork))
      invariant totalWork == WorkOf(subjects, GreedyPick(subjects, sorted[..k], maxWork))
    {
      var key := sorted[k];
      var newWork := subjects[key].work;
      GreedyStep(subjects, sorted, k, maxWork);
      if totalWork + newWork <= maxWork {
        best := best[key := subjects[key]];
        totalWork := totalWork + newWork;
      }
    }
    assert sorted[..|sorted|] == sorted;
  }

  /** One turn of the greedy loop: the `k`-th key is appended to the
      selection when it fits, and the totals follow. */
  lemma GreedyStep(subjects: Subjects, ks: seq<string>, k: int, maxWork: int)
    requires AllIn(subjects, ks) && 0 <= k < |ks|
    ensures AllIn(subjects, ks[..k]) && AllIn(subjects, ks[..k + 1])
    ensures var p := GreedyPick(subjects, ks[..k], maxWork);
            var key := ks[k];
            if WorkOf(subjects, p) + subjects[key].work <= maxWork then
              GreedyPick(subjects, ks[..k + 1], maxWork) == p + [key] &&
              WorkOf(subjects, p + [key]) == WorkOf(subjects, p) + subjects[key].work &&
              Select(subjects, p + [key]) == Select(subjects, p)[key := subjects[key]]
            else GreedyPick(subjects, ks[..k + 1], maxWork) == p
  {
    var pre := ks[..k + 1];
    assert pre[..k] == ks[..k] && pre[k] == ks[k];
    assert forall x :: x in ks[..k] ==> x in ks;
    assert forall x :: x in pre ==> x in ks;
    var p := GreedyPick(subjects, ks[..k], maxWork);
    var key := ks[k];
    if WorkOf(subjects, p) + subjects[key].work <= maxWork {
      SelectSnoc(subjects, p, key);
      assert (p + [key])[..|p|] == p;
    }
  }

  /** `greedyAdvisor` passes over a key only when its work would push the
      running total over `maxWork`, and takes it otherwise. */
  lemma {:induction false} GreedySkipsOnlyWhenFull(subjects: Subjects, ks: seq<string>, maxWork: int, i: int)
    requires AllIn(subjects, ks) && 0 <= i < |ks|
    requires forall a, b :: 0 <= a < b < |ks| ==> ks[a] != ks[b]
    ensures AllIn(subjects, ks[..i])
    ensures ks[i] in GreedyPick(subjects, ks, maxWork) <==>
              WorkOf(subjects, GreedyPick(subjects, ks[..i], maxWork)) + subjects[ks[i]].work <= maxWork
    decreases |ks|
  {
    assert forall k :: k in ks[..i] ==> k in ks;
    var init := ks[..|ks| - 1];
    assert forall k :: k in init ==> k in ks;
    if i == |ks| - 1 {
      GreedyLastKey(subjects, ks, maxWork);
      assert init == ks[..i];
    } else {
      GreedySkipsOnlyWhenFull(subjects, init, maxWork, i);
      GreedyEarlierKey(subjects, ks, maxWork, i);
      assert init[..i] == ks[..i];
    }
  }

  /** The last key is taken exactly when it fits after the others. */
  lemma GreedyLastKey(subjects: Subjects, ks: seq<string>, maxWork: int)
    requires AllIn(subjects, ks) && ks != []
    requires forall a, b :: 0 <= a < b < |ks| ==> ks[a] != ks[b]
    ensures AllIn(subjects, ks[..|ks| - 1])
    ensures ks[|ks| - 1] in GreedyPick(subjects, ks, maxWork) <==>
              WorkOf(subjects, GreedyPick(subjects, ks[..|ks| - 1], maxWork)) + subjects[ks[|ks| - 1]].work <= maxWork
  {
    var init := ks[..|ks| - 1];
    assert forall k :: k in init ==> k in ks;
    assert ks[|ks| - 1] !in init;
  }

  /** Whether an earlier key is taken is decided before the last key is seen. */
  lemma GreedyEarlierKey(subjects: Subjects, ks: seq<string>, maxWork: int, i: int)
    requires AllIn(subjects, ks) && 0 <= i < |ks| - 1
    requires forall a, b :: 0 <= a < b < |ks| ==> ks[a] != ks[b]
    ensures AllIn(subjects, ks[..|ks| - 1])
    ensures ks[i] in GreedyPick(subjects, ks, maxWork) <==> ks[i] in GreedyPick(subjects, ks[..|ks| - 1], maxWork)
  {
    var init := ks[..|ks| - 1];
    assert forall k :: k in init ==> k in ks;
    assert ks[|ks| - 1] != ks[i];
  }

  /** The greedy selection never exceeds the work budget. */
  lemma GreedyWithinBudget(subjects: Subjects, ks: seq<string>, maxWork: int)
    requires AllIn(subjects, ks) && 0 <= maxWork
    ensures WorkOf(subjects, GreedyPick(subjects, ks, maxWork)) <= maxWork
    ensures forall k :: k in Select(subjects, GreedyPick(subjects, ks, maxWork)) ==> k in ks && Select(subjects, GreedyPick(subjects, ks, maxWork))[k] == subjects[k]
  {
  }

  // ---------------------------------------------------------------------
  // Binary strings and the power set

  function Pow2(n: nat): (p: nat)
    ensures p >= 1
  {
    if n == 0 then 1 else 2 * Pow2(n - 1)
  }

  function Digit(b: int): char
    requires 0 <= b < 2
  {
    if b == 0 then '0' else '1'
  }

  /** The binary digits of `n`, most significant first, with no leading zero;
      empty when `n <= 0`. */
  function Binary(n: int): string
    decreases if n < 0 then 0 else n
  {
    if n <= 0 then [] else Binary(n / 2) + [Digit(n % 2)]
  }

  function Zeros(k: nat): (z: string)
    ensures |z| == k && forall i :: 0 <= i < k ==> z[i] == '0'
  {
    seq(k, _ => '0')
  }

  /** A string of binary digits. */
  predicate IsMask(t: string) {
    forall i :: 0 <= i < |t| ==> t[i] == '0' || t[i] == '1'
  }

  /** The number a string of binary digits stands for. */
  function BinValue(t: string): nat {
    if t == [] then 0 else 2 * BinValue(t[..|t| - 1]) + (if t[|t| - 1] == '1' then 1 else 0)
  }

  lemma {:induction false} BinaryLength(n: int, d: int)
    ensures 0 <= d && 0 <= n < Pow2(d) ==> |Binary(n)| <= d
    decreases if n < 0 then 0 else n
  {
    if 0 <= d && 0 < n < Pow2(d) {
      BinaryLength(n / 2, d - 1);
    }
  }

  /** What `dToB(n, numDigits)` returns: the binary digits of `n`, padded on
      the left with zeros to `numDigits` characters. */
  function Bits(n: int, d: int): (s: string)
    ensures |s| == if d > |Binary(n)| then d else |Binary(n)|
    ensures 0 <= d && 0 <= n < Pow2(d) ==> |s| == d
  {
    BinaryLength(n, d);
    var b := Binary(n);
    if d - |b| > 0 then Zeros(d - |b|) + b else b
  }

  /** `dToB(n, numDigits)`. */
  method DToB(n: int, numDigits: int) returns (bStr: string)
    ensures bStr == Bits(n, numDigits)
  {
    bStr := "";
    var m := n;
    while m > 0
      invariant Binary(m) + bStr == Binary(n)
      decreases m
    {
      assert Binary(m) == Binary(m / 2) + [Digit(m % 2)];
      bStr := [Digit(m % 2)] + bStr;
      m := m / 2;
    }
    assert bStr == Binary(n);
    ghost var b := bStr;
    ghost var pad: nat := 0;
    assert Zeros(0) + b == b;
    while numDigits - |bStr| > 0
      invariant bStr == Zeros(pad) + b && |bStr| == pad + |b|
      invariant pad > 0 ==> |bStr| <= numDigits
      decreases numDigits - |bStr|
    {
      ZeroPrepended(pad, b);
      bStr := "0" + bStr;
      pad := pad + 1;
    }
  }

  lemma ZeroPrepended(k: nat, b: string)
    ensures "0" + (Zeros(k) + b) == Zeros(k + 1) + b
  {
    assert "0" + Zeros(k) == Zeros(k + 1);
  }

  lemma {:induction false} BinaryDigits(n: int)
    ensures IsMask(Binary(n)) && BinValue(Binary(n)) == (if n < 0 then 0 else n)
    decreases if n < 0 then 0 else n
  {
    if n > 0 {
      BinaryDigits(n / 2);
      var b := Binary(n);
      assert b[..|b| - 1] == Binary(n / 2);
    }
  }

  lemma {:induction false} ZerosDontCount(k: nat, t: string)
    ensures BinValue(Zeros(k) + t) == BinValue(t)
    decreases |t|, k
  {
    if t == [] {
      assert Zeros(k) + t == Zeros(k);
      if k > 0 {
        assert Zeros(k)[..k - 1] == Zeros(k - 1) + [];
        ZerosDontCount(k - 1, []);
      }
    } else {
      var s := Zeros(k) + t;
      assert s[..|s| - 1] == Zeros(k) + t[..|t| - 1];
      ZerosDontCount(k, t[..|t| - 1]);
    }
  }

  /** `dToB(n, d)` is a string of binary digits of length max(d, bit length
      of n) whose value is `n`; `dToB(0, d)` is `d` zeros. */
  lemma BitsValue(n: int, d: int)
    requires 0 <= n
    ensures IsMask(Bits(n, d)) && BinValue(Bits(n, d)) == n
    ensures n == 0 && d >= 0 ==> Bits(n, d) == Zeros(d)
  {
    BinaryDigits(n);
    var b := Binary(n);
    if d - |b| > 0 {
      ZerosDontCount(d - |b|, b);
    }
    if n == 0 && d > 0 {
      assert Zeros(d) + [] == Zeros(d);
    }
  }

  /** Round trip: every string of binary digits is what `dToB` gives for its
      value, padded to its own length. */
  lemma {:induction false} MaskRoundTrip(t: string)
    requires IsMask(t)
    ensures BinValue(t) < Pow2(|t|)
    ensures Bits(BinValue(t), |t|) == t
    decreases |t|
  {
    if t != [] {
      var init, c := t[..|t| - 1], t[|t| - 1];
      assert t == init + [c];
      MaskRoundTrip(init);
      if BinValue(t) == 0 {
        ZeroMask(t);
      } else {
        MaskSnoc(init, c);
      }
    }
  }

  /** A mask of value zero is all zeros, which is what `dToB(0, d)` gives. */
  lemma ZeroMask(t: string)
    requires IsMask(t) && t != [] && BinValue(t) == 0
    requires Bits(BinValue(t[..|t| - 1]), |t| - 1) == t[..|t| - 1]
    ensures Bits(BinValue(t), |t|) == t
  {
    var init := t[..|t| - 1];
    assert Binary(0) == [];
    assert init == Zeros(|init|) + [] == Zeros(|init|);
    assert t == init + [t[|t| - 1]];
    assert t == Zeros(|t|) + [];
  }

  /** One more digit after a mask of nonzero value: the padding stays, the
      binary digits gain the new one. */
  lemma MaskSnoc(init: string, c: char)
    requires IsMask(init + [c]) && BinValue(init + [c]) != 0
    requires BinValue(init) < Pow2(|init|) && Bits(BinValue(init), |init|) == init
    ensures BinValue(init + [c]) < Pow2(|init| + 1)
    ensures Bits(BinValue(init + [c]), |init| + 1) == init + [c]
  {
    BinarySnoc(init, c);
    BinaryLength(BinValue(init), |init|);
    BitsSnoc(BinValue(init), BinValue(init + [c]), |init|, c);
  }

  /** The value of a mask with one more digit, and its binary digits. */
  lemma BinarySnoc(init: string, c: char)
    requires IsMask(init + [c]) && BinValue(init + [c]) != 0
    ensures BinValue(init + [c]) == 2 * BinValue(init) + (if c == '1' then 1 else 0)
    ensures Binary(BinValue(init + [c])) == Binary(BinValue(init)) + [c]
  {
    var t := init + [c];
    assert t[..|t| - 1] == init && t[|t| - 1] == c;
    var v := BinValue(t);
    assert v / 2 == BinValue(init) && v % 2 == (if c == '1' then 1 else 0);
    assert Digit(v % 2) == c;
  }

  /** Padding to one more digit after one more binary digit. */
  lemma BitsSnoc(n: int, m: int, d: nat, c: char)
    requires Binary(m) == Binary(n) + [c] && |Binary(n)| <= d
    ensures Bits(m, d + 1) == Bits(n, d) + [c]
  {
    var k := d - |Binary(n)|;
    if k > 0 {
      PaddedSnoc(k, Binary(n), c);
    }
  }

  lemma PaddedSnoc(k: nat, b: string, c: char)
    ensures Zeros(k) + (b + [c]) == (Zeros(k) + b) + [c]
  {
  }

  /** The items whose positions carry a '1' in the template, in order. */
  function Pick(items: seq<string>, t: string): (r: seq<string>)
    requires |t| <= |items|
    ensures |r| <= |t|
    ensures forall x :: x in r ==> x in items
  {
    if t == [] then []
    else Pick(items, t[..|t| - 1]) + (if t[|t| - 1] == '1' then [items[|t| - 1]] else [])
  }

  /** The list `genPset(items)` builds: one subset per number below
      2^len(items), selected by that number's padded binary digits. */
  function PowerSet(items: seq<string>): (ps: seq<seq<string>>)
    ensures |ps| == Pow2(|items|)
  {
    seq(Pow2(|items|), i requires 0 <= i < Pow2(|items|) => Pick(items, Bits(i, |items|)))
  }

  /** `genPset(items)`: first all templates, then the subset of each. */
  method GenPset(items: seq<string>) returns (pset: seq<seq<string>>)
    ensures pset == PowerSet(items)
  {
    var numSubsets := Pow2(|items|);
    var templates := Templates(numSubsets, |items|);
    pset := [];
    for k := 0 to |templates|
      invariant |pset| == k
      invariant forall m {:trigger pset[m]} :: 0 <= m < k ==> pset[m] == Pick(items, Bits(m, |items|))
    {
      var elem := PickItems(items, templates[k]);
      SubsetAppended(items, pset, elem);
      pset := pset + [elem];
    }
    PowerSetByIndex(items, pset);
  }

  /** The loop's invariant carried over appending the subset of template `|pset|`. */
  lemma SubsetAppended(items: seq<string>, pset: seq<seq<string>>, elem: seq<string>)
    requires |pset| < Pow2(|items|)
    requires forall m {:trigger pset[m]} :: 0 <= m < |pset| ==> pset[m] == Pick(items, Bits(m, |items|))
    requires elem == Pick(items, Bits(|pset|, |items|))
    ensures forall m {:trigger (pset + [elem])[m]} :: 0 <= m < |pset| + 1 ==> (pset + [elem])[m] == Pick(items, Bits(m, |items|))
  {
  }

  lemma PowerSetByIndex(items: seq<string>, pset: seq<seq<string>>)
    requires |pset| == Pow2(|items|)
    requires forall m {:trigger pset[m]} :: 0 <= m < |pset| ==> pset[m] == Pick(items, Bits(m, |items|))
    ensures pset == PowerSet(items)
  {
  }

  /** The first loop of `genPset`: the template of each number below `count`. */
  method Templates(count: nat, d: nat) returns (templates: seq<string>)
    requires count <= Pow2(d)
    ensures |templates| == count
    ensures forall k :: 0 <= k < count ==> templates[k] == Bits(k, d) && |templates[k]| == d
  {
    templates := [];
    for i := 0 to count
      invariant |templates| == i
      invariant forall k :: 0 <= k < i ==> templates[k] == Bits(k, d) && |templates[k]| == d
    {
      var t := DToB(i, d);
      templates := templates + [t];
    }
  }

  /** The inner loop of `genPset`: the items at the template's '1' positions. */
  method PickItems(items: seq<string>, t: string) returns (elem: seq<string>)
    requires |t| <= |items|
    ensures elem == Pick(items, t)
  {
    elem := [];
    for j := 0 to |t|
      invariant elem == Pick(items, t[..j])
    {
      assert t[..j + 1][..j] == t[..j];
      if t[j] == '1' {
        elem := elem + [items[j]];
      }
    }
    assert t[..|t|] == t;
  }

  /** Every selection of the items by a template of `len(items)` binary digits
      is in the power set, at the index the template stands for. */
  lemma PowerSetComplete(items: seq<string>, t: string)
    requires IsMask(t) && |t| == |items|
    ensures BinValue(t) < |PowerSet(items)|
    ensures PowerSet(items)[BinValue(t)] == Pick(items, t)
  {
    MaskRoundTrip(t);
  }

  /** The power set starts with the empty selection... */
  lemma PowerSetStartsEmpty(items: seq<string>)
    ensures PowerSet(items)[0] == []
  {
    BitsValue(0, |items|);
    NoneSelected(items, Zeros(|items|));
  }

  /** ...and ends with all the items. */
  lemma PowerSetEndsFull(items: seq<string>)
    ensures PowerSet(items)[Pow2(|items|) - 1] == items
  {
    var ones := seq(|items|, _ => '1');
    AllOnesValue(ones);
    PowerSetComplete(items, ones);
    AllSelected(items, ones);
    assert items[..|ones|] == items;
  }

  lemma {:induction false} NoneSelected(items: seq<string>, t: string)
    requires |t| <= |items| && forall i :: 0 <= i < |t| ==> t[i] == '0'
    ensures Pick(items, t) == []
    decreases |t|
  {
    if t != [] {
      NoneSelected(items, t[..|t| - 1]);
    }
  }

  lemma {:induction false} AllSelected(items: seq<string>, t: string)
    requires |t| <= |items| && forall i :: 0 <= i < |t| ==> t[i] == '1'
    ensures Pick(items, t) == items[..|t|]
    decreases |t|
  {
    if t != [] {
      AllSelected(items, t[..|t| - 1]);
      assert items[..|t|] == items[..|t| - 1] + [items[|t| - 1]];
    }
  }

  lemma {:induction false} AllOnesValue(t: string)
    requires forall i :: 0 <= i < |t| ==> t[i] == '1'
    ensures BinValue(t) == Pow2(|t|) - 1
    decreases |t|
  {
    if t != [] {
      AllOnesValue(t[..|t| - 1]);
    }
  }

  // ---------------------------------------------------------------------
  // Brute-force advisor

  /** `bruteForceAdvisor` ends up iterating over `None`. */
  datatype AdvisorError = NothingSelected

  /** Index `i` holds the selection `bruteForceAdvisor` keeps: positive value
      within the budget, no feasible selection worth more, and every feasible
      selection before it worth strictly less. */
  ghost predicate BestAt(subjects: Subjects, pset: seq<seq<string>>, maxWork: int, i: int)
    requires forall m :: 0 <= m < |pset| ==> AllIn(subjects, pset[m])
  {
    0 <= i < |pset| &&
    ValueOf(subjects, pset[i]) > 0 && WorkOf(subjects, pset[i]) <= maxWork &&
    (forall m :: 0 <= m < |pset| && WorkOf(subjects, pset[m]) <= maxWork ==>
       ValueOf(subjects, pset[m]) <= ValueOf(subjects, pset[i])) &&
    (forall m :: 0 <= m < i && WorkOf(subjects, pset[m]) <= maxWork ==>
       ValueOf(subjects, pset[m]) < ValueOf(subjects, pset[i]))
  }

  lemma PowerSetInSubjects(subjects: Subjects, items: seq<string>)
    requires AllIn(subjects, items)
    ensures forall m :: 0 <= m < |PowerSet(items)| ==> AllIn(subjects, PowerSet(items)[m])
  {
  }

  /** The value and work totals of one candidate selection. */
  method Totals(subjects: Subjects, set_: seq<string>) returns (value: int, work: int)
    requires AllIn(subjects, set_)
    ensures value == ValueOf(subjects, set_) && work == WorkOf(subjects, set_)
  {
    value, work := 0, 0;
    for k := 0 to |set_|
      invariant AllIn(subjects, set_[..k])
      invariant value == ValueOf(subjects, set_[..k]) && work == WorkOf(subjects, set_[..k])
    {
      assert set_[..k + 1][..k] == set_[..k];
      value := value + subjects[set_[k]].value;
      work := work + subjects[set_[k]].work;
    }
    assert set_[..|set_|] == set_;
  }

  /** Step 3 of `bruteForceAdvisor`: the dictionary of the chosen keys. */
  method ToDict(subjects: Subjects, ks: seq<string>) returns (d: map<string, SubInfo>)
    requires AllIn(subjects, ks)
    ensures d == Select(subjects, ks)
  {
    d := map[];
    for k := 0 to |ks|
      invariant AllIn(subjects, ks[..k]) && d == Select(subjects, ks[..k])
    {
      assert ks[..k + 1] == ks[..k] + [ks[k]];
      SelectSnoc(subjects, ks[..k], ks[k]);
      d := d[ks[k] := subjects[ks[k]]];
    }
    assert ks[..|ks|] == ks;
  }

  /** Step 2 of `bruteForceAdvisor`: scan the candidate selections, keeping
      one only when it is worth strictly more than the best so far (starting
      from 0) and fits the budget. */
  method SelectBest(subjects: Subjects, pset: seq<seq<string>>, maxWork: int)
      returns (bestSet: Option<seq<string>>, ghost index: int)
    requires forall m :: 0 <= m < |pset| ==> AllIn(subjects, pset[m])
    ensures bestSet.None? <==> forall m :: 0 <= m < |pset| ==>
                                 !(ValueOf(subjects, pset[m]) > 0 && WorkOf(subjects, pset[m]) <= maxWork)
    ensures bestSet.Some? ==> BestAt(subjects, pset, maxWork, index) && bestSet.value == pset[index]
  {
    var bestValue := 0;
    bestSet := None;
    index := -1;
    for i := 0 to |pset|
      invariant bestSet.None? <==> bestValue == 0
      invariant bestValue >= 0
      invariant bestSet.None? ==> forall m :: 0 <= m < i ==>
                  !(ValueOf(subjects, pset[m]) > 0 && WorkOf(subjects, pset[m]) <= maxWork)
      invariant forall m :: 0 <= m < i && WorkOf(subjects, pset[m]) <= maxWork ==>
                  ValueOf(subjects, pset[m]) <= bestValue
      invariant bestSet.Some? ==>
                  0 <= index < i && bestSet.value == pset[index] &&
                  bestValue == ValueOf(subjects, pset[index]) &&
                  WorkOf(subjects, pset[index]) <= maxWork &&
                  forall m :: 0 <= m < index && WorkOf(subjects, pset[m]) <= maxWork ==>
                    ValueOf(subjects, pset[m]) < bestValue
    {
      var set_ := pset[i];
      var value, work := Totals(subjects, set_);
      if value > bestValue && work <= maxWork {
        bestValue := value;
        bestSet := Some(set_);
        index := i;
      }
    }
  }

  /** `bruteForceAdvisor(subjects, maxWork)`, with `keyOrder` the dictionary's
      key order: the first most valuable selection of the power set within the
      budget, or an error when no selection within the budget has positive
      value. */
  method BruteForceAdvisor(subjects: Subjects, keyOrder: seq<string>, maxWork: int)
      returns (r: Result<map<string, SubInfo>, AdvisorError>, ghost index: int)
    requires ListsKeys(subjects, keyOrder)
    ensures forall m :: 0 <= m < |PowerSet(keyOrder)| ==> AllIn(subjects, PowerSet(keyOrder)[m])
    ensures r.Err? <==> forall m :: 0 <= m < |PowerSet(keyOrder)| ==>
                          !(ValueOf(subjects, PowerSet(keyOrder)[m]) > 0 &&
                            WorkOf(subjects, PowerSet(keyOrder)[m]) <= maxWork)
    ensures r.Ok? ==> BestAt(subjects, PowerSet(keyOrder), maxWork, index) &&
                      r.value == Select(subjects, PowerSet(keyOrder)[index])
  {
    PowerSetInSubjects(subjects, keyOrder);
    var pset := GenPset(keyOrder);
    var bestSet;
    bestSet, index := SelectBest(subjects, pset, maxWork);
    if bestSet.None? {
      r := Err(NothingSelected);
    } else {
      var best := ToDict(subjects, bestSet.value);
      r := Ok(best);
    }
  }

  /** The brute-force choice is worth at least as much as every selection of
      the subjects within the budget, whatever template selects it. */
  lemma BruteForceBeatsEverySelection(subjects: Subjects, keys: seq<string>, maxWork: int, index: int, t: string)
    requires AllIn(subjects, keys)
    requires IsMask(t) && |t| == |keys|
    requires forall m :: 0 <= m < |PowerSet(keys)| ==> AllIn(subjects, PowerSet(keys)[m])
    requires BestAt(subjects, PowerSet(keys), maxWork, index)
    requires WorkOf(subjects, Pick(keys, t)) <= maxWork
    ensures ValueOf(subjects, Pick(keys, t)) <= ValueOf(subjects, PowerSet(keys)[index])
  {
    PowerSetComplete(keys, t);
  }

  /** When the brute force reports nothing, no selection of the subjects
      within the budget has positive value. */
  lemma NothingSelectedMeansNoGain(subjects: Subjects, keys: seq<string>, maxWork: int, t: string)
    requires AllIn(subjects, keys)
    requires IsMask(t) && |t| == |keys|
    requires forall m :: 0 <= m < |PowerSet(keys)| ==>
               AllIn(subjects, PowerSet(keys)[m]) &&
               !(ValueOf(subjects, PowerSet(keys)[m]) > 0 && WorkOf(subjects, PowerSet(keys)[m]) <= maxWork)
    ensures WorkOf(subjects, Pick(keys, t)) <= maxWork ==> ValueOf(subjects, Pick(keys, t)) <= 0
  {
    PowerSetComplete(keys, t);
  }
}
