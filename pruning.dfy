/** `prune_dataset`: keep, split by split, the records whose class is allow-listed, and stop
    as soon as the number kept equals the split's size. */
module Pruning {
  import opened Wrappers
  import opened Vocabulary

  /** A dataset record. `id` stands for the fields the pruning never inspects (the image,
      the text); `classLabel` is the record's integer `label` field. */
  datatype Record = Record(id: nat, classLabel: int)

  /** What `prune_dataset` may raise. */
  datatype Error =
    | IndexError(classLabel: int)  // `idx_to_class[label]` out of range; the label is kept
                                   // here for the model's own bookkeeping, Python's message
                                   // only says "list index out of range"
    | KeyError(split: string)      // the dataset has no such split

  /** `DatasetSizes`: the requested size of each split. */
  datatype Sizes = Sizes(train: int, test: int, validation: int)

  /** The splits, in the order `DatasetSizes` declares them. */
  const SplitNames: seq<string> := ["train", "test", "validation"]

  function SizeOf(sizes: Sizes, split: string): int
    requires split in SplitNames
  {
    if split == "train" then sizes.train
    else if split == "test" then sizes.test
    else sizes.validation
  }

  // ---------------------------------------------------------------------------------------
  // Specification

  predicate Resolvable(r: Record) {
    ClassName(r.classLabel).Some?
  }

  predicate AllResolvable(s: seq<Record>) {
    forall i :: 0 <= i < |s| ==> Resolvable(s[i])
  }

  /** `idx_to_class[data["label"]] in classes`. */
  predicate Allowed(classes: seq<string>, r: Record)
    requires Resolvable(r)
  {
    ClassName(r.classLabel).value in classes
  }

  /** The allow-listed records of `s`, in order. */
  function Filter(classes: seq<string>, s: seq<Record>): seq<Record>
    requires AllResolvable(s)
  {
    if s == [] then []
    else
      var last := s[|s| - 1];
      Filter(classes, s[..|s| - 1]) + (if Allowed(classes, last) then [last] else [])
  }

  /** The first `n` elements of `s`, or all of them when there are fewer. */
  function Take(n: nat, s: seq<Record>): seq<Record> {
    if n <= |s| then s[..n] else s
  }

  /** Index of the first record whose label `idx_to_class` cannot resolve, or `|s|`. */
  function FirstUnresolvable(s: seq<Record>): (k: nat)
    ensures k <= |s|
    ensures AllResolvable(s[..k])
    ensures k < |s| ==> !Resolvable(s[k])
  {
    if s == [] then 0
    else if !Resolvable(s[0]) then 0
    else
      var k := FirstUnresolvable(s[1..]);
      assert s[1..][..k] == s[1..k + 1];
      k + 1
  }

  /** Whether the stop test `len(kept) == size` fires while scanning the resolvable records `s`.
      It fires for a positive cap once that many records are allow-listed, for a cap of 0 only
      right after the first record when that record is not allow-listed, and never for a
      negative cap. */
  predicate CapReached(cap: int, classes: seq<string>, s: seq<Record>)
    requires AllResolvable(s)
  {
    if cap >= 1 then |Filter(classes, s)| >= cap
    else if cap == 0 then |s| >= 1 && !Allowed(classes, s[0])
    else false
  }

  /** The records kept from the resolvable records `s`: the first `cap` allow-listed ones for a
      positive cap; for any other cap, nothing when the stop test fires and every allow-listed
      record otherwise. */
  function Kept(cap: int, classes: seq<string>, s: seq<Record>): seq<Record>
    requires AllResolvable(s)
  {
    if cap >= 1 then Take(cap, Filter(classes, s))
    else if CapReached(cap, classes, s) then []
    else Filter(classes, s)
  }

  /** What scanning one split yields: IndexError at the first unresolvable label unless the
      stop test fired before it, otherwise the kept records. */
  function SplitOutcome(s: seq<Record>, classes: seq<string>, cap: int): Result<seq<Record>, Error> {
    var k := FirstUnresolvable(s);
    if k < |s| && !CapReached(cap, classes, s[..k]) then Failure(IndexError(s[k].classLabel))
    else Success(Kept(cap, classes, s[..k]))
  }

  /** What the whole dataset yields for one split name: KeyError when the split is missing. */
  function SplitResult(dataset: map<string, seq<Record>>, sizes: Sizes, classes: seq<string>,
                       split: string): Result<seq<Record>, Error>
    requires split in SplitNames
  {
    if split !in dataset then Failure(KeyError(split))
    else SplitOutcome(dataset[split], classes, SizeOf(sizes, split))
  }

  /** `a` is `b` with some elements left out, order kept. */
  ghost predicate IsSubsequence(a: seq<Record>, b: seq<Record>)
    decreases |b|
  {
    if a == [] then true
    else if b == [] then false
    else
      (a[|a| - 1] == b[|b| - 1] && IsSubsequence(a[..|a| - 1], b[..|b| - 1]))
      || IsSubsequence(a, b[..|b| - 1])
  }

  ghost predicate Distinct(s: seq<Record>) {
    forall i, j :: 0 <= i < j < |s| ==> s[i] != s[j]
  }

  // ---------------------------------------------------------------------------------------
  // Implementation

  /** The inner loop of `prune_dataset` over one (already shuffled) split. */
  method PruneSplit(records: seq<Record>, classes: seq<string>, cap: int)
    returns (r: Result<seq<Record>, Error>)
    ensures r == SplitOutcome(records, classes, cap)
  {
    var kept: seq<Record> := [];
    var i := 0;
    while i < |records|
      invariant 0 <= i <= |records|
      invariant AllResolvable(records[..i])
      invariant kept == Filter(classes, records[..i])
      invariant !CapReached(cap, classes, records[..i])
    {
      var name := ClassName(records[i].classLabel);
      if name.None? {
        FirstUnresolvableAt(records, i);
        r := Failure(IndexError(records[i].classLabel));
        return;
      }
      assert records[..i + 1][..i] == records[..i];
      if name.value in classes {
        kept := kept + [records[i]];
      }
      i := i + 1;
      if |kept| == cap {
        StopTestFires(cap, classes, records[..i], i - 1);
        Settled(cap, classes, records, i);
        r := Success(kept);
        return;
      }
      StopTestSilent(cap, classes, records[..i], i - 1);
    }
    assert records[..i] == records;
    NotReachedKept(cap, classes, records);
    r := Success(kept);
  }

  /** `prune_dataset` on an already shuffled dataset: the splits are scanned in the order
      train, test, validation, and the first error raised ends the whole call. */
  method PruneDataset(dataset: map<string, seq<Record>>, sizes: Sizes, classes: seq<string>)
    returns (r: Result<map<string, seq<Record>>, Error>)
    ensures r.Success? <==>
      forall j :: 0 <= j < |SplitNames| ==> SplitResult(dataset, sizes, classes, SplitNames[j]).Success?
    ensures r.Success? ==> r.value.Keys == {"train", "test", "validation"}
    ensures r.Success? ==> forall j :: 0 <= j < |SplitNames| ==>
      SplitResult(dataset, sizes, classes, SplitNames[j]) == Success(r.value[SplitNames[j]])
    ensures r.Failure? ==> exists j :: (0 <= j < |SplitNames| &&
      (forall i :: 0 <= i < j ==> SplitResult(dataset, sizes, classes, SplitNames[i]).Success?) &&
      SplitResult(dataset, sizes, classes, SplitNames[j]) == Failure(r.error))
  {
    var pruned: map<string, seq<Record>> := map[];
    var j := 0;
    while j < |SplitNames|
      invariant 0 <= j <= |SplitNames|
      invariant pruned.Keys == set i | 0 <= i < j :: SplitNames[i]
      invariant forall i :: 0 <= i < j ==>
        SplitResult(dataset, sizes, classes, SplitNames[i]) == Success(pruned[SplitNames[i]])
    {
      var split := SplitNames[j];
      pruned := pruned[split := []];
      if split !in dataset {
        r := Failure(KeyError(split));
        return;
      }
      var kept := PruneSplit(dataset[split], classes, SizeOf(sizes, split));
      if kept.Failure? {
        r := Failure(kept.error);
        return;
      }
      pruned := pruned[split := kept.value];
      j := j + 1;
    }
    assert pruned.Keys == {SplitNames[0], SplitNames[1], SplitNames[2]};
    r := Success(pruned);
  }

  // ---------------------------------------------------------------------------------------
  // Lemmas behind the loop

  /** Scanning one more record appends it to the filtered prefix exactly when it is allowed. */
  lemma FilterSnoc(classes: seq<string>, s: seq<Record>, i: nat)
    requires i < |s| && AllResolvable(s[..i + 1])
    ensures AllResolvable(s[..i])
    ensures Filter(classes, s[..i + 1]) ==
      Filter(classes, s[..i]) + (if Allowed(classes, s[i]) then [s[i]] else [])
  {
    assert s[..i + 1][..i] == s[..i];
  }

  /** The records allow-listed in a prefix are a prefix of those allow-listed in the whole. */
  lemma {:induction false} FilterPrefix(classes: seq<string>, s: seq<Record>, n: nat)
    requires AllResolvable(s) && n <= |s|
    ensures AllResolvable(s[..n])
    ensures |Filter(classes, s[..n])| <= |Filter(classes, s)|
    ensures Filter(classes, s)[..|Filter(classes, s[..n])|] == Filter(classes, s[..n])
    decreases |s|
  {
    if n < |s| {
      var p := s[..|s| - 1];
      assert p[..n] == s[..n];
      FilterPrefix(classes, p, n);
    } else {
      assert s[..n] == s;
    }
  }

  /** A first record that is allow-listed is the first record kept. */
  lemma FilterHead(classes: seq<string>, s: seq<Record>)
    requires AllResolvable(s) && |s| >= 1 && Allowed(classes, s[0])
    ensures |Filter(classes, s)| >= 1 && Filter(classes, s)[0] == s[0]
  {
    assert s[..1][..0] == [];
    FilterPrefix(classes, s, 1);
  }

  /** When the loop's `len(kept) == size` test succeeds after record `i`, the stop test fires. */
  lemma StopTestFires(cap: int, classes: seq<string>, s: seq<Record>, i: nat)
    requires |s| == i + 1 && AllResolvable(s)
    requires !CapReached(cap, classes, s[..i])
    requires |Filter(classes, s)| == cap
    ensures CapReached(cap, classes, s)
    ensures Kept(cap, classes, s) == Filter(classes, s)
  {
    if cap == 0 && Allowed(classes, s[0]) {
      FilterHead(classes, s);
    }
  }

  /** When the test fails after record `i`, the stop test has not fired yet. */
  lemma StopTestSilent(cap: int, classes: seq<string>, s: seq<Record>, i: nat)
    requires |s| == i + 1 && AllResolvable(s)
    requires !CapReached(cap, classes, s[..i])
    requires |Filter(classes, s)| != cap
    ensures !CapReached(cap, classes, s)
  {
    FilterSnoc(classes, s, i);
    if cap == 0 && i == 0 {
      assert s[..1] == s;
    } else if cap == 0 {
      assert s[..i][0] == s[0];
    }
  }

  /** Once the stop test fires on a prefix it has fired on every longer sequence, and the kept
      records no longer change. */
  lemma CapReachedExtends(cap: int, classes: seq<string>, s: seq<Record>, n: nat)
    requires AllResolvable(s) && n <= |s|
    requires AllResolvable(s[..n]) && CapReached(cap, classes, s[..n])
    ensures CapReached(cap, classes, s)
    ensures Kept(cap, classes, s) == Kept(cap, classes, s[..n])
  {
    FilterPrefix(classes, s, n);
    if cap >= 1 {
      var f, fp := Filter(classes, s), Filter(classes, s[..n]);
      assert f[..cap] == f[..|fp|][..cap];
    } else if cap == 0 {
      assert s[..n][0] == s[0];
    }
  }

  /** While the stop test has not fired, every allow-listed record is kept. */
  lemma NotReachedKept(cap: int, classes: seq<string>, s: seq<Record>)
    requires AllResolvable(s) && !CapReached(cap, classes, s)
    ensures Kept(cap, classes, s) == Filter(classes, s)
  {
  }

  /** The first unresolvable label is at `i` when the records before it all resolve. */
  lemma FirstUnresolvableAt(s: seq<Record>, i: nat)
    requires i <= |s| && AllResolvable(s[..i])
    requires i < |s| ==> !Resolvable(s[i])
    ensures FirstUnresolvable(s) == i
  {
    var k := FirstUnresolvable(s);
    forall j | 0 <= j < i ensures Resolvable(s[j]) {
      assert s[..i][j] == s[j];
    }
    forall j | 0 <= j < k ensures Resolvable(s[j]) {
      assert s[..k][j] == s[j];
    }
  }

  /** After the loop breaks on a resolvable prefix of length `i`, the outcome of the whole
      split is what was kept there. */
  lemma Settled(cap: int, classes: seq<string>, s: seq<Record>, i: nat)
    requires i <= |s| && AllResolvable(s[..i]) && CapReached(cap, classes, s[..i])
    ensures SplitOutcome(s, classes, cap) == Success(Kept(cap, classes, s[..i]))
  {
    var k := FirstUnresolvable(s);
    assert s[..k][..i] == s[..i];
    CapReachedExtends(cap, classes, s[..k], i);
  }

  // ---------------------------------------------------------------------------------------
  // Subsequences

  lemma {:induction false} FilterSubsequence(classes: seq<string>, s: seq<Record>)
    requires AllResolvable(s)
    ensures IsSubsequence(Filter(classes, s), s)
    decreases |s|
  {
    if s != [] {
      var p := s[..|s| - 1];
      FilterSubsequence(classes, p);
      var f := Filter(classes, s);
      if Allowed(classes, s[|s| - 1]) {
        assert f[..|f| - 1] == Filter(classes, p);
      } else {
        assert f == Filter(classes, p);
      }
    }
  }

  lemma {:induction false} SubsequencePrefix(a: seq<Record>, b: seq<Record>, n: nat)
    requires IsSubsequence(a, b) && n <= |a|
    ensures IsSubsequence(a[..n], b)
    decreases |b|
  {
    if n == 0 {
      assert a[..n] == [];
    } else if n == |a| {
      assert a[..n] == a;
    } else {
      var a', b' := a[..|a| - 1], b[..|b| - 1];
      if a[|a| - 1] == b[|b| - 1] && IsSubsequence(a', b') {
        SubsequencePrefix(a', b', n);
        assert a'[..n] == a[..n];
      } else {
        SubsequencePrefix(a, b', n);
      }
      assert b[..|b| - 1] == b';
    }
  }

  lemma {:induction false} SubsequenceOfPrefix(a: seq<Record>, b: seq<Record>, m: nat)
    requires m <= |b| && IsSubsequence(a, b[..m])
    ensures IsSubsequence(a, b)
    decreases |b| - m
  {
    if m == |b| {
      assert b[..m] == b;
    } else {
      assert b[..m + 1][..m] == b[..m];
      SubsequenceOfPrefix(a, b, m + 1);
    }
  }

  lemma {:induction false} SubsequenceMultiset(a: seq<Record>, b: seq<Record>)
    requires IsSubsequence(a, b)
    ensures multiset(a) <= multiset(b)
    decreases |b|
  {
    if a != [] {
      var a', b' := a[..|a| - 1], b[..|b| - 1];
      assert a == a' + [a[|a| - 1]] && b == b' + [b[|b| - 1]];
      if a[|a| - 1] == b[|b| - 1] && IsSubsequence(a', b') {
        SubsequenceMultiset(a', b');
      } else {
        SubsequenceMultiset(a, b');
      }
    }
  }

  lemma {:induction false} SubsequenceDistinct(a: seq<Record>, b: seq<Record>)
    requires IsSubsequence(a, b) && Distinct(b)
    ensures Distinct(a)
    decreases |b|
  {
    if a != [] {
      var a', b' := a[..|a| - 1], b[..|b| - 1];
      assert Distinct(b');
      if a[|a| - 1] == b[|b| - 1] && IsSubsequence(a', b') {
        SubsequenceDistinct(a', b');
        SubsequenceMultiset(a', b');
        assert b[|b| - 1] !in multiset(b');
        forall i | 0 <= i < |a| - 1 ensures a[i] != a[|a| - 1] {
          assert a[i] == a'[i] && a'[i] in multiset(a');
        }
      } else {
        SubsequenceDistinct(a, b');
      }
    }
  }

  // ---------------------------------------------------------------------------------------
  // What one split keeps

  lemma {:induction false} FilterAllowed(classes: seq<string>, s: seq<Record>)
    requires AllResolvable(s)
    ensures forall i :: 0 <= i < |Filter(classes, s)| ==>
      Resolvable(Filter(classes, s)[i]) && Allowed(classes, Filter(classes, s)[i])
    decreases |s|
  {
    if s != [] {
      FilterAllowed(classes, s[..|s| - 1]);
    }
  }

  /** Every record kept resolves to an allow-listed class name, and the kept records are the
      split's records in their order, each used at most once. */
  lemma KeptAllowedSubsequence(cap: int, classes: seq<string>, s: seq<Record>)
    requires AllResolvable(s)
    ensures forall i :: 0 <= i < |Kept(cap, classes, s)| ==>
      Resolvable(Kept(cap, classes, s)[i]) && Allowed(classes, Kept(cap, classes, s)[i])
    ensures IsSubsequence(Kept(cap, classes, s), s)
    ensures multiset(Kept(cap, classes, s)) <= multiset(s)
    ensures Distinct(s) ==> Distinct(Kept(cap, classes, s))
  {
    var f := Filter(classes, s);
    FilterAllowed(classes, s);
    FilterSubsequence(classes, s);
    var kept := Kept(cap, classes, s);
    assert kept == f[..|kept|];
    SubsequencePrefix(f, s, |kept|);
    SubsequenceMultiset(kept, s);
    if Distinct(s) {
      SubsequenceDistinct(kept, s);
    }
  }

  /** A positive cap keeps the first `min(cap, n)` of the `n` allow-listed records: never more
      than the cap, and all of them when there are fewer. */
  lemma KeptPositiveCap(cap: int, classes: seq<string>, s: seq<Record>)
    requires AllResolvable(s) && cap >= 1
    ensures var f := Filter(classes, s);
      |Kept(cap, classes, s)| == (if cap <= |f| then cap else |f|) &&
      Kept(cap, classes, s) == f[..|Kept(cap, classes, s)|]
  {
  }

  /** A cap of 0 is not enforced: nothing is kept only when the split is empty or its first
      record is not allow-listed; otherwise every allow-listed record is kept. */
  lemma KeptZeroCap(classes: seq<string>, s: seq<Record>)
    requires AllResolvable(s)
    ensures Kept(0, classes, s) == [] <==> (|s| == 0 || !Allowed(classes, s[0]))
    ensures |s| >= 1 && Allowed(classes, s[0]) ==> Kept(0, classes, s) == Filter(classes, s)
  {
    if |s| >= 1 && Allowed(classes, s[0]) {
      FilterHead(classes, s);
    }
  }

  /** A negative cap is never reached: every allow-listed record is kept. */
  lemma KeptNegativeCap(cap: int, classes: seq<string>, s: seq<Record>)
    requires AllResolvable(s) && cap < 0
    ensures Kept(cap, classes, s) == Filter(classes, s)
  {
  }

  // ---------------------------------------------------------------------------------------
  // What scanning one split yields

  /** With every label in range the scan cannot fail, and yields the kept records. */
  lemma OutcomeResolvable(s: seq<Record>, classes: seq<string>, cap: int)
    requires AllResolvable(s)
    ensures SplitOutcome(s, classes, cap) == Success(Kept(cap, classes, s))
  {
    FirstUnresolvableAt(s, |s|);
    assert s[..|s|] == s;
  }

  /** Fewer allow-listed records than a positive cap: all of them are returned, no error. */
  lemma OutcomeExhausted(s: seq<Record>, classes: seq<string>, cap: int)
    requires AllResolvable(s) && 1 <= cap && |Filter(classes, s)| < cap
    ensures SplitOutcome(s, classes, cap) == Success(Filter(classes, s))
  {
    OutcomeResolvable(s, classes, cap);
  }

  /** A successful scan returns only allow-listed records, in input order, at most `cap` of
      them for a positive cap. */
  lemma OutcomeSuccess(s: seq<Record>, classes: seq<string>, cap: int)
    requires SplitOutcome(s, classes, cap).Success?
    ensures var kept := SplitOutcome(s, classes, cap).value;
      AllResolvable(kept) &&
      (forall i :: 0 <= i < |kept| ==> Allowed(classes, kept[i])) &&
      IsSubsequence(kept, s) &&
      multiset(kept) <= multiset(s) &&
      (cap >= 1 ==> |kept| <= cap)
  {
    var k := FirstUnresolvable(s);
    KeptAllowedSubsequence(cap, classes, s[..k]);
    SubsequenceOfPrefix(Kept(cap, classes, s[..k]), s, k);
    SubsequenceMultiset(Kept(cap, classes, s[..k]), s);
  }

  /** A scan fails only on a label outside [-16, 16) at a record the loop reached: every
      record before it resolves and the stop test had not fired. */
  lemma OutcomeFailure(s: seq<Record>, classes: seq<string>, cap: int)
    requires SplitOutcome(s, classes, cap).Failure?
    ensures exists k :: (0 <= k < |s| && AllResolvable(s[..k]) &&
      !CapReached(cap, classes, s[..k]) &&
      SplitOutcome(s, classes, cap).error == IndexError(s[k].classLabel) &&
      (s[k].classLabel < -16 || s[k].classLabel >= 16))
  {
    VocabularyShape();
    var k := FirstUnresolvable(s);
    assert 0 <= k < |s|;
  }

  /** Conversely, a reached out-of-range label raises. */
  lemma OutOfRangeRaises(s: seq<Record>, classes: seq<string>, cap: int, k: nat)
    requires k < |s| && AllResolvable(s[..k]) && !CapReached(cap, classes, s[..k])
    requires s[k].classLabel < -16 || s[k].classLabel >= 16
    ensures SplitOutcome(s, classes, cap) == Failure(IndexError(s[k].classLabel))
  {
    VocabularyShape();
    FirstUnresolvableAt(s, k);
  }

  /** `dataset.shuffle()` only permutes a split: whatever the permutation, the records kept are
      drawn from the original split, no more often than they occur there. */
  lemma ShuffledOutcome(original: seq<Record>, shuffled: seq<Record>, classes: seq<string>, cap: int)
    requires multiset(shuffled) == multiset(original)
    requires SplitOutcome(shuffled, classes, cap).Success?
    ensures multiset(SplitOutcome(shuffled, classes, cap).value) <= multiset(original)
  {
    OutcomeSuccess(shuffled, classes, cap);
  }

  // ---------------------------------------------------------------------------------------
  // Scenarios

  /** Labels [0, 5, 11, 0, 2], allow-list ["letter", "invoice"], size 2: the first two
      letters or invoices are kept. */
  lemma ScenarioTrain()
    ensures SplitOutcome(
      [Record(0, 0), Record(1, 5), Record(2, 11), Record(3, 0), Record(4, 2)],
      ["letter", "invoice"], 2) == Success([Record(0, 0), Record(2, 11)])
  {
    var s := [Record(0, 0), Record(1, 5), Record(2, 11), Record(3, 0), Record(4, 2)];
    var classes := ["letter", "invoice"];
    VocabularyShape();
    assert IdxToClass[0] == "letter" && IdxToClass[5] == "scientific report";
    assert IdxToClass[11] == "invoice" && IdxToClass[2] == "email";
    assert AllResolvable(s);
    assert Allowed(classes, s[0]) && !Allowed(classes, s[1]) && Allowed(classes, s[2]);
    assert Allowed(classes, s[3]) && !Allowed(classes, s[4]);
    OutcomeResolvable(s, classes, 2);
    assert s[..1][..0] == [];
    assert Filter(classes, s[..1]) == [Record(0, 0)];
    assert s[..2][..1] == s[..1];
    assert Filter(classes, s[..2]) == [Record(0, 0)];
    assert s[..3][..2] == s[..2];
    assert Filter(classes, s[..3]) == [Record(0, 0), Record(2, 11)];
    assert s[..4][..3] == s[..3];
    assert Filter(classes, s[..4]) == [Record(0, 0), Record(2, 11), Record(3, 0)];
    assert s[..4] == s[..|s| - 1];
    assert Filter(classes, s) == [Record(0, 0), Record(2, 11), Record(3, 0)];
    assert Kept(2, classes, s) == [Record(0, 0), Record(2, 11)];
  }

  /** Size 0 does not empty a split whose first record is allow-listed. */
  lemma ScenarioZeroSize()
    ensures SplitOutcome([Record(0, 11), Record(1, 3), Record(2, 0)], ["letter", "invoice"], 0)
      == Success([Record(0, 11), Record(2, 0)])
  {
    var s := [Record(0, 11), Record(1, 3), Record(2, 0)];
    var classes := ["letter", "invoice"];
    VocabularyShape();
    assert IdxToClass[0] == "letter" && IdxToClass[3] == "handwritten";
    assert IdxToClass[11] == "invoice";
    assert AllResolvable(s);
    assert Allowed(classes, s[0]) && !Allowed(classes, s[1]) && Allowed(classes, s[2]);
    OutcomeResolvable(s, classes, 0);
    KeptZeroCap(classes, s);
    assert s[..1][..0] == [];
    assert Filter(classes, s[..1]) == [Record(0, 11)];
    assert s[..2][..1] == s[..1];
    assert Filter(classes, s[..2]) == [Record(0, 11)];
    assert s[..2] == s[..|s| - 1];
    assert Filter(classes, s) == [Record(0, 11), Record(2, 0)];
  }

  /** Label 99 raises IndexError when the loop reaches it. */
  lemma ScenarioLabelOutOfRange()
    ensures SplitOutcome([Record(0, 99)], ["letter"], 1) == Failure(IndexError(99))
  {
    OutOfRangeRaises([Record(0, 99)], ["letter"], 1, 0);
  }
}
