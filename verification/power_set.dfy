/** The power-set enumeration behind the keyed accessors: bit pattern `m` in `0 .. 2^k - 1`
    selects the primary-key positions whose bit is set, visited in ascending position order,
    and the empty selection is skipped. */
module PowerSet {
  import opened Wrappers

  function Pow2(k: nat): (r: nat)
    ensures r >= 1
  {
    if k == 0 then 1 else 2 * Pow2(k - 1)
  }

  /** Binary digit `i` of `m`: the test `(m & (1 << i)) != 0`. */
  predicate Digit(m: nat, i: nat) {
    if i == 0 then m % 2 == 1 else Digit(m / 2, i - 1)
  }

  /** The first `k` digits of `m`, lowest first. */
  function Digits(m: nat, k: nat): (flags: seq<bool>)
    ensures |flags| == k
    ensures forall i :: 0 <= i < k ==> flags[i] == Digit(m, i)
  {
    seq(k, i requires 0 <= i < k => Digit(m, i))
  }

  /** The number whose digits, lowest first, are `flags`. */
  function Value(flags: seq<bool>): nat {
    if |flags| == 0 then 0 else (if flags[0] then 1 else 0) + 2 * Value(flags[1..])
  }

  predicate StrictlyAscending(xs: seq<nat>) {
    forall i, j :: 0 <= i < j < |xs| ==> xs[i] < xs[j]
  }

  /** `start + i` for every position `i` at which `flags` holds, in ascending order. */
  function IndicesWhere(flags: seq<bool>, start: nat): (r: seq<nat>)
    ensures forall x :: x in r <==> start <= x < start + |flags| && flags[x - start]
    ensures StrictlyAscending(r)
    decreases |flags|
  {
    if |flags| == 0 then []
    else
      var rest := IndicesWhere(flags[1..], start + 1);
      assert forall j :: 0 <= j < |rest| ==> rest[j] in rest;
      if flags[0] then [start] + rest else rest
  }

  /** The primary-key positions pattern `m` selects among `k` keys. */
  function Subset(m: nat, k: nat): seq<nat> {
    IndicesWhere(Digits(m, k), 0)
  }

  /** The subsets that are not empty, in their original order (the `continue` on an empty one). */
  function NonEmpty(subsets: seq<seq<nat>>): (r: seq<seq<nat>>)
    ensures |r| <= |subsets|
    ensures forall s :: s in r <==> s in subsets && |s| > 0
  {
    if |subsets| == 0 then []
    else if |subsets[0]| == 0 then NonEmpty(subsets[1..])
    else [subsets[0]] + NonEmpty(subsets[1..])
  }

  /** Every pattern of `k` bits, in increasing order, each turned into its subset. */
  function AllSubsets(k: nat): (r: seq<seq<nat>>)
    ensures |r| == Pow2(k)
    ensures forall m :: 0 <= m < Pow2(k) ==> r[m] == Subset(m, k)
  {
    seq(Pow2(k), m requires 0 <= m < Pow2(k) => Subset(m, k))
  }

  /** The key subsets one accessor each is generated for. */
  function KeySubsets(k: nat): seq<seq<nat>> {
    NonEmpty(AllSubsets(k))
  }

  // ---------------------------------------------------------------- as the source computes it

  /** The enumeration exactly as the generator writes it: `1 << k` is a 32-bit shift whose
      count is taken modulo 32, `1 << 31` is negative so `Enumerable.Range` throws, and the
      bit test `(m & (1 << i))` also takes `i` modulo 32. */
  function EnumerateAsWritten(k: nat): (r: Result<seq<seq<nat>>, Exception>)
    ensures r.Failure? <==> k % 32 == 31
    ensures r.Success? ==> forall j, i :: 0 <= j < |r.value| && 0 <= i < |r.value[j]| ==> r.value[j][i] < k
  {
    var shift := k % 32;
    if shift == 31 then Failure(ArgumentOutOfRangeException)
    else
      Success(NonEmpty(MaskedSubsets(k, Pow2(shift))))
  }

  /** The masked subsets of the patterns `0 .. count - 1`. */
  function MaskedSubsets(k: nat, count: nat): (r: seq<seq<nat>>)
    ensures |r| == count
    ensures forall m :: 0 <= m < count ==> r[m] == MaskedSubset(m, k)
    ensures forall s :: s in r ==> forall i :: 0 <= i < |s| ==> s[i] < k
  {
    seq(count, m requires 0 <= m < count => MaskedSubset(m, k))
  }

  /** The positions below `k` whose bit passes the 32-bit test `(m & (1 << i)) != 0`. */
  function MaskedSubset(m: nat, k: nat): (r: seq<nat>)
    ensures forall i :: 0 <= i < |r| ==> r[i] < k
  {
    var r := IndicesWhere(seq(k, i requires 0 <= i < k => Digit(m, i % 32)), 0);
    assert forall i :: 0 <= i < |r| ==> r[i] in r;
    r
  }

  // ---------------------------------------------------------------- lemmas

  lemma {:induction false} DigitsOfHalf(m: nat, k: nat)
    requires k > 0
    ensures Digits(m, k)[1..] == Digits(m / 2, k - 1)
  {
  }

  /** The first `k` digits of a number below `2^k` determine it. */
  lemma {:induction false} ValueOfDigits(m: nat, k: nat)
    requires m < Pow2(k)
    ensures Value(Digits(m, k)) == m
  {
    if k > 0 {
      DigitsOfHalf(m, k);
      ValueOfDigits(m / 2, k - 1);
    }
  }

  lemma {:induction false} ValueBound(flags: seq<bool>)
    ensures Value(flags) < Pow2(|flags|)
  {
    if |flags| > 0 {
      ValueBound(flags[1..]);
    }
  }

  lemma {:induction false} DigitsOfValue(flags: seq<bool>)
    ensures Digits(Value(flags), |flags|) == flags
  {
    if |flags| > 0 {
      var v := Value(flags);
      DigitsOfValue(flags[1..]);
      DigitsOfHalf(v, |flags|);
      assert v / 2 == Value(flags[1..]);
    }
  }

  lemma IndicesWhereInjective(a: seq<bool>, b: seq<bool>, start: nat)
    requires |a| == |b|
    requires IndicesWhere(a, start) == IndicesWhere(b, start)
    ensures a == b
  {
    forall i | 0 <= i < |a|
      ensures a[i] == b[i]
    {
      assert a[i] <==> start + i in IndicesWhere(a, start);
    }
  }

  /** Two patterns below `2^k` select the same keys only if they are the same pattern. */
  lemma SubsetInjective(m: nat, n: nat, k: nat)
    requires m < Pow2(k) && n < Pow2(k)
    ensures Subset(m, k) == Subset(n, k) ==> m == n
  {
    if Subset(m, k) == Subset(n, k) {
      IndicesWhereInjective(Digits(m, k), Digits(n, k), 0);
      ValueOfDigits(m, k);
      ValueOfDigits(n, k);
    }
  }

  /** Only pattern 0 selects nothing. */
  lemma SubsetEmptyIffZero(m: nat, k: nat)
    requires m < Pow2(k)
    ensures |Subset(m, k)| == 0 <==> m == 0
  {
    forall i | 0 <= i < k ensures !Digits(0, k)[i] {
      ZeroDigit(i);
    }
    NoFlagsNoIndices(Digits(0, k), 0);
    if |Subset(m, k)| == 0 {
      SubsetInjective(m, 0, k);
    }
  }

  lemma {:induction false} NoFlagsNoIndices(flags: seq<bool>, start: nat)
    requires forall i :: 0 <= i < |flags| ==> !flags[i]
    ensures IndicesWhere(flags, start) == []
    decreases |flags|
  {
    if |flags| > 0 {
      NoFlagsNoIndices(flags[1..], start + 1);
    }
  }

  lemma {:induction false} ZeroDigit(i: nat)
    ensures !Digit(0, i)
  {
    if i > 0 {
      ZeroDigit(i - 1);
    }
  }

  lemma {:induction false} NonEmptySkipsFirst(subsets: seq<seq<nat>>)
    requires |subsets| > 0 && |subsets[0]| == 0
    requires forall i :: 0 < i < |subsets| ==> |subsets[i]| > 0
    ensures NonEmpty(subsets) == subsets[1..]
  {
    NonEmptyKeepsAll(subsets[1..]);
  }

  lemma {:induction false} NonEmptyKeepsAll(subsets: seq<seq<nat>>)
    requires forall i :: 0 <= i < |subsets| ==> |subsets[i]| > 0
    ensures NonEmpty(subsets) == subsets
    decreases |subsets|
  {
    if |subsets| > 0 {
      NonEmptyKeepsAll(subsets[1..]);
    }
  }

  /** The accessor subsets are the patterns 1 .. 2^k - 1 in increasing order: 2^k - 1 of them. */
  lemma KeySubsetsArePatterns(k: nat)
    ensures |KeySubsets(k)| == Pow2(k) - 1
    ensures forall j :: 0 <= j < |KeySubsets(k)| ==> KeySubsets(k)[j] == Subset(j + 1, k)
  {
    var all := AllSubsets(k);
    SubsetEmptyIffZero(0, k);
    forall i | 0 < i < |all| ensures |all[i]| > 0 {
      SubsetEmptyIffZero(i, k);
    }
    NonEmptySkipsFirst(all);
  }

  lemma KeySubsetAt(k: nat, j: nat)
    requires j < |KeySubsets(k)|
    ensures j + 1 < Pow2(k) && KeySubsets(k)[j] == Subset(j + 1, k)
  {
    KeySubsetsArePatterns(k);
  }

  /** No key subset is generated twice: entries at different indices differ. */
  lemma KeySubsetsDistinct(k: nat, i: nat, j: nat)
    requires i < j < Pow2(k) - 1
    ensures j < |KeySubsets(k)| && KeySubsets(k)[i] != KeySubsets(k)[j]
  {
    KeySubsetCount(k);
    KeySubsetAt(k, i);
    KeySubsetAt(k, j);
    PatternsDistinct(k, i, j);
  }

  lemma PatternsDistinct(k: nat, i: nat, j: nat)
    requires i < j && j + 1 < Pow2(k)
    ensures Subset(i + 1, k) != Subset(j + 1, k)
  {
    SubsetInjective(i + 1, j + 1, k);
  }

  lemma KeySubsetCount(k: nat)
    ensures |KeySubsets(k)| == Pow2(k) - 1
  {
    KeySubsetsArePatterns(k);
  }

  /** Every key subset is non-empty, lists valid positions, and lists them in ascending order. */
  lemma KeySubsetsWellFormed(k: nat, s: seq<nat>)
    requires s in KeySubsets(k)
    ensures |s| > 0 && StrictlyAscending(s)
    ensures forall i :: 0 <= i < |s| ==> s[i] < k
  {
    var m :| 0 <= m < Pow2(k) && AllSubsets(k)[m] == s;
    forall i | 0 <= i < |s| ensures s[i] < k {
      assert s[i] in s;
    }
  }

  /** Every non-empty, ascending choice of positions below `k` is generated. */
  lemma KeySubsetsComplete(k: nat, s: seq<nat>)
    requires |s| > 0 && StrictlyAscending(s)
    requires forall x :: x in s ==> x < k
    ensures s in KeySubsets(k)
  {
    var flags := seq(k, i requires 0 <= i < k => i in s);
    var m := Value(flags);
    ValueBound(flags);
    DigitsOfValue(flags);
    assert Subset(m, k) == IndicesWhere(flags, 0);
    AscendingSameElements(Subset(m, k), s);
    assert AllSubsets(k)[m] == s;
  }

  /** Two ascending sequences with the same elements are equal. */
  lemma {:induction false} AscendingSameElements(a: seq<nat>, b: seq<nat>)
    requires StrictlyAscending(a) && StrictlyAscending(b)
    requires forall x :: x in a <==> x in b
    ensures a == b
    decreases |a| + |b|
  {
    if |a| > 0 && |b| > 0 {
      AscendingSameHead(a, b);
      AscendingSameTail(a, b);
      AscendingSameElements(a[1..], b[1..]);
      assert a == [a[0]] + a[1..] && b == [b[0]] + b[1..];
    } else if |a| > 0 {
      AscendingSameElementsNonEmpty(a, b);
    } else if |b| > 0 {
      AscendingSameElementsNonEmpty(b, a);
    }
  }

  /** Two ascending lists with the same elements start with the same (least) element. */
  lemma AscendingSameHead(a: seq<nat>, b: seq<nat>)
    requires StrictlyAscending(a) && StrictlyAscending(b)
    requires |a| > 0 && |b| > 0
    requires forall x :: x in a <==> x in b
    ensures a[0] == b[0]
  {
    assert a[0] in b;
    assert b[0] in a;
    var i :| 0 <= i < |b| && b[i] == a[0];
    var j :| 0 <= j < |a| && a[j] == b[0];
    assert b[0] <= b[i] && a[0] <= a[j];
  }

  /** Removing the shared least element leaves lists with the same elements. */
  lemma AscendingSameTail(a: seq<nat>, b: seq<nat>)
    requires StrictlyAscending(a) && StrictlyAscending(b)
    requires |a| > 0 && |b| > 0 && a[0] == b[0]
    requires forall x :: x in a <==> x in b
    ensures forall x :: x in a[1..] <==> x in b[1..]
  {
    forall x | x in a[1..] ensures x in b[1..] {
      AscendingTailMember(a, b, x);
    }
    forall x | x in b[1..] ensures x in a[1..] {
      AscendingTailMember(b, a, x);
    }
  }

  lemma AscendingTailMember(a: seq<nat>, b: seq<nat>, x: nat)
    requires StrictlyAscending(a) && StrictlyAscending(b)
    requires |a| > 0 && |b| > 0 && a[0] == b[0]
    requires forall y :: y in a <==> y in b
    requires x in a[1..]
    ensures x in b[1..]
  {
    var i :| 0 <= i < |a| - 1 && a[1..][i] == x;
    assert x > a[0];
    assert x in b;
    var j :| 0 <= j < |b| && b[j] == x;
    assert j != 0;
    assert b[1..][j - 1] == x;
  }

  lemma AscendingSameElementsNonEmpty(a: seq<nat>, b: seq<nat>)
    requires |a| > 0
    requires forall x :: x in a <==> x in b
    ensures |b| > 0
  {
    assert a[0] in a;
  }

  function Range(k: nat): (r: seq<nat>)
    ensures |r| == k && forall i :: 0 <= i < k ==> r[i] == i
  {
    seq(k, i requires 0 <= i < k => i)
  }

  /** A key subset covers every primary key exactly when it has `k` members. */
  lemma FullSubsetIffAllKeys(k: nat, s: seq<nat>)
    requires s in KeySubsets(k)
    ensures |s| == k <==> s == Range(k)
  {
    KeySubsetsWellFormed(k, s);
    if |s| == k {
      AscendingIsIdentity(s, k);
    }
  }

  /** An ascending list of `k` positions below `k` is `0, 1, .., k - 1`. */
  lemma {:induction false} AscendingIsIdentity(s: seq<nat>, k: nat)
    requires |s| == k && StrictlyAscending(s)
    requires forall x :: x in s ==> x < k
    ensures s == Range(k)
    decreases k
  {
    if k > 0 {
      assert s[k - 1] in s;
      var init := s[..k - 1];
      forall x | x in init ensures x < k - 1 {
        var i :| 0 <= i < |init| && init[i] == x;
        assert s[i] < s[k - 1];
      }
      assert s[k - 1] >= k - 1 by {
        AscendingLowerBound(s, k - 1);
      }
      AscendingIsIdentity(init, k - 1);
      assert s == init + [s[k - 1]];
    }
  }

  lemma {:induction false} AscendingLowerBound(s: seq<nat>, i: nat)
    requires StrictlyAscending(s) && i < |s|
    ensures s[i] >= i
  {
    if i > 0 {
      AscendingLowerBound(s, i - 1);
    }
  }

  lemma MaskedSubsetAgrees(m: nat, k: nat)
    requires k <= 32
    ensures MaskedSubset(m, k) == Subset(m, k)
  {
    var flags := seq(k, i requires 0 <= i < k => Digit(m, i % 32));
    forall i | 0 <= i < k ensures flags[i] == Digits(m, k)[i] {
      assert i % 32 == i;
    }
    assert flags == Digits(m, k);
  }

  /** Up to 30 keys the 32-bit enumeration agrees with the unbounded one. */
  lemma AsWrittenAgrees(k: nat)
    requires k <= 30
    ensures EnumerateAsWritten(k) == Success(KeySubsets(k))
  {
    var masks := MaskedSubsets(k, Pow2(k));
    assert k % 32 == k;
    forall m | 0 <= m < Pow2(k) ensures masks[m] == AllSubsets(k)[m] {
      MaskedSubsetAgrees(m, k);
    }
    assert masks == AllSubsets(k);
  }

  /** With 31 keys the shift yields a negative count and the enumeration throws. */
  lemma ThirtyOneKeysThrow()
    ensures EnumerateAsWritten(31) == Failure(ArgumentOutOfRangeException)
  {
    var k := 31;
    assert k % 32 == 31;
    assert EnumerateAsWritten(k) == Failure(ArgumentOutOfRangeException);
  }

  /** With 32 keys the shift wraps to `1 << 0`: only pattern 0 is visited and no accessor is made. */
  lemma ThirtyTwoKeysYieldNothing()
    ensures EnumerateAsWritten(32) == Success([])
  {
    var masks := MaskedSubsets(32, Pow2(0));
    forall i | 0 <= i < 32 ensures !Digits(0, 32)[i] {
      ZeroDigit(i);
    }
    NoFlagsNoIndices(Digits(0, 32), 0);
    MaskedSubsetAgrees(0, 32);
    assert masks == [Subset(0, 32)];
    assert NonEmpty(masks[1..]) == [];
  }
}
