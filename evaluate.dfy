/**
  The retrieval metrics of evaluate.py over a ranked list of predicted ids and
  a set of relevant ("gold") ids, with binary relevance. Arithmetic is exact
  over `real`. The DCG discount `1/log2(rank + 1)` is the abstract function
  `disc` from zero-based position to weight; the bounds on nDCG hold for any
  discount that is positive and never increases with the position.
*/
module Evaluate {

  /** The weight of the gain at a zero-based position. */
  type Discount = nat -> real

  /** What `1/log2(i + 2)` satisfies: positive, and never larger further down the ranking. */
  ghost predicate ValidDiscount(disc: Discount) {
    && (forall i: nat :: disc(i) > 0.0)
    && (forall i: nat, j: nat :: i <= j ==> disc(j) <= disc(i))
  }

  /** `pred_ids[:k]` for `k >= 0`: the whole list when it is shorter. */
  function Take(s: seq<string>, k: nat): (t: seq<string>)
    ensures |t| == if k <= |s| then k else |s|
    ensures t == s[..|t|]
  {
    if k <= |s| then s[..k] else s
  }

  /** A ratio of a non-negative number over a larger positive one lies in [0, 1], and is 1 only for equal terms. */
  lemma DivBounds(a: real, b: real)
    requires 0.0 <= a <= b && b > 0.0
    ensures 0.0 <= a / b <= 1.0
    ensures a / b == 1.0 <==> a == b
  {
    assert (a / b) * b == a;
  }

  /** Reciprocal ranks shrink as the rank grows. */
  lemma ReciprocalStep(n: nat)
    requires n >= 1
    ensures 0.0 < 1.0 / ((n + 1) as real) <= 1.0 / (n as real)
  {
    var x := 1.0 / (n as real);
    var y := 1.0 / ((n + 1) as real);
    assert x * (n as real) == 1.0;
    assert y * ((n + 1) as real) == 1.0;
  }

  // ---------------------------------------------------------------------------
  // DCG and nDCG
  // ---------------------------------------------------------------------------

  /** The discounted sum of `gains`, the first of them sitting at position `off`. */
  function DcgFrom(gains: seq<real>, disc: Discount, off: nat): (r: real)
    decreases |gains|
  {
    if gains == [] then 0.0 else gains[0] * disc(off) + DcgFrom(gains[1..], disc, off + 1)
  }

  /** `dcg(relevances)`: the sum of each gain times the discount of its position. */
  function Dcg(gains: seq<real>, disc: Discount): (r: real)
    ensures Binary(gains) && ValidDiscount(disc) ==> 0.0 <= r <= TopDiscounts(disc, 0, Ones(gains))
  {
    DcgBound(gains, disc);
    DcgFrom(gains, disc, 0)
  }

  /** Every gain is 0.0 or 1.0, as binary relevance produces. */
  predicate Binary(gains: seq<real>) {
    forall i :: 0 <= i < |gains| ==> gains[i] == 0.0 || gains[i] == 1.0
  }

  /** No gain is larger than the one before it. */
  predicate NonIncreasing(gains: seq<real>) {
    forall i, j :: 0 <= i <= j < |gains| ==> gains[j] <= gains[i]
  }

  /** `[1.0 if pid in gold_ids else 0.0 for pid in pred_k]`. */
  function Gains(predK: seq<string>, gold: set<string>): (gains: seq<real>)
    ensures |gains| == |predK|
    ensures Binary(gains)
    ensures forall i :: 0 <= i < |predK| ==> (gains[i] == 1.0 <==> predK[i] in gold)
  {
    seq(|predK|, i requires 0 <= i < |predK| => if predK[i] in gold then 1.0 else 0.0)
  }

  /** The number of relevant positions. */
  function Ones(gains: seq<real>): (n: nat)
    ensures n <= |gains|
  {
    if gains == [] then 0 else (if gains[0] == 1.0 then 1 else 0) + Ones(gains[1..])
  }

  /** `n` copies of `x`. */
  function Repeat(x: real, n: nat): (s: seq<real>)
    ensures |s| == n
    ensures forall i :: 0 <= i < n ==> s[i] == x
  {
    if n == 0 then [] else [x] + Repeat(x, n - 1)
  }

  /** `sorted(gains, reverse=True)` for binary gains: the ones first, then the zeros. */
  function IdealGains(gains: seq<real>): (ideal: seq<real>)
    ensures |ideal| == |gains|
    ensures Binary(ideal) && NonIncreasing(ideal)
  {
    Repeat(1.0, Ones(gains)) + Repeat(0.0, |gains| - Ones(gains))
  }

  lemma BinaryTail(gains: seq<real>)
    requires Binary(gains) && gains != []
    ensures Binary(gains[1..]) && (gains[0] == 0.0 || gains[0] == 1.0)
  {
    assert forall i :: 0 <= i < |gains[1..]| ==> gains[1..][i] == gains[i + 1];
  }

  lemma RepeatCons(x: real, n: nat)
    ensures multiset(Repeat(x, n + 1)) == multiset{x} + multiset(Repeat(x, n))
  {
    assert Repeat(x, n + 1) == [x] + Repeat(x, n);
  }

  lemma MultisetCons(s: seq<real>)
    requires s != []
    ensures multiset(s) == multiset{s[0]} + multiset(s[1..])
  {
    assert s == [s[0]] + s[1..];
  }

  lemma AddOne(o: nat, z: nat)
    ensures multiset(Repeat(1.0, o + 1) + Repeat(0.0, z)) == multiset{1.0} + multiset(Repeat(1.0, o) + Repeat(0.0, z))
  {
    RepeatCons(1.0, o);
  }

  lemma AddZero(o: nat, z: nat)
    ensures multiset(Repeat(1.0, o) + Repeat(0.0, z + 1)) == multiset{0.0} + multiset(Repeat(1.0, o) + Repeat(0.0, z))
  {
    RepeatCons(0.0, z);
  }

  /** Putting one more gain in front adds exactly that gain to the ideal ordering's multiset. */
  lemma IdealCons(gains: seq<real>)
    requires Binary(gains) && gains != []
    ensures multiset(IdealGains(gains)) == multiset{gains[0]} + multiset(IdealGains(gains[1..]))
  {
    var rest := gains[1..];
    var o, z := Ones(rest), |rest| - Ones(rest);
    BinaryTail(gains);
    assert IdealGains(rest) == Repeat(1.0, o) + Repeat(0.0, z);
    if gains[0] == 1.0 {
      assert IdealGains(gains) == Repeat(1.0, o + 1) + Repeat(0.0, z);
      AddOne(o, z);
    } else {
      assert IdealGains(gains) == Repeat(1.0, o) + Repeat(0.0, z + 1);
      AddZero(o, z);
    }
  }

  lemma {:induction false} IdealPermutation(gains: seq<real>)
    requires Binary(gains)
    ensures multiset(IdealGains(gains)) == multiset(gains)
  {
    if gains != [] {
      BinaryTail(gains);
      IdealPermutation(gains[1..]);
      IdealCons(gains);
      MultisetCons(gains);
    }
  }

  /**
    The ideal ordering is the descending sort of binary gains: it is
    non-increasing and a permutation of the gains.
  */
  lemma IdealGainsSorted(gains: seq<real>)
    requires Binary(gains)
    ensures NonIncreasing(IdealGains(gains)) && Binary(IdealGains(gains))
    ensures multiset(IdealGains(gains)) == multiset(gains)
  {
    IdealPermutation(gains);
  }

  /** Binary gains already in non-increasing order are their own ideal ordering. */
  lemma {:induction false} SortedIsIdeal(gains: seq<real>)
    requires Binary(gains) && NonIncreasing(gains)
    ensures IdealGains(gains) == gains
  {
    if gains != [] {
      var rest := gains[1..];
      assert Binary(rest) && NonIncreasing(rest) by {
        assert forall i :: 0 <= i < |rest| ==> rest[i] == gains[i + 1];
      }
      SortedIsIdeal(rest);
      if gains[0] == 1.0 {
        assert IdealGains(gains) == [1.0] + IdealGains(rest);
      } else {
        assert forall i :: 0 <= i < |gains| ==> gains[i] == 0.0;
        AllZeroOnes(gains);
        assert gains == Repeat(0.0, |gains|);
      }
    }
  }

  lemma {:induction false} AllZeroOnes(gains: seq<real>)
    requires forall i :: 0 <= i < |gains| ==> gains[i] == 0.0
    ensures Ones(gains) == 0
  {
    if gains != [] {
      assert forall i :: 0 <= i < |gains[1..]| ==> gains[1..][i] == gains[i + 1];
      AllZeroOnes(gains[1..]);
    }
  }

  /** The sum of the `c` discounts from position `off` on. */
  function TopDiscounts(disc: Discount, off: nat, c: nat): (sum: real)
    decreases c
  {
    if c == 0 then 0.0 else disc(off) + TopDiscounts(disc, off + 1, c - 1)
  }

  /** Moving a window of discounts further down the ranking never increases its sum. */
  lemma {:induction false} TopDiscountsShift(disc: Discount, off: nat, c: nat)
    requires ValidDiscount(disc)
    ensures TopDiscounts(disc, off + 1, c) <= TopDiscounts(disc, off, c)
    decreases c
  {
    if c > 0 {
      TopDiscountsShift(disc, off + 1, c - 1);
      assert disc(off + 1) <= disc(off);
    }
  }

  lemma {:induction false} TopDiscountsPositive(disc: Discount, off: nat, c: nat)
    requires ValidDiscount(disc)
    ensures TopDiscounts(disc, off, c) >= 0.0
    ensures c > 0 ==> TopDiscounts(disc, off, c) > 0.0
    decreases c
  {
    if c > 0 {
      TopDiscountsPositive(disc, off + 1, c - 1);
      assert disc(off) > 0.0;
    }
  }

  /** The ones-first ordering collects exactly the largest discounts. */
  lemma {:induction false} IdealDcgFrom(disc: Discount, off: nat, c: nat, z: nat)
    ensures DcgFrom(Repeat(1.0, c) + Repeat(0.0, z), disc, off) == TopDiscounts(disc, off, c)
    decreases c + z
  {
    var s := Repeat(1.0, c) + Repeat(0.0, z);
    if c > 0 {
      assert s[1..] == Repeat(1.0, c - 1) + Repeat(0.0, z);
      IdealDcgFrom(disc, off + 1, c - 1, z);
    } else if z > 0 {
      assert s[1..] == Repeat(0.0, 0) + Repeat(0.0, z - 1);
      IdealDcgFrom(disc, off + 1, 0, z - 1);
    } else {
      assert s == [];
    }
  }

  /** Rearrangement: binary gains earn at most the sum of the best discounts, one per relevant position. */
  lemma {:induction false} DcgFromBound(gains: seq<real>, disc: Discount, off: nat)
    requires Binary(gains) && ValidDiscount(disc)
    ensures 0.0 <= DcgFrom(gains, disc, off) <= TopDiscounts(disc, off, Ones(gains))
    decreases |gains|
  {
    if gains != [] {
      var rest := gains[1..];
      BinaryTail(gains);
      DcgFromBound(rest, disc, off + 1);
      assert disc(off) > 0.0;
      if gains[0] != 1.0 {
        TopDiscountsShift(disc, off, Ones(rest));
      }
    }
  }

  /** `DcgFromBound` from the first position, for any gains and discount. */
  lemma DcgBound(gains: seq<real>, disc: Discount)
    ensures Binary(gains) && ValidDiscount(disc) ==> 0.0 <= DcgFrom(gains, disc, 0) <= TopDiscounts(disc, 0, Ones(gains))
  {
    if Binary(gains) && ValidDiscount(disc) {
      DcgFromBound(gains, disc, 0);
    }
  }

  /** The ideal DCG is the sum of the top discounts, one per relevant position. */
  lemma IdealDcg(gains: seq<real>, disc: Discount)
    ensures Dcg(IdealGains(gains), disc) == TopDiscounts(disc, 0, Ones(gains))
  {
    IdealDcgFrom(disc, 0, Ones(gains), |gains| - Ones(gains));
  }

  /**
    `ndcg_at_k`: 0 for a non-positive cutoff; otherwise the DCG of the gains
    of the first k predictions over the DCG of the same gains sorted in
    descending order, and 0 when that ideal DCG is 0.
  */
  function NdcgAtK(pred: seq<string>, gold: set<string>, k: int, disc: Discount): (r: real)
    ensures k <= 0 ==> r == 0.0
  {
    if k <= 0 then 0.0
    else
      var gains := Gains(Take(pred, k), gold);
      var idcg := Dcg(IdealGains(gains), disc);
      if idcg == 0.0 then 0.0 else Dcg(gains, disc) / idcg
  }

  /** With a valid discount, nDCG lies in [0, 1]: sorting the gains in descending order maximises the DCG. */
  lemma NdcgBounds(pred: seq<string>, gold: set<string>, k: int, disc: Discount)
    requires ValidDiscount(disc)
    ensures 0.0 <= NdcgAtK(pred, gold, k, disc) <= 1.0
  {
    if k > 0 {
      var gains := Gains(Take(pred, k), gold);
      var idcg := Dcg(IdealGains(gains), disc);
      IdealDcg(gains, disc);
      DcgFromBound(gains, disc, 0);
      TopDiscountsPositive(disc, 0, Ones(gains));
      if idcg != 0.0 {
        DivBounds(Dcg(gains, disc), idcg);
      }
    }
  }

  /** When none of the first k predictions is relevant there is no ideal gain, and nDCG is 0 for any discount. */
  lemma NdcgNoHit(pred: seq<string>, gold: set<string>, k: int, disc: Discount)
    requires forall i :: 0 <= i < |pred| && i < k ==> pred[i] !in gold
    ensures NdcgAtK(pred, gold, k, disc) == 0.0
  {
    if k > 0 {
      var predK := Take(pred, k);
      var gains := Gains(predK, gold);
      AllZeroOnes(gains);
      IdealDcg(gains, disc);
    }
  }

  /**
    With a valid discount, nDCG is 1 when some of the first k predictions is
    relevant and the relevant ones come first, however many gold ids were
    missed: the ideal is derived from the predicted gains alone, not from the
    size of the gold set.
  */
  lemma NdcgPerfect(pred: seq<string>, gold: set<string>, k: int, disc: Discount)
    requires ValidDiscount(disc) && k > 0
    requires var gains := Gains(Take(pred, k), gold); NonIncreasing(gains) && Ones(gains) > 0
    ensures NdcgAtK(pred, gold, k, disc) == 1.0
  {
    var gains := Gains(Take(pred, k), gold);
    SortedIsIdeal(gains);
    IdealDcg(gains, disc);
    TopDiscountsPositive(disc, 0, Ones(gains));
    var idcg := Dcg(IdealGains(gains), disc);
    assert idcg == Dcg(gains, disc) && idcg > 0.0;
    DivBounds(idcg, idcg);
  }

  // ---------------------------------------------------------------------------
  // Recall
  // ---------------------------------------------------------------------------

  /** `set(s)`. */
  function Elements(s: seq<string>): (e: set<string>)
    ensures forall x :: x in e <==> x in s
  {
    set x | x in s
  }

  lemma {:induction false} SubsetCard(a: set<string>, b: set<string>)
    requires a <= b
    ensures |a| <= |b|
    decreases |b|
  {
    if a != {} {
      var x :| x in a;
      SubsetCard(a - {x}, b - {x});
    }
  }

  lemma StrictSubsetCard(a: set<string>, b: set<string>)
    requires a <= b && a != b
    ensures |a| < |b|
  {
    var x :| x in b && x !in a;
    SubsetCard(a, b - {x});
  }

  /** A subset is no larger, and only an equal set has the same size. */
  lemma SubsetCardEq(a: set<string>, b: set<string>)
    requires a <= b
    ensures |a| <= |b|
    ensures |a| == |b| <==> a == b
  {
    if a != b {
      StrictSubsetCard(a, b);
    }
  }

  /**
    `recall_at_k`: 0 when the gold set is empty or the cutoff is
    non-positive; otherwise the share of gold ids among the distinct ids of
    the first k predictions.
  */
  function RecallAtK(pred: seq<string>, gold: set<string>, k: int): (r: real)
    ensures gold == {} || k <= 0 ==> r == 0.0
    ensures gold != {} && k > 0 ==> r == (|Elements(Take(pred, k)) * gold| as real) / (|gold| as real)
    ensures 0.0 <= r <= 1.0
    ensures gold != {} && k > 0 ==> (r == 1.0 <==> gold <= Elements(Take(pred, k)))
  {
    if gold == {} || k <= 0 then 0.0
    else
      var hit := Elements(Take(pred, k)) * gold;
      SubsetCardEq(hit, gold);
      DivBounds(|hit| as real, |gold| as real);
      (|hit| as real) / (|gold| as real)
  }

  /** Recall sees only which ids appear in the cutoff, so a repeated id is counted once. */
  lemma RecallDistinct(p1: seq<string>, p2: seq<string>, gold: set<string>, k: int)
    requires k > 0 ==> Elements(Take(p1, k)) == Elements(Take(p2, k))
    ensures RecallAtK(p1, gold, k) == RecallAtK(p2, gold, k)
  {
  }

  /** Predicting the same relevant id twice in the top two retrieves one of two gold ids. */
  lemma RecallDuplicateExample()
    ensures RecallAtK(["x", "x"], {"x", "y"}, 2) == 0.5
  {
    assert Take(["x", "x"], 2) == ["x", "x"];
    assert Elements(["x", "x"]) == {"x"};
    assert Elements(["x", "x"]) * {"x", "y"} == {"x"};
  }

  // ---------------------------------------------------------------------------
  // Reciprocal rank
  // ---------------------------------------------------------------------------

  /** The first relevant prediction is at zero-based position `i`. */
  predicate FirstHitAt(pred: seq<string>, gold: set<string>, i: nat) {
    i < |pred| && pred[i] in gold && forall j :: 0 <= j < i ==> pred[j] !in gold
  }

  /** The scan of `mrr` from one-based rank `rank` on. */
  function MrrFrom(pred: seq<string>, gold: set<string>, rank: nat): (r: real)
    requires rank >= 1
    ensures (forall i :: 0 <= i < |pred| ==> pred[i] !in gold) <==> r == 0.0
    ensures 0.0 <= r <= 1.0 / (rank as real)
    decreases |pred|
  {
    if pred == [] then 0.0
    else if pred[0] in gold then ReciprocalStep(rank); 1.0 / (rank as real)
    else
      var r := MrrFrom(pred[1..], gold, rank + 1);
      assert forall i :: 1 <= i < |pred| ==> pred[i] == pred[1..][i - 1];
      ReciprocalStep(rank);
      r
  }

  /** The scan stops at the first relevant prediction, `i` places after rank `rank`. */
  lemma {:induction false} MrrFromFirstHit(pred: seq<string>, gold: set<string>, rank: nat, i: nat)
    requires rank >= 1 && FirstHitAt(pred, gold, i)
    ensures MrrFrom(pred, gold, rank) == 1.0 / ((rank + i) as real)
    decreases i
  {
    if i > 0 {
      assert pred[0] !in gold;
      assert FirstHitAt(pred[1..], gold, i - 1) by {
        assert forall j :: 0 <= j < i - 1 ==> pred[1..][j] == pred[j + 1];
      }
      MrrFromFirstHit(pred[1..], gold, rank + 1, i - 1);
    }
  }

  /**
    `mrr`: one over the one-based rank of the first relevant prediction, and
    0 when no prediction is relevant; always in [0, 1].
  */
  function Mrr(pred: seq<string>, gold: set<string>): (r: real)
    ensures (forall i :: 0 <= i < |pred| ==> pred[i] !in gold) <==> r == 0.0
    ensures 0.0 <= r <= 1.0
  {
    MrrFrom(pred, gold, 1)
  }

  /** `mrr` is one over the one-based rank of the first relevant prediction. */
  lemma MrrFirstHit(pred: seq<string>, gold: set<string>, i: nat)
    requires FirstHitAt(pred, gold, i)
    ensures Mrr(pred, gold) == 1.0 / ((i + 1) as real)
  {
    MrrFromFirstHit(pred, gold, 1, i);
  }

  // ---------------------------------------------------------------------------
  // The two example queries of evaluate.py
  // ---------------------------------------------------------------------------

  const RefundPred: seq<string> := ["sess1:file1:3", "sess1:file2:10", "sess1:file1:5", "sess1:file3:2"]
  const RefundGold: set<string> := {"sess1:file1:5", "sess1:file2:10"}
  const LaunchPred: seq<string> := ["sess9:file7:1", "sess9:file7:2", "sess9:file7:3"]
  const LaunchGold: set<string> := {"sess9:file7:2"}

  /** "refund escalation": both gold ids are among the first five predictions. */
  lemma RefundRecall()
    ensures RecallAtK(RefundPred, RefundGold, 5) == 1.0
  {
    assert Take(RefundPred, 5) == RefundPred;
    assert RefundPred[1] == "sess1:file2:10" && RefundPred[2] == "sess1:file1:5";
    assert RefundGold <= Elements(RefundPred);
  }

  /** "refund escalation": the first gold id is at rank 2. */
  lemma RefundMrr()
    ensures Mrr(RefundPred, RefundGold) == 0.5
  {
    assert RefundPred[0] !in RefundGold && RefundPred[1] in RefundGold;
    MrrFirstHit(RefundPred, RefundGold, 1);
  }

  /** "refund escalation": the gains are 0, 1, 1, 0 and the ideal ones 1, 1, 0, 0. */
  lemma RefundNdcg(disc: Discount)
    ensures NdcgAtK(RefundPred, RefundGold, 5, disc) ==
              if disc(0) + disc(1) == 0.0 then 0.0 else (disc(1) + disc(2)) / (disc(0) + disc(1))
  {
    assert Take(RefundPred, 5) == RefundPred;
    var gains := Gains(RefundPred, RefundGold);
    assert gains == [0.0, 1.0, 1.0, 0.0];
    assert Ones([0.0]) == 0;
    assert Ones([1.0, 0.0]) == 1;
    assert Ones([1.0, 1.0, 0.0]) == 2;
    assert Ones(gains) == 2;
    IdealDcg(gains, disc);
    assert TopDiscounts(disc, 0, 2) == disc(0) + disc(1);
    assert DcgFrom([0.0], disc, 3) == 0.0;
    assert DcgFrom([1.0, 0.0], disc, 2) == disc(2);
    assert DcgFrom([1.0, 1.0, 0.0], disc, 1) == disc(1) + disc(2);
    assert Dcg(gains, disc) == disc(1) + disc(2);
  }

  /** "refund escalation": recall@5 is 1, MRR is 1/2, and nDCG@5 is (d1 + d2) / (d0 + d1). */
  lemma RefundExample(disc: Discount)
    ensures RecallAtK(RefundPred, RefundGold, 5) == 1.0
    ensures Mrr(RefundPred, RefundGold) == 0.5
    ensures NdcgAtK(RefundPred, RefundGold, 5, disc) ==
              if disc(0) + disc(1) == 0.0 then 0.0 else (disc(1) + disc(2)) / (disc(0) + disc(1))
  {
    RefundRecall();
    RefundMrr();
    RefundNdcg(disc);
  }

  /** "launch delay decision": the single gold id is among the first five predictions. */
  lemma LaunchRecall()
    ensures RecallAtK(LaunchPred, LaunchGold, 5) == 1.0
  {
    assert Take(LaunchPred, 5) == LaunchPred;
    assert LaunchPred[1] == "sess9:file7:2";
    assert LaunchGold <= Elements(LaunchPred);
  }

  /** "launch delay decision": the gold id is at rank 2. */
  lemma LaunchMrr()
    ensures Mrr(LaunchPred, LaunchGold) == 0.5
  {
    assert LaunchPred[0] !in LaunchGold && LaunchPred[1] in LaunchGold;
    MrrFirstHit(LaunchPred, LaunchGold, 1);
  }

  /** "launch delay decision": the gains are 0, 1, 0 and the ideal ones 1, 0, 0. */
  lemma LaunchNdcg(disc: Discount)
    ensures NdcgAtK(LaunchPred, LaunchGold, 5, disc) == if disc(0) == 0.0 then 0.0 else disc(1) / disc(0)
  {
    assert Take(LaunchPred, 5) == LaunchPred;
    var gains := Gains(LaunchPred, LaunchGold);
    assert gains == [0.0, 1.0, 0.0];
    assert Ones([0.0]) == 0;
    assert Ones([1.0, 0.0]) == 1;
    assert Ones(gains) == 1;
    IdealDcg(gains, disc);
    assert TopDiscounts(disc, 0, 1) == disc(0);
    assert DcgFrom([0.0], disc, 2) == 0.0;
    assert DcgFrom([1.0, 0.0], disc, 1) == disc(1);
    assert Dcg(gains, disc) == disc(1);
  }

  /** "launch delay decision": recall@5 is 1, MRR is 1/2, and nDCG@5 is d1 / d0. */
  lemma LaunchExample(disc: Discount)
    ensures RecallAtK(LaunchPred, LaunchGold, 5) == 1.0
    ensures Mrr(LaunchPred, LaunchGold) == 0.5
    ensures NdcgAtK(LaunchPred, LaunchGold, 5, disc) == if disc(0) == 0.0 then 0.0 else disc(1) / disc(0)
  {
    LaunchRecall();
    LaunchMrr();
    LaunchNdcg(disc);
  }
}
