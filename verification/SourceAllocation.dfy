/**
  Weighted allocation of source files to transfers: a greedy scheduler that hands each file, largest
  first, to the transfer whose load relative to its weight is least.
*/
module SourceAllocation {
  import opened Wrappers
  import opened Sorting

  const MAX_UINT64: nat := 0xFFFF_FFFF_FFFF_FFFF
  const TWO_TO_64: nat := 0x1_0000_0000_0000_0000
  const MAXIMUM_TRANSFERS: nat := 35

  type uint64 = x: nat | x <= MAX_UINT64

  datatype SourceFile = SourceFile(path: string, size: uint64)
  /** A transfer number, or zero where none was assigned. */
  type TransferNumber = n: nat | n <= MAXIMUM_TRANSFERS

  datatype TransferWeight = TransferWeight(transfer: TransferNumber, weight: uint64)
  datatype TransferLoad = TransferLoad(weight: TransferWeight, bytes: uint64)

  datatype TransferAllocation = TransferAllocation(
    transfers: seq<nat>,
    transferIndex: map<nat, nat>,
    fileOwners: seq<nat>,
    emptyDirOwners: seq<nat>,
    totalBytes: seq<uint64>)

  datatype AllocationError =
    | NoTransferItems
    | NoWeights
    | TooManyWeights
    | InvalidWeight
    | RepeatedTransfer
    | ByteTotalOverflows(transfer: nat)
    | AllocationIncomplete
    | TransfersInvalid
    | OwnerOrTotalInvalid
    | TotalsInconsistent

  // ---------------------------------------------------------------- transfer weights

  predicate LowerTransfer(a: TransferWeight, b: TransferWeight) {
    a.transfer < b.transfer
  }

  /** What NewTransferWeights promises of the weights it returns. */
  ghost predicate ValidWeights(values: seq<TransferWeight>) {
    && 1 <= |values| <= MAXIMUM_TRANSFERS
    && (forall i :: 0 <= i < |values| ==> values[i].transfer > 0 && values[i].weight > 0)
    && (forall i, j :: 0 <= i < j < |values| ==> values[i].transfer < values[j].transfer)
  }

  /** The first `n` weights stand in rising order of their transfers. */
  ghost predicate Rising(values: seq<TransferWeight>, n: nat)
    requires n <= |values|
  {
    forall i, j :: 0 <= i < j < n ==> values[i].transfer < values[j].transfer
  }

  lemma NextIsHigher(values: seq<TransferWeight>, n: nat)
    requires n < |values| && Rising(values, n)
    requires n > 0 ==> values[n - 1].transfer < values[n].transfer
    ensures Rising(values, n + 1)
  {
  }

  method NewTransferWeights(values: seq<TransferWeight>) returns (r: Result<seq<TransferWeight>, AllocationError>)
    ensures r.Ok? ==> ValidWeights(r.value) && multiset(r.value) == multiset(values)
    // an error is returned only when no arrangement of the values would be valid
    ensures r.Err? ==> forall w :: multiset(w) == multiset(values) ==> !ValidWeights(w)
  {
    if |values| == 0 || |values| > MAXIMUM_TRANSFERS {
      RejectionIsJustified(values, values);
      return Err(if |values| == 0 then NoWeights else TooManyWeights);
    }
    var copied := Sort(values, LowerTransfer);
    SortKeepsElements(values, LowerTransfer);
    SortSorts(values, LowerTransfer);
    var index := 0;
    while index < |copied|
      invariant 0 <= index <= |copied|
      invariant forall i :: 0 <= i < index ==> copied[i].transfer > 0 && copied[i].weight > 0
      invariant Rising(copied, index)
    {
      var weight := copied[index];
      if weight.transfer == 0 || weight.weight == 0 {
        RejectionIsJustified(values, copied);
        return Err(InvalidWeight);
      }
      if index > 0 && copied[index - 1].transfer == weight.transfer {
        RejectionIsJustified(values, copied);
        return Err(RepeatedTransfer);
      }
      assert index > 0 ==> !LowerTransfer(copied[index], copied[index - 1]);
      NextIsHigher(copied, index);
      index := index + 1;
    }
    return Ok(copied);
  }

  /** A defect of one arrangement of the weights is a defect of every arrangement. */
  lemma RejectionIsJustified(values: seq<TransferWeight>, s: seq<TransferWeight>)
    requires multiset(s) == multiset(values)
    requires
      || |s| == 0 || |s| > MAXIMUM_TRANSFERS
      || (exists i :: 0 <= i < |s| && (s[i].transfer == 0 || s[i].weight == 0))
      || (exists i, j :: 0 <= i < j < |s| && s[i].transfer == s[j].transfer)
    ensures forall w :: multiset(w) == multiset(values) ==> !ValidWeights(w)
  {
    forall w | multiset(w) == multiset(values) ensures !ValidWeights(w) {
      assert |multiset(w)| == |multiset(s)|;
      if i :| 0 <= i < |s| && (s[i].transfer == 0 || s[i].weight == 0) {
        assert s[i] in multiset(w);
        assert s[i] in w;
      } else if i, j :| 0 <= i < j < |s| && s[i].transfer == s[j].transfer {
        RepeatedKeyStaysRepeated(s, w, i, j);
      }
    }
  }

  lemma RepeatedKeyStaysRepeated(s: seq<TransferWeight>, w: seq<TransferWeight>, i: nat, j: nat)
    requires multiset(s) == multiset(w)
    requires i < j < |s| && s[i].transfer == s[j].transfer
    ensures exists k, l :: 0 <= k < l < |w| && w[k].transfer == w[l].transfer
  {
    if s[i] == s[j] {
      var x := s[i];
      assert s == s[..i] + [x] + s[i + 1..j] + [x] + s[j + 1..];
      assert multiset(s)[x] >= 2;
      if forall k, l :: 0 <= k < l < |w| ==> w[k] != w[l] {
        AtMostOnce(w, x);
        assert false;
      }
    } else {
      assert s[i] in multiset(w) && s[j] in multiset(w);
      assert s[i] in w && s[j] in w;
      var k :| 0 <= k < |w| && w[k] == s[i];
      var l :| 0 <= l < |w| && w[l] == s[j];
      assert k != l;
      if l < k {
        assert w[l].transfer == w[k].transfer;
      }
    }
  }

  lemma {:induction false} AtMostOnce<T>(s: seq<T>, x: T)
    requires forall k, l :: 0 <= k < l < |s| ==> s[k] != s[l]
    ensures multiset(s)[x] <= 1
  {
    if s != [] {
      AtMostOnce(s[1..], x);
      assert s == [s[0]] + s[1..];
      if x == s[0] {
        assert x !in s[1..];
        assert x !in multiset(s[1..]);
      }
    }
  }

  // ---------------------------------------------------------------- comparing loads

  /** The two halves of a 64 by 64 bit product. */
  function Mul64(x: uint64, y: uint64): (r: (uint64, uint64))
    ensures r.0 * TWO_TO_64 + r.1 == x * y
  {
    var product := x * y;
    ProductFitsTwoWords(x, y);
    (product / TWO_TO_64, product % TWO_TO_64)
  }

  lemma {:induction false} ProductFitsTwoWords(x: uint64, y: uint64)
    ensures 0 <= x * y / TWO_TO_64 <= MAX_UINT64
  {
    MulMonotone(x, MAX_UINT64, y);
    MulMonotone(y, MAX_UINT64, MAX_UINT64);
    QuotientBelow(x * y);
  }

  lemma QuotientBelow(product: nat)
    requires product <= MAX_UINT64 * MAX_UINT64
    ensures product / TWO_TO_64 <= MAX_UINT64
  {
  }

  /** The sign of left.bytes / left.weight compared with right.bytes / right.weight, without division. */
  function CompareLoad(left: TransferLoad, right: TransferLoad): (r: int)
    ensures r < 0 <==> left.bytes * right.weight.weight < right.bytes * left.weight.weight
    ensures r == 0 <==> left.bytes * right.weight.weight == right.bytes * left.weight.weight
  {
    var (leftHigh, leftLow) := Mul64(left.bytes, right.weight.weight);
    var (rightHigh, rightLow) := Mul64(right.bytes, left.weight.weight);
    if leftHigh < rightHigh || (leftHigh == rightHigh && leftLow < rightLow) then -1
    else if leftHigh == rightHigh && leftLow == rightLow then 0
    else 1
  }

  /** The load per weight of transfer `c` is at most, or is below, that of transfer `j`. */
  ghost predicate RatioAtMost(load: seq<nat>, weights: seq<nat>, c: nat, j: nat)
    requires |load| == |weights| && c < |load| && j < |load|
  {
    load[c] * weights[j] <= load[j] * weights[c]
  }

  ghost predicate RatioBelow(load: seq<nat>, weights: seq<nat>, c: nat, j: nat)
    requires |load| == |weights| && c < |load| && j < |load|
  {
    load[c] * weights[j] < load[j] * weights[c]
  }

  /**
    Transfer `c` is the first among those with the least load per weight.  Loads are given by
    `load`, so that the predicate also speaks of loads larger than 64 bits.
  */
  ghost predicate LeastLoaded(load: seq<nat>, weights: seq<nat>, c: nat) {
    && |load| == |weights| && c < |load|
    && (forall j :: 0 <= j < c ==> RatioBelow(load, weights, c, j))
    && (forall j :: c <= j < |load| ==> RatioAtMost(load, weights, c, j))
  }

  lemma LeastLoadedIsUnique(load: seq<nat>, weights: seq<nat>, c: nat, d: nat)
    requires LeastLoaded(load, weights, c) && LeastLoaded(load, weights, d)
    ensures c == d
  {
    var x, y := load[c] * weights[d], load[d] * weights[c];
    var belowD, belowC := RatioBelow(load, weights, d, c), RatioBelow(load, weights, c, d);
    var atMostC, atMostD := RatioAtMost(load, weights, c, d), RatioAtMost(load, weights, d, c);
    assert c < d ==> belowD && atMostC;
    assert d < c ==> belowC && atMostD;
  }

  /** The order of bytes per weight is transitive, strictly if either part is strict. */
  lemma RatioOrderIsTransitive(a: nat, u: nat, b: nat, v: nat, c: nat, w: nat)
    requires u > 0 && v > 0 && w > 0 && a * v <= b * u && b * w <= c * v
    ensures a * w <= c * u
    ensures a * v < b * u || b * w < c * v ==> a * w < c * u
  {
    Commute(a, w, v);
    Commute(b, u, w);
    Commute(c, v, u);
    MulMonotone(a * v, b * u, w);
    MulMonotone(b * w, c * v, u);
    assert (a * w) * v <= (c * u) * v;
    Cancel(a * w, c * u, v);
    if a * v < b * u {
      MulStrict(a * v, b * u, w);
      CancelStrict(a * w, c * u, v);
    } else if b * w < c * v {
      MulStrict(b * w, c * v, u);
      CancelStrict(a * w, c * u, v);
    }
  }

  lemma Commute(x: nat, y: nat, z: nat)
    ensures (x * y) * z == (x * z) * y
  {
  }

  lemma MulMonotone(x: nat, y: nat, z: nat)
    requires x <= y
    ensures x * z <= y * z
  {
  }

  lemma MulStrict(x: nat, y: nat, z: nat)
    requires x < y && z > 0
    ensures x * z < y * z
  {
  }

  lemma Cancel(x: nat, y: nat, z: nat)
    requires z > 0 && x * z <= y * z
    ensures x <= y
  {
  }

  lemma CancelStrict(x: nat, y: nat, z: nat)
    requires x * z < y * z
    ensures x < y
  {
    if x >= y {
      MulMonotone(y, x, z);
      assert false;
    }
  }

  ghost function Weights(loads: seq<TransferLoad>): (r: seq<nat>)
    ensures |r| == |loads|
  {
    seq(|loads|, i requires 0 <= i < |loads| => loads[i].weight.weight)
  }

  ghost function Bytes(loads: seq<TransferLoad>): (r: seq<nat>)
    ensures |r| == |loads|
  {
    seq(|loads|, i requires 0 <= i < |loads| => loads[i].bytes)
  }

  method MinimumLoad(loads: array<TransferLoad>) returns (minimum: nat)
    requires loads.Length > 0
    requires forall i :: 0 <= i < loads.Length ==> loads[i].weight.weight > 0
    ensures LeastLoaded(Bytes(loads[..]), Weights(loads[..]), minimum)
  {
    minimum := 0;
    var index := 1;
    while index < loads.Length
      invariant minimum < index <= loads.Length
      invariant forall j :: 0 <= j < minimum ==>
                              loads[minimum].bytes * loads[j].weight.weight < loads[j].bytes * loads[minimum].weight.weight
      invariant forall j :: minimum <= j < index ==>
                              loads[minimum].bytes * loads[j].weight.weight <= loads[j].bytes * loads[minimum].weight.weight
    {
      if CompareLoad(loads[index], loads[minimum]) < 0 {
        forall j | 0 <= j < index
          ensures loads[index].bytes * loads[j].weight.weight < loads[j].bytes * loads[index].weight.weight
        {
          RatioOrderIsTransitive(loads[index].bytes, loads[index].weight.weight,
                                 loads[minimum].bytes, loads[minimum].weight.weight,
                                 loads[j].bytes, loads[j].weight.weight);
        }
        minimum := index;
      }
      index := index + 1;
    }
  }

  // ---------------------------------------------------------------- the greedy choice, declaratively

  /** The load of transfer `i` after the first `n` files went to the transfers in `picks`. */
  ghost function Load(sizes: seq<nat>, picks: seq<nat>, i: nat, n: nat): nat
    requires n <= |sizes| && n <= |picks|
  {
    if n == 0 then 0 else Load(sizes, picks, i, n - 1) + if picks[n - 1] == i then sizes[n - 1] else 0
  }

  ghost function LoadVector(sizes: seq<nat>, picks: seq<nat>, n: nat, m: nat): (r: seq<nat>)
    requires n <= |sizes| && n <= |picks|
    ensures |r| == m
  {
    seq(m, i requires 0 <= i < m => Load(sizes, picks, i, n))
  }

  /** File `k` in processing order went to the transfer that was least loaded at that moment. */
  ghost predicate PickIsGreedy(sizes: seq<nat>, weights: seq<nat>, picks: seq<nat>, k: nat)
    requires k < |picks| <= |sizes|
  {
    LeastLoaded(LoadVector(sizes, picks, k, |weights|), weights, picks[k])
  }

  /** Every file in processing order went to the transfer that was least loaded at that moment. */
  ghost predicate GreedyPicks(sizes: seq<nat>, weights: seq<nat>, picks: seq<nat>) {
    && |picks| <= |sizes|
    && forall k :: 0 <= k < |picks| ==> PickIsGreedy(sizes, weights, picks, k)
  }

  ghost function Sum(s: seq<nat>, n: nat): nat
    requires n <= |s|
  {
    if n == 0 then 0 else Sum(s, n - 1) + s[n - 1]
  }

  /** The size of the last file transfer `i` received, 0 if it received none. */
  ghost function Last(sizes: seq<nat>, picks: seq<nat>, i: nat, n: nat): nat
    requires n <= |sizes| && n <= |picks|
  {
    if n == 0 then 0 else if picks[n - 1] == i then sizes[n - 1] else Last(sizes, picks, i, n - 1)
  }

  lemma PicksAreInRange(sizes: seq<nat>, weights: seq<nat>, picks: seq<nat>)
    requires GreedyPicks(sizes, weights, picks)
    ensures forall k :: 0 <= k < |picks| ==> picks[k] < |weights|
  {
    forall k | 0 <= k < |picks| ensures picks[k] < |weights| {
      assert PickIsGreedy(sizes, weights, picks, k);
    }
  }

  lemma {:induction false} LoadOfPrefix(sizes: seq<nat>, a: seq<nat>, b: seq<nat>, i: nat, n: nat)
    requires n <= |sizes| && n <= |a| && n <= |b| && a[..n] == b[..n]
    ensures Load(sizes, a, i, n) == Load(sizes, b, i, n)
  {
    if n > 0 {
      assert a[..n - 1] == a[..n][..n - 1] == b[..n][..n - 1] == b[..n - 1];
      assert a[n - 1] == a[..n][n - 1] == b[n - 1];
      LoadOfPrefix(sizes, a, b, i, n - 1);
    }
  }

  /** The greedy choice leaves nothing open. */
  lemma {:induction false} GreedyPicksAreUnique(sizes: seq<nat>, weights: seq<nat>, a: seq<nat>, b: seq<nat>, n: nat)
    requires GreedyPicks(sizes, weights, a) && GreedyPicks(sizes, weights, b)
    requires n <= |a| && n <= |b|
    ensures a[..n] == b[..n]
  {
    if n > 0 {
      GreedyPicksAreUnique(sizes, weights, a, b, n - 1);
      NextPickIsUnique(sizes, weights, a, b, n - 1);
      assert a[..n] == a[..n - 1] + [a[n - 1]] && b[..n] == b[..n - 1] + [b[n - 1]];
    }
  }

  lemma NextPickIsUnique(sizes: seq<nat>, weights: seq<nat>, a: seq<nat>, b: seq<nat>, n: nat)
    requires GreedyPicks(sizes, weights, a) && GreedyPicks(sizes, weights, b)
    requires n < |a| && n < |b| && a[..n] == b[..n]
    ensures a[n] == b[n]
  {
    SameLoads(sizes, a, b, n, |weights|);
    assert PickIsGreedy(sizes, weights, a, n) && PickIsGreedy(sizes, weights, b, n);
    LeastLoadedIsUnique(LoadVector(sizes, a, n, |weights|), weights, a[n], b[n]);
  }

  lemma SameLoads(sizes: seq<nat>, a: seq<nat>, b: seq<nat>, n: nat, m: nat)
    requires n <= |sizes| && n <= |a| && n <= |b| && a[..n] == b[..n]
    ensures LoadVector(sizes, a, n, m) == LoadVector(sizes, b, n, m)
  {
    forall i | 0 <= i < m ensures Load(sizes, a, i, n) == Load(sizes, b, i, n) {
      LoadOfPrefix(sizes, a, b, i, n);
    }
  }

  // ---------------------------------------------------------------- conservation

  /** Whatever the assignment, the loads of the transfers add up to the sizes of the files. */
  lemma {:induction false} LoadsAreConserved(sizes: seq<nat>, picks: seq<nat>, n: nat, m: nat)
    requires n <= |sizes| && n <= |picks|
    requires forall k :: 0 <= k < n ==> picks[k] < m
    ensures Sum(LoadVector(sizes, picks, n, m), m) == Sum(sizes, n)
  {
    if n == 0 {
      SumOfZeros(LoadVector(sizes, picks, 0, m), m);
    } else {
      LoadsAreConserved(sizes, picks, n - 1, m);
      SumOfOneChange(LoadVector(sizes, picks, n - 1, m), LoadVector(sizes, picks, n, m),
                     picks[n - 1], sizes[n - 1], m);
    }
  }

  lemma {:induction false} SumOfZeros(s: seq<nat>, n: nat)
    requires n <= |s| && forall i :: 0 <= i < n ==> s[i] == 0
    ensures Sum(s, n) == 0
  {
    if n > 0 {
      SumOfZeros(s, n - 1);
    }
  }

  lemma {:induction false} SumOfOneChange(a: seq<nat>, b: seq<nat>, c: nat, d: nat, n: nat)
    requires n <= |a| == |b|
    requires forall i :: 0 <= i < n ==> b[i] == a[i] + if i == c then d else 0
    ensures Sum(b, n) == Sum(a, n) + if c < n then d else 0
  {
    if n > 0 {
      SumOfOneChange(a, b, c, d, n - 1);
    }
  }

  lemma {:induction false} SumIsMonotone(s: seq<nat>, m: nat, n: nat)
    requires m <= n <= |s|
    ensures Sum(s, m) <= Sum(s, n)
  {
    if m < n {
      SumIsMonotone(s, m, n - 1);
    }
  }

  // ---------------------------------------------------------------- the balance bound

  /** The least loaded transfer holds at most its weighted share of the total. */
  lemma {:induction false} LeastLoadIsAtMostItsShare(load: seq<nat>, weights: seq<nat>, c: nat, n: nat)
    requires LeastLoaded(load, weights, c) && n <= |load|
    ensures load[c] * Sum(weights, n) <= weights[c] * Sum(load, n)
  {
    if n > 0 {
      LeastLoadIsAtMostItsShare(load, weights, c, n - 1);
      LeastLoadedAt(load, weights, c, n - 1);
      AddInequalities(load[c], weights[c], Sum(weights, n - 1), Sum(load, n - 1), weights[n - 1], load[n - 1]);
    }
  }

  lemma LeastLoadedAt(load: seq<nat>, weights: seq<nat>, c: nat, j: nat)
    requires LeastLoaded(load, weights, c) && j < |load|
    ensures load[c] * weights[j] <= load[j] * weights[c]
  {
    assert if j < c then RatioBelow(load, weights, c, j) else RatioAtMost(load, weights, c, j);
  }

  lemma AddInequalities(x: nat, y: nat, a: nat, b: nat, c: nat, d: nat)
    requires x * a <= y * b && x * c <= d * y
    ensures x * (a + c) <= y * (b + d)
  {
    assert x * (a + c) == x * a + x * c;
    assert y * (b + d) == y * b + y * d;
  }

  /**
    Balance: without its last file, a transfer holds at most its weighted share of what the other
    files add up to.
  */
  lemma {:induction false} GreedyIsBalanced(sizes: seq<nat>, weights: seq<nat>, picks: seq<nat>, i: nat, n: nat)
    requires GreedyPicks(sizes, weights, picks) && n <= |picks| && i < |weights|
    ensures Last(sizes, picks, i, n) <= Load(sizes, picks, i, n)
    ensures Last(sizes, picks, i, n) <= Sum(sizes, n)
    ensures (Load(sizes, picks, i, n) - Last(sizes, picks, i, n)) * Sum(weights, |weights|)
         <= weights[i] * (Sum(sizes, n) - Last(sizes, picks, i, n))
  {
    if n > 0 {
      GreedyIsBalanced(sizes, weights, picks, i, n - 1);
      if picks[n - 1] == i {
        var load := LoadVector(sizes, picks, n - 1, |weights|);
        assert PickIsGreedy(sizes, weights, picks, n - 1);
        PicksAreInRange(sizes, weights, picks);
        LeastLoadIsAtMostItsShare(load, weights, i, |weights|);
        LoadsAreConserved(sizes, picks, n - 1, |weights|);
      } else {
        var slack := Sum(sizes, n - 1) - Last(sizes, picks, i, n - 1);
        MulMonotone(slack, slack + sizes[n - 1], weights[i]);
        assert weights[i] * (slack + sizes[n - 1]) >= weights[i] * slack;
      }
    }
  }

  /** Files are processed largest first, so the last file of a transfer is its smallest. */
  lemma {:induction false} LastIsSmallest(sizes: seq<nat>, picks: seq<nat>, i: nat, n: nat, k: nat)
    requires n <= |sizes| && n <= |picks| && k < n && picks[k] == i
    requires forall a, b :: 0 <= a < b < |sizes| ==> sizes[a] >= sizes[b]
    ensures Last(sizes, picks, i, n) <= sizes[k]
  {
    if picks[n - 1] != i {
      LastIsSmallest(sizes, picks, i, n - 1, k);
    }
  }

  // ---------------------------------------------------------------- equal weights: against any other assignment

  /** The position of the last file of transfer `i`. */
  lemma {:induction false} LastPosition(sizes: seq<nat>, picks: seq<nat>, i: nat, n: nat) returns (k: nat)
    requires n <= |sizes| && n <= |picks| && Load(sizes, picks, i, n) > 0
    ensures k < n && picks[k] == i && Last(sizes, picks, i, n) == sizes[k]
    ensures Load(sizes, picks, i, n) == Load(sizes, picks, i, k) + sizes[k]
  {
    if picks[n - 1] == i {
      k := n - 1;
    } else {
      k := LastPosition(sizes, picks, i, n - 1);
    }
  }

  lemma {:induction false} LoadedMeansPicked(sizes: seq<nat>, picks: seq<nat>, i: nat, n: nat)
    requires n <= |sizes| && n <= |picks| && Load(sizes, picks, i, n) > 0
    ensures i in picks[..n]
  {
    var k := LastPosition(sizes, picks, i, n);
    assert picks[..n][k] == i;
  }

  lemma {:induction false} DistinctMembersAtMostLength(s: seq<nat>, m: nat)
    requires forall i :: 0 <= i < m ==> i in s
    ensures m <= |s|
  {
    RangeHasSize(m);
    MembersAtMostLength(s);
    SubsetIsNotLarger(Range(m), Members(s));
  }

  ghost function Members(s: seq<nat>): (r: set<nat>)
    ensures forall x :: x in r <==> x in s
  {
    if s == [] then {} else {s[0]} + Members(s[1..])
  }

  ghost function Range(m: nat): (r: set<nat>)
    ensures forall i: nat :: i in r <==> i < m
  {
    if m == 0 then {} else Range(m - 1) + {m - 1}
  }

  lemma {:induction false} RangeHasSize(m: nat)
    ensures |Range(m)| == m
  {
    if m > 0 {
      RangeHasSize(m - 1);
    }
  }

  lemma {:induction false} MembersAtMostLength(s: seq<nat>)
    ensures |Members(s)| <= |s|
  {
    if s != [] {
      MembersAtMostLength(s[1..]);
    }
  }

  lemma {:induction false} SubsetIsNotLarger(a: set<nat>, b: set<nat>)
    requires a <= b
    ensures |a| <= |b|
  {
    if a != {} {
      var x :| x in a;
      SubsetIsNotLarger(a - {x}, b - {x});
    }
  }

  /** More files than transfers: in any assignment two of them share a transfer. */
  lemma {:induction false} Pigeonhole(other: seq<nat>, m: nat) returns (a: nat, b: nat)
    requires |other| > m && forall k :: 0 <= k < |other| ==> other[k] < m
    ensures a < b < |other| && other[a] == other[b]
  {
    if forall i, j :: 0 <= i < j < |other| ==> other[i] != other[j] {
      InjectiveHasFullSize(other);
      RangeHasSize(m);
      SubsetIsNotLarger(Members(other), Range(m));
      assert false;
    }
    a, b :| 0 <= a < b < |other| && other[a] == other[b];
  }

  lemma {:induction false} InjectiveHasFullSize(s: seq<nat>)
    requires forall i, j :: 0 <= i < j < |s| ==> s[i] != s[j]
    ensures |Members(s)| == |s|
  {
    if s != [] {
      InjectiveHasFullSize(s[1..]);
      assert s[0] !in s[1..];
    }
  }

  lemma {:induction false} TwoFilesAtMostLoad(sizes: seq<nat>, other: seq<nat>, a: nat, b: nat, n: nat)
    requires n <= |sizes| && n <= |other| && a < b < n && other[a] == other[b]
    ensures sizes[a] + sizes[b] <= Load(sizes, other, other[a], n)
  {
    if n - 1 == b {
      OneFileAtMostLoad(sizes, other, a, n - 1);
    } else {
      TwoFilesAtMostLoad(sizes, other, a, b, n - 1);
    }
  }

  lemma {:induction false} OneFileAtMostLoad(sizes: seq<nat>, other: seq<nat>, a: nat, n: nat)
    requires n <= |sizes| && n <= |other| && a < n
    ensures sizes[a] <= Load(sizes, other, other[a], n)
  {
    if n - 1 != a {
      OneFileAtMostLoad(sizes, other, a, n - 1);
    }
  }

  lemma {:induction false} SumAtMostMaximum(s: seq<nat>, bound: nat, n: nat)
    requires n <= |s| && forall i :: 0 <= i < n ==> s[i] <= bound
    ensures Sum(s, n) <= n * bound
  {
    if n > 0 {
      SumAtMostMaximum(s, bound, n - 1);
      assert n * bound == (n - 1) * bound + bound;
    }
  }

  lemma {:induction false} SumOfEqual(s: seq<nat>, w: nat, n: nat)
    requires n <= |s| && forall i :: 0 <= i < n ==> s[i] == w
    ensures Sum(s, n) == n * w
  {
    if n > 0 {
      SumOfEqual(s, w, n - 1);
      assert n * w == (n - 1) * w + w;
    }
  }

  /** Weights are equal and positive, and `other` is some assignment with no load above `bound`. */
  ghost predicate EqualWeights(weights: seq<nat>, w: nat) {
    w > 0 && forall j :: 0 <= j < |weights| ==> weights[j] == w
  }

  ghost predicate AssignmentWithin(sizes: seq<nat>, other: seq<nat>, m: nat, bound: nat) {
    && |other| == |sizes|
    && (forall k :: 0 <= k < |other| ==> other[k] < m)
    && (forall j :: 0 <= j < m ==> Load(sizes, other, j, |sizes|) <= bound)
  }

  ghost predicate LargestFirst(sizes: seq<nat>) {
    forall a, b :: 0 <= a < b < |sizes| ==> sizes[a] >= sizes[b]
  }

  /**
    With equal weights the largest load is at most one and a half times the largest load of any
    other assignment whatever, and so less than twice it.
  */
  lemma {:induction false} EqualWeightsNearOptimal(sizes: seq<nat>, weights: seq<nat>, w: nat, picks: seq<nat>, i: nat,
                                                   other: seq<nat>, bound: nat)
    requires GreedyPicks(sizes, weights, picks) && |picks| == |sizes| && i < |weights|
    requires LargestFirst(sizes) && EqualWeights(weights, w)
    requires AssignmentWithin(sizes, other, |weights|, bound)
    ensures 2 * Load(sizes, picks, i, |sizes|) <= 3 * bound
    ensures bound > 0 ==> Load(sizes, picks, i, |sizes|) < 2 * bound
  {
    var n := |sizes|;
    if Load(sizes, picks, i, n) > 0 {
      var k := LastPosition(sizes, picks, i, n);
      OneFileAtMostLoad(sizes, other, k, n);
      var t := other[k];
      assert Load(sizes, other, t, n) <= bound;
      RestIsAtMostBound(sizes, weights, w, picks, i, other, bound);
      if Load(sizes, picks, i, k) > 0 {
        LastIsAtMostHalf(sizes, weights, w, picks, i, k, other, bound);
      }
    }
  }

  lemma {:induction false} RestIsAtMostBound(sizes: seq<nat>, weights: seq<nat>, w: nat, picks: seq<nat>, i: nat,
                                             other: seq<nat>, bound: nat)
    requires GreedyPicks(sizes, weights, picks) && |picks| == |sizes| && i < |weights|
    requires EqualWeights(weights, w)
    requires AssignmentWithin(sizes, other, |weights|, bound)
    ensures Load(sizes, picks, i, |sizes|) - Last(sizes, picks, i, |sizes|) <= bound
  {
    var n, m := |sizes|, |weights|;
    GreedyIsBalanced(sizes, weights, picks, i, n);
    SumOfEqual(weights, w, m);
    LoadsAreConserved(sizes, other, n, m);
    var loads := LoadVector(sizes, other, n, m);
    forall j | 0 <= j < m ensures loads[j] <= bound {
      assert Load(sizes, other, j, n) <= bound;
    }
    SumAtMostMaximum(loads, bound, m);
    DivideOut(Load(sizes, picks, i, n) - Last(sizes, picks, i, n), m, w,
              Sum(sizes, n) - Last(sizes, picks, i, n), bound);
  }

  lemma DivideOut(rest: nat, m: nat, w: nat, total: nat, bound: nat)
    requires m > 0 && w > 0
    requires rest * (m * w) <= w * total && total <= m * bound
    ensures rest <= bound
  {
    MulMonotone(total, m * bound, w);
    assert (bound + 1) * (m * w) == w * (m * bound) + m * w;
    assert m * w > 0;
    if rest > bound {
      MulMonotone(bound + 1, rest, m * w);
      assert false;
    }
  }

  lemma {:induction false} LastIsAtMostHalf(sizes: seq<nat>, weights: seq<nat>, w: nat, picks: seq<nat>, i: nat, k: nat,
                                            other: seq<nat>, bound: nat)
    requires GreedyPicks(sizes, weights, picks) && |picks| == |sizes| && i < |weights|
    requires LargestFirst(sizes) && EqualWeights(weights, w)
    requires AssignmentWithin(sizes, other, |weights|, bound)
    requires k < |sizes| && picks[k] == i && Load(sizes, picks, i, k) > 0
    ensures 2 * sizes[k] <= bound
  {
    var m := |weights|;
    // every transfer already holds a file, so at least m files come before file k
    forall j | 0 <= j < m ensures j in picks[..k] {
      EveryTransferIsLoaded(sizes, weights, w, picks, k, j);
      LoadedMeansPicked(sizes, picks, j, k);
    }
    DistinctMembersAtMostLength(picks[..k], m);
    var a, b := Pigeonhole(other[..k + 1], m);
    TwoFilesAtMostLoad(sizes, other, a, b, |sizes|);
    var t := other[a];
    assert Load(sizes, other, t, |sizes|) <= bound;
    assert b == k || sizes[b] >= sizes[k];
  }

  lemma {:induction false} EveryTransferIsLoaded(sizes: seq<nat>, weights: seq<nat>, w: nat, picks: seq<nat>, k: nat,
                                                 j: nat)
    requires GreedyPicks(sizes, weights, picks) && k < |picks| && j < |weights|
    requires EqualWeights(weights, w)
    requires Load(sizes, picks, picks[k], k) > 0
    ensures Load(sizes, picks, j, k) > 0
  {
    var load := LoadVector(sizes, picks, k, |weights|);
    assert PickIsGreedy(sizes, weights, picks, k);
    LeastLoadedAt(load, weights, picks[k], j);
    assert weights[j] == w && weights[picks[k]] == w;
    PositiveProduct(load[picks[k]], load[j], w);
  }

  lemma PositiveProduct(x: nat, y: nat, w: nat)
    requires x > 0 && w > 0 && x * w <= y * w
    ensures y > 0
  {
    assert x * w > 0;
  }

  // ---------------------------------------------------------------- processing order

  datatype IndexedFile = IndexedFile(index: nat, file: SourceFile)

  predicate ProcessedBefore(a: IndexedFile, b: IndexedFile) {
    if a.file.size != b.file.size then a.file.size > b.file.size else StringLess(a.file.path, b.file.path)
  }

  function Indexed(files: seq<SourceFile>): (r: seq<IndexedFile>)
    ensures |r| == |files|
  {
    seq(|files|, i requires 0 <= i < |files| => IndexedFile(i, files[i]))
  }

  /** Largest first, by path among files of equal size. */
  function ProcessingOrder(files: seq<SourceFile>): seq<IndexedFile> {
    Sort(Indexed(files), ProcessedBefore)
  }

  ghost function SizesOf(order: seq<IndexedFile>): (r: seq<nat>)
    ensures |r| == |order|
  {
    seq(|order|, k requires 0 <= k < |order| => order[k].file.size)
  }

  lemma ProcessedBeforeIsOrder()
    ensures StrictWeakOrder(ProcessedBefore)
  {
    forall a ensures !ProcessedBefore(a, a) {
      StringLessIsIrreflexive(a.file.path);
    }
    forall a, b | ProcessedBefore(a, b) ensures !ProcessedBefore(b, a) {
      StringLessIsTotal(a.file.path, b.file.path);
    }
    forall a, b, c | !ProcessedBefore(b, a) && !ProcessedBefore(c, b) ensures !ProcessedBefore(c, a) {
      StringLessIsTotal(a.file.path, b.file.path);
      StringLessIsTotal(b.file.path, c.file.path);
      StringLessIsTotal(c.file.path, a.file.path);
      if StringLess(c.file.path, a.file.path) && StringLess(a.file.path, b.file.path) {
        StringLessIsTransitive(c.file.path, a.file.path, b.file.path);
      }
    }
  }

  /** `order` holds every file exactly once, largest first. */
  ghost predicate HoldsEveryFileOnce(files: seq<SourceFile>, order: seq<IndexedFile>) {
    && |order| == |files|
    && (forall k :: 0 <= k < |order| ==> order[k].index < |files| && files[order[k].index] == order[k].file)
    && (forall k, l :: 0 <= k < l < |order| ==> order[k].index != order[l].index)
    && LargestFirst(SizesOf(order))
  }

  lemma OrderHoldsEveryFileOnce(files: seq<SourceFile>)
    ensures HoldsEveryFileOnce(files, ProcessingOrder(files))
  {
    var indexed, order := Indexed(files), ProcessingOrder(files);
    SortKeepsElements(indexed, ProcessedBefore);
    ProcessedBeforeIsOrder();
    SortSorts(indexed, ProcessedBefore);
    OrderIsArrangement(files, order);
    OrderIsLargestFirst(order);
  }

  lemma OrderIsLargestFirst(order: seq<IndexedFile>)
    requires Sorted(order, ProcessedBefore)
    ensures LargestFirst(SizesOf(order))
  {
    var sizes := SizesOf(order);
    forall a, b | 0 <= a < b < |sizes| ensures sizes[a] >= sizes[b] {
      assert !ProcessedBefore(order[b], order[a]);
    }
  }

  lemma OrderIsArrangement(files: seq<SourceFile>, order: seq<IndexedFile>)
    requires multiset(order) == multiset(Indexed(files)) && |order| == |files|
    ensures forall k :: 0 <= k < |order| ==> order[k].index < |files| && files[order[k].index] == order[k].file
    ensures forall k, l :: 0 <= k < l < |order| ==> order[k].index != order[l].index
  {
    var indexed := Indexed(files);
    forall k | 0 <= k < |order| ensures order[k].index < |files| && files[order[k].index] == order[k].file {
      assert order[k] in multiset(indexed);
      assert order[k] in indexed;
    }
    forall k, l | 0 <= k < l < |order| ensures order[k].index != order[l].index {
      if order[k] == order[l] {
        AtMostOnce(indexed, order[k]);
        CountsTwice(order, k, l);
        assert false;
      }
    }
  }

  lemma CountsTwice<T>(s: seq<T>, k: nat, l: nat)
    requires k < l < |s| && s[k] == s[l]
    ensures multiset(s)[s[k]] >= 2
  {
    assert s == s[..k] + [s[k]] + s[k + 1..l] + [s[l]] + s[l + 1..];
  }

  // ---------------------------------------------------------------- the allocation itself

  /** `loads` is what the greedy choices in `picks` leave behind. */
  ghost predicate GreedyState(sizes: seq<nat>, loads: seq<TransferLoad>, picks: seq<nat>) {
    && GreedyPicks(sizes, Weights(loads), picks)
    && forall i :: 0 <= i < |loads| ==> loads[i].bytes == Load(sizes, picks, i, |picks|)
  }

  /** The next file does not fit into the least loaded transfer, named by `transfer`. */
  ghost predicate NextFileOverflows(sizes: seq<nat>, loads: seq<TransferLoad>, picks: seq<nat>, transfer: nat) {
    && |picks| < |sizes|
    && exists c: nat :: LeastLoadedTransferIs(loads, c, transfer) && loads[c].bytes + sizes[|picks|] > MAX_UINT64
  }

  ghost predicate LeastLoadedTransferIs(loads: seq<TransferLoad>, c: nat, transfer: nat) {
    LeastLoaded(Bytes(loads), Weights(loads), c) && loads[c].weight.transfer == transfer
  }

  method AllocateFiles(files: seq<SourceFile>, loads: array<TransferLoad>)
    returns (r: Result<seq<nat>, AllocationError>, ghost picks: seq<nat>)
    requires loads.Length > 0
    requires forall i :: 0 <= i < loads.Length ==> loads[i].weight.weight > 0 && loads[i].bytes == 0
    modifies loads
    ensures forall i :: 0 <= i < loads.Length ==> loads[i].weight == old(loads[i].weight)
    ensures GreedyState(SizesOf(ProcessingOrder(files)), loads[..], picks)
    ensures r.Ok? ==> |picks| == |files| && OwnersFollowPicks(files, loads[..], picks, r.value)
    ensures r.Err? ==>
              && r.error.ByteTotalOverflows?
              && NextFileOverflows(SizesOf(ProcessingOrder(files)), loads[..], picks, r.error.transfer)
  {
    var order := ProcessingOrder(files);
    OrderHoldsEveryFileOnce(files);
    ghost var sizes := SizesOf(order);
    var owners := new nat[|files|];
    picks := [];
    var k := 0;
    while k < |order|
      invariant 0 <= k <= |order| && |picks| == k
      invariant forall i :: 0 <= i < loads.Length ==> loads[i].weight == old(loads[i].weight)
      invariant forall j :: 0 <= j < k ==> picks[j] < loads.Length
      invariant GreedyState(sizes, loads[..], picks)
      invariant forall j :: 0 <= j < k ==> owners[order[j].index] == loads[picks[j]].weight.transfer
    {
      var file := order[k].file;
      var chosen := MinimumLoad(loads);
      ghost var before := loads[..];
      if loads[chosen].bytes > MAX_UINT64 - file.size {
        assert LeastLoadedTransferIs(before, chosen, loads[chosen].weight.transfer);
        return Err(ByteTotalOverflows(loads[chosen].weight.transfer)), picks;
      }
      loads[chosen] := loads[chosen].(bytes := loads[chosen].bytes + file.size);
      owners[order[k].index] := loads[chosen].weight.transfer;
      GreedyStep(sizes, before, loads[..], picks, chosen);
      picks := picks + [chosen];
      k := k + 1;
    }
    r := Ok(owners[..]);
  }

  lemma GreedyStep(sizes: seq<nat>, before: seq<TransferLoad>, after: seq<TransferLoad>, picks: seq<nat>, chosen: nat)
    requires GreedyState(sizes, before, picks) && |picks| < |sizes|
    requires LeastLoaded(Bytes(before), Weights(before), chosen)
    requires |after| == |before| && forall i :: 0 <= i < |after| ==> after[i].weight == before[i].weight
    requires forall i :: 0 <= i < |after| ==>
                           after[i].bytes == before[i].bytes + if i == chosen then sizes[|picks|] else 0
    ensures GreedyState(sizes, after, picks + [chosen])
  {
    var n, extended := |picks|, picks + [chosen];
    assert Bytes(before) == LoadVector(sizes, picks, n, |before|);
    assert Weights(after) == Weights(before);
    ExtendGreedy(sizes, Weights(before), picks, chosen);
    forall i | 0 <= i < |after| ensures after[i].bytes == Load(sizes, extended, i, n + 1) {
      LoadOfPrefix(sizes, extended, picks, i, n);
    }
  }

  lemma ExtendGreedy(sizes: seq<nat>, weights: seq<nat>, picks: seq<nat>, chosen: nat)
    requires GreedyPicks(sizes, weights, picks) && |picks| < |sizes|
    requires LeastLoaded(LoadVector(sizes, picks, |picks|, |weights|), weights, chosen)
    ensures GreedyPicks(sizes, weights, picks + [chosen])
  {
    var extended := picks + [chosen];
    forall k | 0 <= k < |extended| ensures PickIsGreedy(sizes, weights, extended, k) {
      assert k < |picks| ==> PickIsGreedy(sizes, weights, picks, k);
      assert extended[..k] == picks[..k];
      SameLoads(sizes, extended, picks, k, |weights|);
    }
  }

  /** Each file is owned by the transfer picked for it. */
  ghost predicate OwnersFollowPicks(files: seq<SourceFile>, loads: seq<TransferLoad>, picks: seq<nat>, owners: seq<nat>) {
    && |owners| == |files| == |picks| == |ProcessingOrder(files)|
    && forall k :: 0 <= k < |picks| ==>
         && picks[k] < |loads|
         && ProcessingOrder(files)[k].index < |files|
         && owners[ProcessingOrder(files)[k].index] == loads[picks[k]].weight.transfer
  }

  method AllocateEmptyDirectories(count: nat, transfers: seq<nat>) returns (owners: seq<nat>)
    requires |transfers| > 0
    ensures |owners| == count
    ensures forall i :: 0 <= i < count ==> owners[i] == transfers[i % |transfers|]
  {
    owners := [];
    while |owners| < count
      invariant |owners| <= count
      invariant forall i :: 0 <= i < |owners| ==> owners[i] == transfers[i % |transfers|]
    {
      owners := owners + [transfers[|owners| % |transfers|]];
    }
  }

  // ---------------------------------------------------------------- what each transfer owns

  /** The bytes of the first `n` files that transfer `t` owns. */
  ghost function OwnedBytes(files: seq<SourceFile>, owners: seq<nat>, t: nat, n: nat): nat
    requires n <= |files| && n <= |owners|
  {
    if n == 0 then 0 else OwnedBytes(files, owners, t, n - 1) + if owners[n - 1] == t then files[n - 1].size else 0
  }

  ghost function TotalBytes(files: seq<SourceFile>, n: nat): nat
    requires n <= |files|
  {
    if n == 0 then 0 else TotalBytes(files, n - 1) + files[n - 1].size
  }

  ghost function SumBy(s: seq<IndexedFile>, g: IndexedFile -> nat): nat {
    if s == [] then 0 else g(s[0]) + SumBy(s[1..], g)
  }

  lemma {:induction false} SumByOfInsert(x: IndexedFile, s: seq<IndexedFile>, g: IndexedFile -> nat)
    ensures SumBy(Insert(x, s, ProcessedBefore), g) == g(x) + SumBy(s, g)
  {
    if s == [] || ProcessedBefore(x, s[0]) {
      assert ([x] + s)[1..] == s;
    } else {
      SumByOfInsert(x, s[1..], g);
      assert ([s[0]] + Insert(x, s[1..], ProcessedBefore))[1..] == Insert(x, s[1..], ProcessedBefore);
    }
  }

  lemma {:induction false} SumByOfSort(s: seq<IndexedFile>, g: IndexedFile -> nat)
    ensures SumBy(Sort(s, ProcessedBefore), g) == SumBy(s, g)
  {
    if s != [] {
      SumByOfSort(s[1..], g);
      SumByOfInsert(s[0], Sort(s[1..], ProcessedBefore), g);
    }
  }

  lemma {:induction false} SumByOfAppend(s: seq<IndexedFile>, x: IndexedFile, g: IndexedFile -> nat)
    ensures SumBy(s + [x], g) == SumBy(s, g) + g(x)
  {
    if s == [] {
      assert s + [x] == [x];
    } else {
      assert (s + [x])[1..] == s[1..] + [x];
      SumByOfAppend(s[1..], x, g);
    }
  }

  lemma {:induction false} LoadIsSumBy(order: seq<IndexedFile>, picks: seq<nat>, i: nat, n: nat, g: IndexedFile -> nat)
    requires n <= |order| && n <= |picks|
    requires forall k :: 0 <= k < n ==> g(order[k]) == if picks[k] == i then order[k].file.size else 0
    ensures Load(SizesOf(order), picks, i, n) == SumBy(order[..n], g)
  {
    if n > 0 {
      LoadIsSumBy(order, picks, i, n - 1, g);
      assert order[..n] == order[..n - 1] + [order[n - 1]];
      SumByOfAppend(order[..n - 1], order[n - 1], g);
    }
  }

  lemma {:induction false} OwnedIsSumBy(files: seq<SourceFile>, owners: seq<nat>, t: nat, n: nat, g: IndexedFile -> nat)
    requires n <= |files| && n <= |owners|
    requires forall i :: 0 <= i < n ==> g(IndexedFile(i, files[i])) == if owners[i] == t then files[i].size else 0
    ensures OwnedBytes(files, owners, t, n) == SumBy(Indexed(files)[..n], g)
  {
    if n > 0 {
      OwnedIsSumBy(files, owners, t, n - 1, g);
      assert Indexed(files)[..n] == Indexed(files)[..n - 1] + [Indexed(files)[n - 1]];
      SumByOfAppend(Indexed(files)[..n - 1], Indexed(files)[n - 1], g);
    }
  }

  /** The load a transfer ends with is exactly the size of the files it owns. */
  lemma {:induction false} LoadIsOwnedBytes(files: seq<SourceFile>, loads: seq<TransferLoad>, picks: seq<nat>,
                                            owners: seq<nat>, i: nat)
    requires OwnersFollowPicks(files, loads, picks, owners) && i < |loads|
    requires forall a, b :: 0 <= a < b < |loads| ==> loads[a].weight.transfer != loads[b].weight.transfer
    ensures Load(SizesOf(ProcessingOrder(files)), picks, i, |files|)
         == OwnedBytes(files, owners, loads[i].weight.transfer, |files|)
  {
    var order, t := ProcessingOrder(files), loads[i].weight.transfer;
    OrderHoldsEveryFileOnce(files);
    var g := (x: IndexedFile) => if x.index < |owners| && owners[x.index] == t then x.file.size else 0;
    LoadIsSumBy(order, picks, i, |files|, g);
    assert order[..|files|] == order;
    SumByOfSort(Indexed(files), g);
    OwnedIsSumBy(files, owners, t, |files|, g);
    assert Indexed(files)[..|files|] == Indexed(files);
  }

  lemma {:induction false} TotalOfOrder(files: seq<SourceFile>)
    ensures |ProcessingOrder(files)| == |files|
    ensures Sum(SizesOf(ProcessingOrder(files)), |files|) == TotalBytes(files, |files|)
  {
    OrderHoldsEveryFileOnce(files);
    var order, n := ProcessingOrder(files), |files|;
    var g := (x: IndexedFile) => x.file.size;
    var same := seq(n, i => 0);
    SumByOfSort(Indexed(files), g);
    LoadIsSumBy(order, same, 0, n, g);
    OwnedIsSumBy(files, same, 0, n, g);
    assert order[..n] == order && Indexed(files)[..n] == Indexed(files);
    OneOwnerHasAll(files, same, n);
    OnePickHasAll(SizesOf(order), same, n);
  }

  lemma {:induction false} OneOwnerHasAll(files: seq<SourceFile>, owners: seq<nat>, n: nat)
    requires n <= |files| && n <= |owners| && forall i :: 0 <= i < n ==> owners[i] == 0
    ensures OwnedBytes(files, owners, 0, n) == TotalBytes(files, n)
  {
    if n > 0 {
      OneOwnerHasAll(files, owners, n - 1);
    }
  }

  lemma {:induction false} OnePickHasAll(sizes: seq<nat>, picks: seq<nat>, n: nat)
    requires n <= |sizes| && n <= |picks| && forall i :: 0 <= i < n ==> picks[i] == 0
    ensures Load(sizes, picks, 0, n) == Sum(sizes, n)
  {
    if n > 0 {
      OnePickHasAll(sizes, picks, n - 1);
    }
  }

  // ---------------------------------------------------------------- re-validation

  /** A complete and consistent owner assignment for `files` and `emptyDirs` directories. */
  ghost predicate ValidAllocation(files: seq<SourceFile>, emptyDirs: nat, a: TransferAllocation) {
    && |a.transfers| > 0
    && |a.fileOwners| == |files| && |a.emptyDirOwners| == emptyDirs
    && |a.totalBytes| == |a.transfers| == |a.transferIndex|
    && (forall i :: 0 <= i < |a.transfers| ==>
          a.transfers[i] > 0 && a.transfers[i] in a.transferIndex && a.transferIndex[a.transfers[i]] == i)
    && (forall i :: 0 <= i < |files| ==> a.fileOwners[i] in a.transferIndex)
    && (forall i :: 0 <= i < emptyDirs ==> a.emptyDirOwners[i] in a.transferIndex)
    && (forall i :: 0 <= i < |a.transfers| ==>
          a.totalBytes[i] == OwnedBytes(files, a.fileOwners, a.transfers[i], |files|))
  }

  lemma {:induction false} OwnedBytesIsMonotone(files: seq<SourceFile>, owners: seq<nat>, t: nat, m: nat, n: nat)
    requires m <= n <= |files| && n <= |owners|
    ensures OwnedBytes(files, owners, t, m) <= OwnedBytes(files, owners, t, n)
  {
    if m < n {
      OwnedBytesIsMonotone(files, owners, t, m, n - 1);
    }
  }

  /** Indexing a map whose size is the number of transfers it gives back: nothing else is a key. */
  lemma IndexKeysAreTransfers(transfers: seq<nat>, index: map<nat, nat>, t: nat)
    requires |index| == |transfers|
    requires forall i :: 0 <= i < |transfers| ==> transfers[i] in index && index[transfers[i]] == i
    requires t in index
    ensures index[t] < |transfers| && transfers[index[t]] == t
  {
    var keys := Members(transfers);
    forall i, j | 0 <= i < j < |transfers| ensures transfers[i] != transfers[j] {
      assert index[transfers[i]] == i && index[transfers[j]] == j;
    }
    InjectiveHasFullSize(transfers);
    assert keys <= index.Keys;
    assert |keys| == |index.Keys|;
    EqualSizeSubset(keys, index.Keys);
    assert t in keys;
  }

  lemma {:induction false} EqualSizeSubset(a: set<nat>, b: set<nat>)
    requires a <= b && |a| == |b|
    ensures a == b
  {
    if x :| x in b && x !in a {
      SubsetIsNotLarger(a, b - {x});
      assert false;
    }
  }

  method ValidateTransferAllocation(files: seq<SourceFile>, emptyDirs: nat, a: TransferAllocation)
    returns (failure: Option<AllocationError>)
    ensures failure.None? <==> ValidAllocation(files, emptyDirs, a)
  {
    if |a.transfers| == 0 || |a.fileOwners| != |files| || |a.emptyDirOwners| != emptyDirs ||
       |a.totalBytes| != |a.transfers| || |a.transferIndex| != |a.transfers| {
      return Some(AllocationIncomplete);
    }
    var index := 0;
    while index < |a.transfers|
      invariant 0 <= index <= |a.transfers|
      invariant forall i :: 0 <= i < index ==>
                              a.transfers[i] > 0 && a.transfers[i] in a.transferIndex && a.transferIndex[a.transfers[i]] == i
    {
      var transfer := a.transfers[index];
      if transfer == 0 || transfer !in a.transferIndex || a.transferIndex[transfer] != index {
        return Some(TransfersInvalid);
      }
      index := index + 1;
    }
    var calculated := new uint64[|a.transfers|](_ => 0);
    index := 0;
    while index < |files|
      invariant 0 <= index <= |files|
      invariant forall i :: 0 <= i < index ==> a.fileOwners[i] in a.transferIndex
      invariant forall i :: 0 <= i < |a.transfers| ==>
                              calculated[i] == OwnedBytes(files, a.fileOwners, a.transfers[i], index)
    {
      var owner := a.fileOwners[index];
      if owner !in a.transferIndex {
        return Some(OwnerOrTotalInvalid);
      }
      IndexKeysAreTransfers(a.transfers, a.transferIndex, owner);
      var transferIndex := a.transferIndex[owner];
      if calculated[transferIndex] > MAX_UINT64 - files[index].size {
        OwnedBytesIsMonotone(files, a.fileOwners, owner, index + 1, |files|);
        return Some(OwnerOrTotalInvalid);
      }
      calculated[transferIndex] := calculated[transferIndex] + files[index].size;
      index := index + 1;
    }
    index := 0;
    while index < |a.emptyDirOwners|
      invariant 0 <= index <= |a.emptyDirOwners|
      invariant forall i :: 0 <= i < index ==> a.emptyDirOwners[i] in a.transferIndex
    {
      if a.emptyDirOwners[index] !in a.transferIndex {
        return Some(OwnerOrTotalInvalid);
      }
      index := index + 1;
    }
    index := 0;
    while index < |a.transfers|
      invariant 0 <= index <= |a.transfers|
      invariant forall i :: 0 <= i < index ==> calculated[i] == a.totalBytes[i]
    {
      if calculated[index] != a.totalBytes[index] {
        return Some(TotalsInconsistent);
      }
      index := index + 1;
    }
    return None;
  }

  // ---------------------------------------------------------------- the whole operation

  ghost function WeightValues(weights: seq<TransferWeight>): (r: seq<nat>)
    ensures |r| == |weights|
  {
    seq(|weights|, i requires 0 <= i < |weights| => weights[i].weight)
  }

  /** `a` is the assignment the greedy choices in `picks` lead to. */
  ghost predicate AllocatedBy(files: seq<SourceFile>, weights: seq<TransferWeight>, a: TransferAllocation, picks: seq<nat>) {
    && |a.transfers| == |a.totalBytes| == |weights|
    && (forall i :: 0 <= i < |weights| ==> a.transfers[i] == weights[i].transfer)
    && |picks| == |files| == |a.fileOwners| == |ProcessingOrder(files)|
    && GreedyPicks(SizesOf(ProcessingOrder(files)), WeightValues(weights), picks)
    && (forall i :: 0 <= i < |weights| ==> a.totalBytes[i] == Load(SizesOf(ProcessingOrder(files)), picks, i, |files|))
    && (forall k :: 0 <= k < |picks| ==>
          && picks[k] < |weights|
          && ProcessingOrder(files)[k].index < |files|
          && a.fileOwners[ProcessingOrder(files)[k].index] == weights[picks[k]].transfer)
  }

  ghost predicate GreedyAllocation(files: seq<SourceFile>, weights: seq<TransferWeight>, a: TransferAllocation) {
    exists picks :: AllocatedBy(files, weights, a, picks)
  }

  /** Every file and every empty directory is owned by a selected transfer. */
  lemma OwnersAreSelected(files: seq<SourceFile>, emptyDirs: nat, weights: seq<TransferWeight>, a: TransferAllocation)
    requires ValidWeights(weights) && GreedyAllocation(files, weights, a) && ValidAllocation(files, emptyDirs, a)
    ensures forall t :: t in a.transfers ==> 1 <= t <= MAXIMUM_TRANSFERS
    ensures forall i :: 0 <= i < |files| ==> a.fileOwners[i] in a.transfers
    ensures forall i :: 0 <= i < emptyDirs ==> a.emptyDirOwners[i] in a.transfers
  {
    forall t | t in a.transferIndex ensures t in a.transfers {
      IndexKeysAreTransfers(a.transfers, a.transferIndex, t);
    }
    forall t | t in a.transfers ensures 1 <= t <= MAXIMUM_TRANSFERS {
      var i :| 0 <= i < |a.transfers| && a.transfers[i] == t;
      assert t == weights[i].transfer;
    }
  }

  method IndexTransfers(transfers: seq<nat>) returns (transferIndex: map<nat, nat>)
    requires forall i, j :: 0 <= i < j < |transfers| ==> transfers[i] != transfers[j]
    ensures |transferIndex| == |transfers|
    ensures forall i :: 0 <= i < |transfers| ==> transfers[i] in transferIndex && transferIndex[transfers[i]] == i
  {
    transferIndex := map[];
    var index := 0;
    while index < |transfers|
      invariant 0 <= index <= |transfers| && |transferIndex| == index
      invariant forall t :: t in transferIndex ==> t in transfers[..index]
      invariant forall i :: 0 <= i < index ==> transfers[i] in transferIndex && transferIndex[transfers[i]] == i
    {
      assert transfers[index] !in transfers[..index];
      transferIndex := transferIndex[transfers[index] := index];
      index := index + 1;
    }
  }

  method AllocateTransferItems(files: seq<SourceFile>, emptyDirs: nat, weights: seq<TransferWeight>)
    returns (r: Result<TransferAllocation, AllocationError>)
    requires weights == [] || ValidWeights(weights)
    ensures r.Ok? ==> GreedyAllocation(files, weights, r.value) && ValidAllocation(files, emptyDirs, r.value)
    ensures r.Ok? ==> forall i :: 0 <= i < emptyDirs ==> r.value.emptyDirOwners[i] == weights[i % |weights|].transfer
    // the three ways to fail; re-validation is not among them
    ensures r == Err(NoTransferItems) <==> |files| + emptyDirs == 0
    ensures r == Err(NoWeights) <==> |files| + emptyDirs > 0 && weights == []
    ensures r.Err? && r.error !in {NoTransferItems, NoWeights} ==>
              r.error.ByteTotalOverflows? && TotalBytes(files, |files|) > MAX_UINT64
  {
    if |files| + emptyDirs == 0 {
      return Err(NoTransferItems);
    }
    if |weights| == 0 {
      return Err(NoWeights);
    }
    var loads := new TransferLoad[|weights|](i requires 0 <= i < |weights| => TransferLoad(weights[i], 0));
    var transfers := seq(|weights|, i requires 0 <= i < |weights| => weights[i].transfer);
    var transferIndex := IndexTransfers(transfers);
    var fileOwners, picks := AllocateFiles(files, loads);
    assert Weights(loads[..]) == WeightValues(weights);
    if fileOwners.Err? {
      OverflowMeansLargeTotal(files, SizesOf(ProcessingOrder(files)), loads[..], picks, fileOwners.error.transfer);
      return Err(fileOwners.error);
    }
    var emptyDirOwners := AllocateEmptyDirectories(emptyDirs, transfers);
    var totals := seq(loads.Length, i requires 0 <= i < loads.Length reads loads => loads[i].bytes);
    var allocation := TransferAllocation(transfers, transferIndex, fileOwners.value, emptyDirOwners, totals);
    assert AllocatedBy(files, weights, allocation, picks);
    AllocationIsValid(files, emptyDirs, weights, loads[..], picks, allocation);
    var failure := ValidateTransferAllocation(files, emptyDirs, allocation);
    return match failure case Some(error) => Err(error) case None => Ok(allocation);
  }

  lemma {:induction false} OverflowMeansLargeTotal(files: seq<SourceFile>, sizes: seq<nat>, loads: seq<TransferLoad>,
                                                   picks: seq<nat>, transfer: nat)
    requires sizes == SizesOf(ProcessingOrder(files))
    requires GreedyState(sizes, loads, picks) && NextFileOverflows(sizes, loads, picks, transfer)
    ensures TotalBytes(files, |files|) > MAX_UINT64
  {
    OverflowInOrder(sizes, loads, picks, transfer);
    TotalOfOrder(files);
  }

  lemma {:induction false} OverflowInOrder(sizes: seq<nat>, loads: seq<TransferLoad>, picks: seq<nat>, transfer: nat)
    requires GreedyState(sizes, loads, picks) && NextFileOverflows(sizes, loads, picks, transfer)
    ensures Sum(sizes, |sizes|) > MAX_UINT64
  {
    var n := |picks|;
    var c: nat :| LeastLoadedTransferIs(loads, c, transfer) && loads[c].bytes + sizes[n] > MAX_UINT64;
    LoadAtMostSum(sizes, picks, c, n);
    SumIsMonotone(sizes, n + 1, |sizes|);
  }

  lemma {:induction false} LoadAtMostSum(sizes: seq<nat>, picks: seq<nat>, i: nat, n: nat)
    requires n <= |sizes| && n <= |picks|
    ensures Load(sizes, picks, i, n) <= Sum(sizes, n)
  {
    if n > 0 {
      LoadAtMostSum(sizes, picks, i, n - 1);
    }
  }

  lemma AllocationIsValid(files: seq<SourceFile>, emptyDirs: nat, weights: seq<TransferWeight>,
                          loads: seq<TransferLoad>, picks: seq<nat>, a: TransferAllocation)
    requires ValidWeights(weights) && AllocatedBy(files, weights, a, picks)
    requires |loads| == |weights| && forall i :: 0 <= i < |loads| ==> loads[i].weight == weights[i]
    requires |a.transferIndex| == |a.transfers| && |a.emptyDirOwners| == emptyDirs
    requires forall i :: 0 <= i < |a.transfers| ==> a.transfers[i] in a.transferIndex && a.transferIndex[a.transfers[i]] == i
    requires forall i :: 0 <= i < emptyDirs ==> a.emptyDirOwners[i] == a.transfers[i % |a.transfers|]
    ensures ValidAllocation(files, emptyDirs, a)
  {
    forall i | 0 <= i < |files| ensures a.fileOwners[i] in a.transferIndex {
      var k := PositionOf(files, i);
      assert a.fileOwners[i] == a.transfers[picks[k]];
    }
    forall i | 0 <= i < |a.transfers|
      ensures a.totalBytes[i] == OwnedBytes(files, a.fileOwners, a.transfers[i], |files|)
    {
      LoadIsOwnedBytes(files, loads, picks, a.fileOwners, i);
    }
  }

  /** Where file `i` comes in processing order. */
  lemma PositionOf(files: seq<SourceFile>, i: nat) returns (k: nat)
    requires i < |files|
    ensures |ProcessingOrder(files)| == |files| && k < |files|
    ensures ProcessingOrder(files)[k] == IndexedFile(i, files[i])
  {
    OrderHoldsEveryFileOnce(files);
    SortKeepsElements(Indexed(files), ProcessedBefore);
    assert Indexed(files)[i] in multiset(ProcessingOrder(files));
    k :| 0 <= k < |files| && ProcessingOrder(files)[k] == IndexedFile(i, files[i]);
  }

  // ---------------------------------------------------------------- what the allocation guarantees

  /** Totals add up to the size of the source. */
  lemma {:induction false} AllocationConservesBytes(files: seq<SourceFile>, weights: seq<TransferWeight>,
                                                    a: TransferAllocation)
    requires GreedyAllocation(files, weights, a)
    ensures Sum(a.totalBytes, |a.totalBytes|) == TotalBytes(files, |files|)
  {
    var picks :| AllocatedBy(files, weights, a, picks);
    TotalOfOrder(files);
    LoadsAreConserved(SizesOf(ProcessingOrder(files)), picks, |files|, |weights|);
    assert a.totalBytes == LoadVector(SizesOf(ProcessingOrder(files)), picks, |files|, |weights|);
  }

  /**
    Every transfer that owns a file has a smallest one without which it holds at most its weighted
    share of the rest of the source.
  */
  lemma {:induction false} AllocationIsBalanced(files: seq<SourceFile>, weights: seq<TransferWeight>,
                                                a: TransferAllocation, owned: nat)
    returns (smallest: nat, i: nat)
    requires ValidWeights(weights) && GreedyAllocation(files, weights, a)
    requires owned < |files| == |a.fileOwners| && |weights| == |a.totalBytes|
    ensures smallest < |files| && a.fileOwners[smallest] == a.fileOwners[owned]
    ensures forall f :: 0 <= f < |files| && a.fileOwners[f] == a.fileOwners[owned] ==> files[smallest].size <= files[f].size
    ensures i < |weights| && weights[i].transfer == a.fileOwners[owned]
    ensures files[smallest].size <= a.totalBytes[i] && files[smallest].size <= TotalBytes(files, |files|)
    ensures (a.totalBytes[i] - files[smallest].size) * Sum(WeightValues(weights), |weights|)
         <= weights[i].weight * (TotalBytes(files, |files|) - files[smallest].size)
  {
    var picks :| AllocatedBy(files, weights, a, picks);
    OrderHoldsEveryFileOnce(files);
    TotalOfOrder(files);
    var order := ProcessingOrder(files);
    var sizes, n := SizesOf(order), |files|;
    var k := PositionOf(files, owned);
    i := picks[k];
    var l := LastPick(sizes, picks, i, n, k);
    smallest := order[l].index;
    assert files[smallest].size == sizes[l] == Last(sizes, picks, i, n);
    SmallestOfOwner(files, weights, a, picks, i, smallest);
    assert WeightValues(weights)[i] == weights[i].weight;
    GreedyIsBalanced(sizes, WeightValues(weights), picks, i, n);
  }

  lemma {:induction false} SmallestOfOwner(files: seq<SourceFile>, weights: seq<TransferWeight>,
                                           a: TransferAllocation, picks: seq<nat>, i: nat, smallest: nat)
    requires ValidWeights(weights) && AllocatedBy(files, weights, a, picks)
    requires smallest < |files| && i < |weights|
    requires files[smallest].size == Last(SizesOf(ProcessingOrder(files)), picks, i, |files|)
    ensures forall f :: 0 <= f < |files| && a.fileOwners[f] == weights[i].transfer ==> files[smallest].size <= files[f].size
  {
    OrderHoldsEveryFileOnce(files);
    forall f | 0 <= f < |files| && a.fileOwners[f] == weights[i].transfer
      ensures files[smallest].size <= files[f].size
    {
      var p := PositionOf(files, f);
      assert weights[picks[p]].transfer == weights[i].transfer;
      LastIsSmallest(SizesOf(ProcessingOrder(files)), picks, i, |files|, p);
    }
  }

  lemma {:induction false} LastPick(sizes: seq<nat>, picks: seq<nat>, i: nat, n: nat, k: nat) returns (l: nat)
    requires n <= |sizes| && n <= |picks| && k < n && picks[k] == i
    ensures l < n && picks[l] == i && Last(sizes, picks, i, n) == sizes[l]
  {
    if picks[n - 1] == i {
      l := n - 1;
    } else {
      l := LastPick(sizes, picks, i, n - 1, k);
    }
  }

  /** The files, the weights and nothing else decide who owns what. */
  lemma AllocationIsUnique(files: seq<SourceFile>, weights: seq<TransferWeight>, a: TransferAllocation, b: TransferAllocation)
    requires GreedyAllocation(files, weights, a) && GreedyAllocation(files, weights, b)
    ensures a.fileOwners == b.fileOwners && a.totalBytes == b.totalBytes
  {
    var p :| AllocatedBy(files, weights, a, p);
    var q :| AllocatedBy(files, weights, b, q);
    GreedyPicksAreUnique(SizesOf(ProcessingOrder(files)), WeightValues(weights), p, q, |files|);
    assert p == p[..|files|] && q == q[..|files|];
    forall i | 0 <= i < |files| ensures a.fileOwners[i] == b.fileOwners[i] {
      var k := PositionOf(files, i);
    }
  }

  /**
    With equal weights the busiest transfer carries at most one and a half times what the busiest
    one carries in any other assignment of the files to the same transfers.
  */
  lemma {:induction false} AllocationIsNearOptimal(files: seq<SourceFile>, weights: seq<TransferWeight>,
                                                   a: TransferAllocation, i: nat, other: seq<nat>, bound: nat)
    requires ValidWeights(weights) && GreedyAllocation(files, weights, a) && i < |weights| == |a.totalBytes|
    requires forall j :: 0 <= j < |weights| ==> weights[j].weight == weights[0].weight
    requires |other| == |files| && forall f :: 0 <= f < |files| ==> other[f] < |weights|
    requires forall j :: 0 <= j < |weights| ==> OwnedBytes(files, other, j, |files|) <= bound
    ensures 2 * a.totalBytes[i] <= 3 * bound
    ensures bound > 0 ==> a.totalBytes[i] < 2 * bound
  {
    var picks :| AllocatedBy(files, weights, a, picks);
    OrderHoldsEveryFileOnce(files);
    var order := ProcessingOrder(files);
    var reordered := Reordered(order, other);
    forall j | 0 <= j < |weights| ensures Load(SizesOf(order), reordered, j, |files|) <= bound {
      LoadOfReordered(files, other, j);
    }
    EqualWeightsNearOptimal(SizesOf(order), WeightValues(weights), weights[0].weight, picks, i, reordered, bound);
  }

  /** An assignment given file by file, in processing order. */
  ghost function Reordered(order: seq<IndexedFile>, other: seq<nat>): (r: seq<nat>)
    requires forall k :: 0 <= k < |order| ==> order[k].index < |other|
    ensures |r| == |order|
  {
    seq(|order|, k requires 0 <= k < |order| => other[order[k].index])
  }

  lemma {:induction false} LoadOfReordered(files: seq<SourceFile>, other: seq<nat>, j: nat)
    requires |other| == |files| && HoldsEveryFileOnce(files, ProcessingOrder(files))
    ensures Load(SizesOf(ProcessingOrder(files)), Reordered(ProcessingOrder(files), other), j, |files|)
         == OwnedBytes(files, other, j, |files|)
  {
    var order := ProcessingOrder(files);
    var g := (x: IndexedFile) => if x.index < |other| && other[x.index] == j then x.file.size else 0;
    LoadIsSumBy(order, Reordered(order, other), j, |files|, g);
    SumByOfSort(Indexed(files), g);
    OwnedIsSumBy(files, other, j, |files|, g);
    assert order[..|files|] == order && Indexed(files)[..|files|] == Indexed(files);
  }
}
