/**
 * The compatibility-edge generator of the kidney-exchange data script
 * (code/data.py, gen_weights).
 *
 * For every ordered pair (i, j) of distinct pair-ids in 1..n, enumerated with
 * i outer and j inner, one uniform draw decides whether the edge i -> j is a
 * candidate (draw < p); a candidate consumes a second draw as its weight and
 * is appended with the next 1-based index.
 *
 * The random source is an oracle: the k-th call of the random generator
 * (counted from 0) returns `rand(k)`.
 */
module WeightGenerator {

  /** Default pair count and match probability of the script. */
  const PairsCount: int := 100
  const MatchProbability: real := 0.02

  /** One row of the weight file: index, source pair, target pair, weight. */
  datatype WeightRecord = WeightRecord(index: int, source: int, target: int, weight: real)

  /** An ordered pair (source, target) of pair-ids. */
  type Pair = (int, int)

  /** The random source: the k-th draw, counted from 0. */
  type Oracle = nat -> real

  function PairOf(r: WeightRecord): Pair {
    (r.source, r.target)
  }

  /** Strict lexicographic order on ordered pairs. */
  predicate LexLess(a: Pair, b: Pair) {
    a.0 < b.0 || (a.0 == b.0 && a.1 < b.1)
  }

  predicate StrictlySorted(ps: seq<Pair>) {
    forall a, b :: 0 <= a < b < |ps| ==> LexLess(ps[a], ps[b])
  }


  // ---------------------------------------------------------------------------
  // The enumeration order of the two nested loops
  // ---------------------------------------------------------------------------

  /** The pairs (i, j) visited by the inner loop for j in 1..last, without j == i. */
  function RowPairs(i: int, last: int): seq<Pair>
    decreases last
  {
    if last < 1 then [] else RowPairs(i, last - 1) + (if last == i then [] else [(i, last)])
  }

  /** The pairs visited by the outer loop for i in 1..last, each row over 1..n. */
  function Rows(last: int, n: int): seq<Pair>
    decreases last
  {
    if last < 1 then [] else Rows(last - 1, n) + RowPairs(last, n)
  }

  /** Every ordered pair of distinct ids in 1..n, in the order the loops visit them. */
  function Enumeration(n: int): seq<Pair> {
    Rows(n, n)
  }

  // ---------------------------------------------------------------------------
  // The generator as a fold over the visited pairs
  // ---------------------------------------------------------------------------

  /** The generator's state: the records emitted so far and the draws consumed. */
  datatype GenState = GenState(records: seq<WeightRecord>, draws: nat)

  /** One visit of a non-self pair: a selection draw, and a weight draw if selected. */
  function Visit(s: GenState, q: Pair, p: real, rand: Oracle): GenState {
    if rand(s.draws) < p then
      GenState(s.records + [WeightRecord(|s.records| + 1, q.0, q.1, rand(s.draws + 1))], s.draws + 2)
    else
      GenState(s.records, s.draws + 1)
  }

  /** The state after visiting the pairs `ps` in order, from a fresh random source. */
  function Generate(ps: seq<Pair>, p: real, rand: Oracle): GenState
    decreases |ps|
  {
    if ps == [] then GenState([], 0)
    else Visit(Generate(ps[..|ps| - 1], p, rand), ps[|ps| - 1], p, rand)
  }

  /** Whether the k-th visited pair of `ps` is selected: its selection draw is below p. */
  predicate Selected(ps: seq<Pair>, p: real, rand: Oracle, k: nat)
    requires k <= |ps|
  {
    rand(Generate(ps[..k], p, rand).draws) < p
  }

  function SelectedPositions(ps: seq<Pair>, p: real, rand: Oracle): set<nat> {
    set k: nat | k < |ps| && Selected(ps, p, rand, k)
  }

  // ---------------------------------------------------------------------------
  // gen_weights
  // ---------------------------------------------------------------------------

  /**
   * gen_weights(n, p): the nested loops, the skipped self-pairs, the 1-based
   * counter and the list append. `draws` is the state of the random source.
   */
  method GenWeights(n: int, p: real, rand: Oracle) returns (weights: seq<WeightRecord>)
    ensures weights == Generate(Enumeration(n), p, rand).records
    ensures forall k :: 0 <= k < |weights| ==> weights[k].index == k + 1
    ensures forall k :: 0 <= k < |weights| ==>
      1 <= weights[k].source <= n && 1 <= weights[k].target <= n
    ensures forall k :: 0 <= k < |weights| ==> weights[k].source != weights[k].target
    ensures forall a, b :: 0 <= a < b < |weights| ==> LexLess(PairOf(weights[a]), PairOf(weights[b]))
    ensures |weights| <= if n <= 0 then 0 else n * (n - 1)
  {
    weights := [];
    var index := 1;
    var draws: nat := 0;
    var i := 1;
    while i <= n
      invariant 1 <= i <= if n >= 1 then n + 1 else 1
      invariant GenState(weights, draws) == Generate(Rows(i - 1, n), p, rand)
      invariant index == |weights| + 1
    {
      weights, draws, index := GenRow(i, n, p, rand, Rows(i - 1, n), weights, draws, index);
      i := i + 1;
    }
    assert Rows(i - 1, n) == Enumeration(n);
    GeneratedRecords(n, p, rand);
  }

  /** gen_weights() with its default arguments: PairsCount pairs, MatchProbability. */
  method GenDefaultWeights(rand: Oracle) returns (weights: seq<WeightRecord>)
    ensures weights == Generate(Enumeration(PairsCount), MatchProbability, rand).records
    ensures |weights| <= 9900
  {
    weights := GenWeights(PairsCount, MatchProbability, rand);
  }

  /**
   * The inner loop of gen_weights for row i: j runs over 1..n, the self-pair
   * j == i is skipped, and every other pair is visited. `before` is the
   * sequence of pairs visited before this row.
   */
  method GenRow(i: int, n: int, p: real, rand: Oracle, ghost before: seq<Pair>,
                weights0: seq<WeightRecord>, draws0: nat, index0: int)
    returns (weights: seq<WeightRecord>, draws: nat, index: int)
    requires GenState(weights0, draws0) == Generate(before, p, rand)
    requires index0 == |weights0| + 1
    ensures GenState(weights, draws) == Generate(before + RowPairs(i, n), p, rand)
    ensures index == |weights| + 1
  {
    weights, draws, index := weights0, draws0, index0;
    var j := 1;
    assert before + RowPairs(i, 0) == before;
    while j <= n
      invariant 1 <= j <= if n >= 1 then n + 1 else 1
      invariant GenState(weights, draws) == Generate(before + RowPairs(i, j - 1), p, rand)
      invariant index == |weights| + 1
    {
      if i != j {
        RowVisit(before, i, j, p, rand);
        if rand(draws) < p {
          weights := weights + [WeightRecord(index, i, j, rand(draws + 1))];
          index := index + 1;
          draws := draws + 2;
        } else {
          draws := draws + 1;
        }
      } else {
        RowSkip(before, i, j, p, rand);
      }
      j := j + 1;
    }
    assert before + RowPairs(i, j - 1) == before + RowPairs(i, n);
  }

  /** What the emitted list promises, whatever the draws. */
  lemma GeneratedRecords(n: int, p: real, rand: Oracle)
    ensures var ws := Generate(Enumeration(n), p, rand).records;
      (forall k :: 0 <= k < |ws| ==> ws[k].index == k + 1) &&
      (forall k :: 0 <= k < |ws| ==> 1 <= ws[k].source <= n && 1 <= ws[k].target <= n) &&
      (forall k :: 0 <= k < |ws| ==> ws[k].source != ws[k].target) &&
      (forall a, b :: 0 <= a < b < |ws| ==> LexLess(PairOf(ws[a]), PairOf(ws[b]))) &&
      |ws| <= if n <= 0 then 0 else n * (n - 1)
  {
    var ws := Generate(Enumeration(n), p, rand).records;
    EnumerationFacts(n);
    GenerateFacts(Enumeration(n), p, rand);
    GenerateSorted(Enumeration(n), p, rand);
    forall k | 0 <= k < |ws| ensures 1 <= ws[k].source <= n && 1 <= ws[k].target <= n && ws[k].source != ws[k].target {
      assert PairOf(ws[k]) in Enumeration(n);
    }
  }

  // ---------------------------------------------------------------------------
  // Lemmas about the enumeration
  // ---------------------------------------------------------------------------

  lemma SortedConcat(xs: seq<Pair>, ys: seq<Pair>)
    requires StrictlySorted(xs) && StrictlySorted(ys)
    requires forall a, b :: 0 <= a < |xs| && 0 <= b < |ys| ==> LexLess(xs[a], ys[b])
    ensures StrictlySorted(xs + ys)
  {
    var zs := xs + ys;
    forall a, b | 0 <= a < b < |zs| ensures LexLess(zs[a], zs[b]) {
      if b < |xs| {
      } else if a < |xs| {
        assert zs[a] == xs[a] && zs[b] == ys[b - |xs|];
      } else {
        assert zs[a] == ys[a - |xs|] && zs[b] == ys[b - |xs|];
      }
    }
  }

  /** The inner loop's row: exactly the (i, m) with 1 <= m <= last and m != i, in increasing m. */
  lemma {:induction false} RowPairsFacts(i: int, last: int)
    ensures forall q :: q in RowPairs(i, last) <==> q.0 == i && 1 <= q.1 <= last && q.1 != i
    ensures forall a, b :: 0 <= a < b < |RowPairs(i, last)| ==> RowPairs(i, last)[a].1 < RowPairs(i, last)[b].1
    ensures StrictlySorted(RowPairs(i, last))
    decreases last
  {
    if last >= 1 {
      RowPairsFacts(i, last - 1);
      var xs := RowPairs(i, last - 1);
      var ys: seq<Pair> := if last == i then [] else [(i, last)];
      forall a, b | 0 <= a < |xs| && 0 <= b < |ys| ensures xs[a].1 < ys[b].1 && LexLess(xs[a], ys[b]) {
        assert xs[a] in xs;
      }
      SortedConcat(xs, ys);
      var zs := xs + ys;
      forall a, b | 0 <= a < b < |zs| ensures zs[a].1 < zs[b].1 {
        if b >= |xs| {
          assert zs[a] == xs[a] && zs[b] == ys[b - |xs|];
        }
      }
    }
  }

  /** The outer loop up to row `last`: every (i, j) with 1 <= i <= last, 1 <= j <= n, i != j, sorted. */
  lemma {:induction false} RowsFacts(last: int, n: int)
    ensures forall q :: q in Rows(last, n) <==> 1 <= q.0 <= last && 1 <= q.1 <= n && q.0 != q.1
    ensures StrictlySorted(Rows(last, n))
    decreases last
  {
    if last >= 1 {
      RowsFacts(last - 1, n);
      RowPairsFacts(last, n);
      var xs := Rows(last - 1, n);
      var ys := RowPairs(last, n);
      forall a, b | 0 <= a < |xs| && 0 <= b < |ys| ensures LexLess(xs[a], ys[b]) {
        assert xs[a] in xs && ys[b] in ys;
      }
      SortedConcat(xs, ys);
    }
  }

  /** Row i over 1..last has last entries, one fewer when it contains the skipped self-pair. */
  lemma {:induction false} RowPairsLength(i: int, last: int)
    requires last >= 0
    ensures |RowPairs(i, last)| == if 1 <= i <= last then last - 1 else last
    decreases last
  {
    if last >= 1 {
      RowPairsLength(i, last - 1);
    }
  }

  /** The first `last` rows hold n - 1 pairs each. */
  lemma {:induction false} RowsLength(last: int, n: int)
    requires 0 <= last <= n
    ensures |Rows(last, n)| == last * (n - 1)
    decreases last
  {
    if last >= 1 {
      RowsLength(last - 1, n);
      RowPairsLength(last, n);
      assert (last - 1) * (n - 1) + (n - 1) == last * (n - 1);
    }
  }

  /** The enumeration holds exactly the n * (n - 1) ordered pairs of distinct ids in 1..n, sorted. */
  lemma EnumerationFacts(n: int)
    ensures forall q :: q in Enumeration(n) <==> 1 <= q.0 <= n && 1 <= q.1 <= n && q.0 != q.1
    ensures StrictlySorted(Enumeration(n))
    ensures |Enumeration(n)| == if n <= 0 then 0 else n * (n - 1)
  {
    RowsFacts(n, n);
    if n >= 0 {
      RowsLength(n, n);
    }
  }

  // ---------------------------------------------------------------------------
  // Lemmas about the generator fold
  // ---------------------------------------------------------------------------

  /** The inner loop's step at a pair (i, j) with j != i: that pair is visited. */
  lemma RowVisit(before: seq<Pair>, i: int, j: int, p: real, rand: Oracle)
    requires j >= 1 && i != j
    ensures Generate(before + RowPairs(i, j), p, rand) ==
      Visit(Generate(before + RowPairs(i, j - 1), p, rand), (i, j), p, rand)
  {
    assert before + RowPairs(i, j) == (before + RowPairs(i, j - 1)) + [(i, j)];
    GenerateSnoc(before + RowPairs(i, j - 1), (i, j), p, rand);
  }

  /** The inner loop's step at the self-pair (i, i): nothing is visited. */
  lemma RowSkip(before: seq<Pair>, i: int, j: int, p: real, rand: Oracle)
    requires j >= 1 && i == j
    ensures Generate(before + RowPairs(i, j), p, rand) == Generate(before + RowPairs(i, j - 1), p, rand)
  {
    assert before + RowPairs(i, j) == before + RowPairs(i, j - 1);
  }

  lemma GenerateSnoc(ps: seq<Pair>, q: Pair, p: real, rand: Oracle)
    ensures Generate(ps + [q], p, rand) == Visit(Generate(ps, p, rand), q, p, rand)
  {
    assert (ps + [q])[..|ps|] == ps;
  }

  /**
   * Indices are consecutive from 1, every record names a visited pair, at most
   * one record per visited pair, and each visit consumes one draw plus one more
   * per emitted record.
   */
  lemma {:induction false} GenerateFacts(ps: seq<Pair>, p: real, rand: Oracle)
    ensures |Generate(ps, p, rand).records| <= |ps|
    ensures Generate(ps, p, rand).draws == |ps| + |Generate(ps, p, rand).records|
    ensures forall k :: 0 <= k < |Generate(ps, p, rand).records| ==>
      Generate(ps, p, rand).records[k].index == k + 1 && PairOf(Generate(ps, p, rand).records[k]) in ps
    decreases |ps|
  {
    if ps != [] {
      var init := ps[..|ps| - 1];
      GenerateFacts(init, p, rand);
      var rs := Generate(ps, p, rand).records;
      forall k | 0 <= k < |rs| ensures PairOf(rs[k]) in ps {
        if k < |Generate(init, p, rand).records| {
          assert PairOf(rs[k]) in init;
        } else {
          assert PairOf(rs[k]) == ps[|ps| - 1];
        }
      }
    }
  }

  /** The records of the first m visits are a prefix; the later records name pairs visited after m. */
  lemma {:induction false} GenerateSplit(ps: seq<Pair>, m: nat, p: real, rand: Oracle)
    requires m <= |ps|
    ensures Generate(ps[..m], p, rand).records <= Generate(ps, p, rand).records
    ensures forall k :: |Generate(ps[..m], p, rand).records| <= k < |Generate(ps, p, rand).records| ==>
      PairOf(Generate(ps, p, rand).records[k]) in ps[m..]
    decreases |ps|
  {
    if m < |ps| {
      var init := ps[..|ps| - 1];
      assert init[..m] == ps[..m];
      GenerateSplit(init, m, p, rand);
      var rs := Generate(ps, p, rand).records;
      var pre := Generate(ps[..m], p, rand).records;
      forall k | |pre| <= k < |rs| ensures PairOf(rs[k]) in ps[m..] {
        if k < |Generate(init, p, rand).records| {
          assert PairOf(rs[k]) in init[m..];
          assert init[m..] <= ps[m..];
        } else {
          assert PairOf(rs[k]) == ps[|ps| - 1];
          assert ps[|ps| - 1] == ps[m..][|ps| - 1 - m];
        }
      }
    } else {
      assert ps[..m] == ps;
    }
  }

  /** Records come in the visiting order: a strictly sorted visit order gives strictly sorted records. */
  lemma {:induction false} GenerateSorted(ps: seq<Pair>, p: real, rand: Oracle)
    requires StrictlySorted(ps)
    ensures forall a, b :: 0 <= a < b < |Generate(ps, p, rand).records| ==>
      LexLess(PairOf(Generate(ps, p, rand).records[a]), PairOf(Generate(ps, p, rand).records[b]))
    decreases |ps|
  {
    if ps != [] {
      var init := ps[..|ps| - 1];
      GenerateSorted(init, p, rand);
      GenerateFacts(init, p, rand);
      var pre := Generate(init, p, rand).records;
      var rs := Generate(ps, p, rand).records;
      forall a, b | 0 <= a < b < |rs| ensures LexLess(PairOf(rs[a]), PairOf(rs[b])) {
        if b >= |pre| {
          assert PairOf(rs[a]) in init;
          var c :| 0 <= c < |init| && init[c] == PairOf(rs[a]);
          assert PairOf(rs[b]) == ps[|ps| - 1];
        }
      }
    }
  }

  /**
   * The k-th visited pair is emitted exactly when its selection draw is below p;
   * it is then the next record, with the following draw as its weight.
   */
  lemma SelectionDecides(ps: seq<Pair>, p: real, rand: Oracle, k: nat)
    requires k < |ps|
    requires forall a, b :: 0 <= a < b < |ps| ==> ps[a] != ps[b]
    ensures var before := Generate(ps[..k], p, rand);
      Selected(ps, p, rand, k) ==>
        |before.records| < |Generate(ps, p, rand).records| &&
        Generate(ps, p, rand).records[|before.records|] ==
          WeightRecord(|before.records| + 1, ps[k].0, ps[k].1, rand(before.draws + 1))
    ensures !Selected(ps, p, rand, k) ==>
      forall r :: r in Generate(ps, p, rand).records ==> PairOf(r) != ps[k]
  {
    var before := Generate(ps[..k], p, rand);
    var rs := Generate(ps, p, rand).records;
    assert ps[..k + 1][..k] == ps[..k];
    assert Generate(ps[..k + 1], p, rand) == Visit(before, ps[k], p, rand);
    GenerateSplit(ps, k + 1, p, rand);
    if !Selected(ps, p, rand, k) {
      GenerateFacts(ps[..k], p, rand);
      forall r | r in rs ensures PairOf(r) != ps[k] {
        var c :| 0 <= c < |rs| && rs[c] == r;
        if c < |before.records| {
          assert rs[c] == before.records[c];
          assert PairOf(r) in ps[..k];
        } else {
          assert PairOf(r) in ps[k + 1..];
        }
      }
    }
  }

  /** The number of records is the number of selected visits. */
  lemma {:induction false} GenerateCount(ps: seq<Pair>, p: real, rand: Oracle)
    ensures |Generate(ps, p, rand).records| == |SelectedPositions(ps, p, rand)|
    decreases |ps|
  {
    if ps == [] {
      assert SelectedPositions(ps, p, rand) == {};
    } else {
      var init := ps[..|ps| - 1];
      GenerateCount(init, p, rand);
      SelectedSnoc(ps, p, rand);
    }
  }

  /** The positions selected in `ps` are those selected in all but its last pair, plus possibly the last. */
  lemma SelectedSnoc(ps: seq<Pair>, p: real, rand: Oracle)
    requires ps != []
    ensures var last := |ps| - 1;
      SelectedPositions(ps, p, rand) ==
        SelectedPositions(ps[..last], p, rand) + (if Selected(ps, p, rand, last) then {last} else {})
    ensures |ps| - 1 !in SelectedPositions(ps[..|ps| - 1], p, rand)
  {
    var last := |ps| - 1;
    var init := ps[..last];
    assert ps[..last] == init;
    var s := SelectedPositions(init, p, rand);
    var extra: set<nat> := if Selected(ps, p, rand, last) then {last} else {};
    forall k: nat ensures k in SelectedPositions(ps, p, rand) <==> k in s + extra {
      if k < last {
        assert ps[..k] == init[..k];
      }
    }
  }

  /** With draws in [0, 1), as the uniform generator gives, every weight lies in [0, 1). */
  lemma {:induction false} GenerateWeightRange(ps: seq<Pair>, p: real, rand: Oracle)
    requires forall k: nat :: 0.0 <= rand(k) < 1.0
    ensures forall r :: r in Generate(ps, p, rand).records ==> 0.0 <= r.weight < 1.0
    decreases |ps|
  {
    if ps != [] {
      GenerateWeightRange(ps[..|ps| - 1], p, rand);
    }
  }

  /** For n <= 1 there is no pair of distinct ids, so nothing is emitted whatever the draws. */
  lemma NoPairsNoRecords(n: int, p: real, rand: Oracle)
    requires n <= 1
    ensures Generate(Enumeration(n), p, rand).records == []
  {
    EnumerationFacts(n);
    GenerateFacts(Enumeration(n), p, rand);
  }
}
