/**
 * Greedy, class-agnostic non-maximum suppression over the raw candidate rows
 * of the detector (EdgeDetectionServer.nms).
 */
module Nms {
  import opened Wrappers

  /** One candidate row `(x1, y1, x2, y2, conf, cls)` in the 640x640 model frame. */
  datatype Row = Row(x1: real, y1: real, x2: real, y2: real, conf: real, cls: real)

  /** The constant added to the union before dividing (1e-16). */
  const Eps: real := 0.0000000000000001

  function Max(a: real, b: real): real { if a >= b then a else b }
  function Min(a: real, b: real): real { if a <= b then a else b }

  /** Area of the axis-aligned intersection of two boxes; never negative. */
  function Intersection(a: Row, b: Row): real
  {
    Max(0.0, Min(a.x2, b.x2) - Max(a.x1, b.x1)) * Max(0.0, Min(a.y2, b.y2) - Max(a.y1, b.y1))
  }

  function Area(a: Row): real { (a.x2 - a.x1) * (a.y2 - a.y1) }

  /** `union + 1e-16` for the kept box `a` and the candidate `b`. */
  function Denominator(a: Row, b: Row): real
  {
    Area(a) + Area(b) - Intersection(a, b) + Eps
  }

  /**
   * Candidate `b` is kept next to the kept box `a`: `iou <= iou_thres`.
   * A zero denominator yields inf or nan in floating point, and neither
   * passes the `<=` test, so such a candidate is discarded.
   */
  predicate Survives(a: Row, b: Row, t: real)
  {
    Denominator(a, b) != 0.0 && Intersection(a, b) / Denominator(a, b) <= t
  }

  lemma SurvivesSymmetric(a: Row, b: Row, t: real)
    ensures Survives(a, b, t) == Survives(b, a, t)
  {
    assert Intersection(a, b) == Intersection(b, a);
  }

  /** Confidences never increase along `s`. */
  ghost predicate NonIncreasing(s: seq<Row>)
  {
    forall i, j :: 0 <= i < j < |s| ==> s[i].conf >= s[j].conf
  }

  /** `s` is `xs` reordered by descending confidence, ties in any order. */
  ghost predicate IsConfOrder(s: seq<Row>, xs: seq<Row>)
  {
    multiset(s) == multiset(xs) && NonIncreasing(s)
  }

  /** The sort of `np.argsort(-conf)`: deterministic, not stable. */
  type Sorter = seq<Row> -> seq<Row>

  /** What the model relies on from the sort: every result is a confidence order of its input. */
  ghost predicate AdmissibleSort(sort: Sorter)
  {
    forall xs :: IsConfOrder(sort(xs), xs)
  }

  /** Every later box of `k` survives every earlier one. */
  ghost predicate PairwiseSurvive(k: seq<Row>, t: real)
  {
    forall i, j :: 0 <= i < j < |k| ==> Survives(k[i], k[j], t)
  }

  /** Any two distinct occurrences in `m` survive each other. */
  ghost predicate MutuallySurvive(m: multiset<Row>, t: real)
  {
    forall a, b :: a in m && b in m - multiset{a} ==> Survives(a, b, t)
  }

  /** `c` was discarded by a kept box whose confidence is at least its own. */
  ghost predicate Suppressed(c: Row, k: seq<Row>, t: real)
  {
    exists j :: 0 <= j < |k| && k[j].conf >= c.conf && !Survives(k[j], c, t)
  }

  /** The rows of the confidence mask `prediction[..., 4] > conf_thres`, in input order. */
  function Above(xs: seq<Row>, c: real): (r: seq<Row>)
    ensures |r| <= |xs|
    ensures forall i :: 0 <= i < |r| ==> r[i].conf > c
  {
    if xs == [] then []
    else (if xs[0].conf > c then [xs[0]] else []) + Above(xs[1..], c)
  }

  /** The rows `x[inds + 1]` that remain after the head `h` is kept. */
  function Survivors(h: Row, xs: seq<Row>, t: real): (r: seq<Row>)
    ensures |r| <= |xs|
    ensures forall i :: 0 <= i < |r| ==> Survives(h, r[i], t)
  {
    if xs == [] then []
    else (if Survives(h, xs[0], t) then [xs[0]] else []) + Survivors(h, xs[1..], t)
  }

  /** The keep list of the suppression loop, run on the sorted rows `s`. */
  function Greedy(s: seq<Row>, t: real): (r: seq<Row>)
    ensures |r| <= |s|
    ensures s != [] ==> r != [] && r[0] == s[0]
    decreases |s|
  {
    if s == [] then []
    else [s[0]] + Greedy(Survivors(s[0], s[1..], t), t)
  }

  /** The mask keeps exactly the rows of confidence above the threshold. */
  lemma {:induction false} AboveMembers(xs: seq<Row>, c: real, b: Row)
    ensures b in Above(xs, c) <==> b in xs && b.conf > c
  {
    if xs != [] {
      AboveMembers(xs[1..], c, b);
      assert xs == [xs[0]] + xs[1..];
    }
  }

  /** Masking drops rows and duplicates none. */
  lemma {:induction false} AboveSubMultiset(xs: seq<Row>, c: real)
    ensures multiset(Above(xs, c)) <= multiset(xs)
  {
    if xs != [] {
      AboveSubMultiset(xs[1..], c);
      assert xs == [xs[0]] + xs[1..];
    }
  }

  /** The rows kept after the head are exactly the rows that pass the overlap test. */
  lemma {:induction false} SurvivorsMembers(h: Row, xs: seq<Row>, t: real, b: Row)
    ensures b in Survivors(h, xs, t) <==> b in xs && Survives(h, b, t)
  {
    if xs != [] {
      SurvivorsMembers(h, xs[1..], t, b);
      assert xs == [xs[0]] + xs[1..];
    }
  }

  lemma {:induction false} SurvivorsSubMultiset(h: Row, xs: seq<Row>, t: real)
    ensures multiset(Survivors(h, xs, t)) <= multiset(xs)
  {
    if xs != [] {
      SurvivorsSubMultiset(h, xs[1..], t);
      assert xs == [xs[0]] + xs[1..];
    }
  }

  /** Only input rows are kept. */
  lemma {:induction false} GreedyMembers(s: seq<Row>, t: real, b: Row)
    requires b in Greedy(s, t)
    ensures b in s
    decreases |s|
  {
    var f := Survivors(s[0], s[1..], t);
    assert Greedy(s, t) == [s[0]] + Greedy(f, t);
    if b != s[0] {
      GreedyMembers(f, t, b);
      SurvivorsMembers(s[0], s[1..], t, b);
    }
  }

  /** No row is kept more often than it occurs. */
  lemma {:induction false} GreedySubMultiset(s: seq<Row>, t: real)
    ensures multiset(Greedy(s, t)) <= multiset(s)
    decreases |s|
  {
    if s != [] {
      var f := Survivors(s[0], s[1..], t);
      GreedySubMultiset(f, t);
      SurvivorsSubMultiset(s[0], s[1..], t);
      assert s == [s[0]] + s[1..];
      assert Greedy(s, t) == [s[0]] + Greedy(f, t);
    }
  }

  /** The value returned by `nms`: `None` stands for `[None]`. */
  function NmsSpec(prediction: seq<Row>, c: real, t: real, sort: Sorter): Option<seq<Row>>
  {
    var x := Above(prediction, c);
    if x == [] then None else Some(Greedy(sort(x), t))
  }

  /** `nms`: mask, sort, then run the suppression loop on the sorted rows. */
  method Suppress(prediction: seq<Row>, confThres: real, iouThres: real, sort: Sorter)
    returns (r: Option<seq<Row>>)
    requires AdmissibleSort(sort)
    ensures r == NmsSpec(prediction, confThres, iouThres, sort)
    ensures r.None? <==> forall b :: b in prediction ==> b.conf <= confThres
    ensures r.Some? ==> |r.value| >= 1
  {
    var masked := Above(prediction, confThres);
    if masked == [] {
      forall b | b in prediction ensures b.conf <= confThres {
        AboveMembers(prediction, confThres, b);
      }
      return None;
    }
    AboveMembers(prediction, confThres, masked[0]);
    var x := sort(masked);
    NonEmptyOrder(x, masked);
    var keep := SuppressionLoop(x, iouThres);
    r := Some(keep);
  }

  /** The `while len(x) > 0` loop: keep `x[0]`, then keep only the rows that survive it. */
  method SuppressionLoop(sorted: seq<Row>, iouThres: real) returns (keep: seq<Row>)
    ensures keep == Greedy(sorted, iouThres)
  {
    var x := sorted;
    keep := [];
    while |x| > 0
      invariant keep + Greedy(x, iouThres) == Greedy(sorted, iouThres)
      decreases |x|
    {
      ghost var before := x;
      keep := keep + [x[0]];
      if |x| == 1 {
        assert Greedy(x, iouThres) == [x[0]] + Greedy([], iouThres);
        x := [];
        break;
      }
      x := Survivors(x[0], x[1..], iouThres);
      assert Greedy(before, iouThres) == [before[0]] + Greedy(x, iouThres);
    }
    assert keep == Greedy(sorted, iouThres);
  }

  lemma NonEmptyOrder(s: seq<Row>, xs: seq<Row>)
    requires IsConfOrder(s, xs) && xs != []
    ensures s != []
  {
    assert xs[0] in multiset(xs);
  }

  lemma {:induction false} SurvivorsNonIncreasing(h: Row, xs: seq<Row>, t: real)
    requires NonIncreasing(xs)
    ensures NonIncreasing(Survivors(h, xs, t))
  {
    if xs != [] {
      var tail := xs[1..];
      assert NonIncreasing(tail);
      SurvivorsNonIncreasing(h, tail, t);
      var rest := Survivors(h, tail, t);
      forall i | 0 <= i < |rest| ensures xs[0].conf >= rest[i].conf {
        SurvivorsMembers(h, tail, t, rest[i]);
        var m :| 0 <= m < |tail| && tail[m] == rest[i];
        assert xs[m + 1] == rest[i];
      }
      var r := Survivors(h, xs, t);
      assert r == (if Survives(h, xs[0], t) then [xs[0]] else []) + rest;
      forall i, j | 0 <= i < j < |r| ensures r[i].conf >= r[j].conf {
        if Survives(h, xs[0], t) {
          if i == 0 {
            assert r[j] == rest[j - 1];
          } else {
            assert r[i] == rest[i - 1] && r[j] == rest[j - 1];
          }
        }
      }
    }
  }

  /** The keep list of a sorted input is itself sorted. */
  lemma {:induction false} GreedyNonIncreasing(s: seq<Row>, t: real)
    requires NonIncreasing(s)
    ensures NonIncreasing(Greedy(s, t))
    decreases |s|
  {
    if s != [] {
      var tail := s[1..];
      var f := Survivors(s[0], tail, t);
      assert NonIncreasing(tail);
      SurvivorsNonIncreasing(s[0], tail, t);
      GreedyNonIncreasing(f, t);
      var g := Greedy(f, t);
      var r := Greedy(s, t);
      assert r == [s[0]] + g;
      forall j | 0 <= j < |g| ensures s[0].conf >= g[j].conf {
        GreedyMembers(f, t, g[j]);
        SurvivorsMembers(s[0], tail, t, g[j]);
        var m :| 0 <= m < |tail| && tail[m] == g[j];
        assert s[m + 1] == g[j];
      }
      forall i, j | 0 <= i < j < |r| ensures r[i].conf >= r[j].conf {
        if i == 0 {
          assert r[j] == g[j - 1];
        } else {
          assert r[i] == g[i - 1] && r[j] == g[j - 1];
        }
      }
    }
  }

  /** Every later kept box passed the overlap test against every earlier kept box. */
  lemma {:induction false} GreedyPairwise(s: seq<Row>, t: real)
    ensures PairwiseSurvive(Greedy(s, t), t)
    decreases |s|
  {
    if s != [] {
      var f := Survivors(s[0], s[1..], t);
      GreedyPairwise(f, t);
      var g := Greedy(f, t);
      var r := Greedy(s, t);
      assert r == [s[0]] + g;
      forall i, j | 0 <= i < j < |r| ensures Survives(r[i], r[j], t) {
        if i == 0 {
          assert r[j] == g[j - 1];
          GreedyMembers(f, t, g[j - 1]);
          SurvivorsMembers(s[0], s[1..], t, g[j - 1]);
        } else {
          assert r[i] == g[i - 1] && r[j] == g[j - 1];
        }
      }
    }
  }

  lemma SubMultisetMutual(m: multiset<Row>, m': multiset<Row>, t: real)
    requires m' <= m && MutuallySurvive(m, t)
    ensures MutuallySurvive(m', t)
  {
    forall a, b | a in m' && b in m' - multiset{a} ensures Survives(a, b, t) {
      assert a in m;
      assert b in m - multiset{a};
    }
  }

  /** The keep list, as a multiset, is pairwise within the overlap threshold. */
  lemma {:induction false} GreedyMutual(s: seq<Row>, t: real)
    ensures MutuallySurvive(multiset(Greedy(s, t)), t)
    decreases |s|
  {
    if s != [] {
      var h := s[0];
      var f := Survivors(h, s[1..], t);
      GreedyMutual(f, t);
      var g := Greedy(f, t);
      assert Greedy(s, t) == [h] + g;
      var m := multiset(Greedy(s, t));
      var mg := multiset(g);
      assert m == multiset{h} + mg;
      forall a, b | a in m && b in m - multiset{a} ensures Survives(a, b, t) {
        if a == h {
          assert m - multiset{a} == mg;
          assert b in g;
          GreedyMembers(f, t, b);
          SurvivorsMembers(h, s[1..], t, b);
        } else if b == h {
          assert a in g;
          GreedyMembers(f, t, a);
          SurvivorsMembers(h, s[1..], t, a);
          SurvivesSymmetric(h, a, t);
        } else {
          assert a in mg;
          assert b in mg - multiset{a};
        }
      }
    }
  }

  /** Every sorted candidate is either kept or discarded by an earlier, stronger kept box. */
  lemma {:induction false} GreedyMaximal(s: seq<Row>, t: real, c: Row)
    requires NonIncreasing(s) && c in s
    ensures c in Greedy(s, t) || Suppressed(c, Greedy(s, t), t)
    decreases |s|
  {
    var h := s[0];
    var tail := s[1..];
    var f := Survivors(h, tail, t);
    var g := Greedy(f, t);
    var r := Greedy(s, t);
    assert r == [h] + g;
    if c != h {
      var m :| 0 <= m < |s| && s[m] == c;
      assert m > 0;
      assert tail[m - 1] == c;
      if Survives(h, c, t) {
        assert NonIncreasing(tail);
        SurvivorsNonIncreasing(h, tail, t);
        SurvivorsMembers(h, tail, t, c);
        GreedyMaximal(f, t, c);
        if c in g {
          assert c in r;
        } else {
          var j :| 0 <= j < |g| && g[j].conf >= c.conf && !Survives(g[j], c, t);
          assert r[j + 1] == g[j];
        }
      } else {
        assert r[0].conf >= c.conf && !Survives(r[0], c, t);
      }
    }
  }

  lemma {:induction false} SurvivorsAll(h: Row, xs: seq<Row>, t: real)
    requires forall i :: 0 <= i < |xs| ==> Survives(h, xs[i], t)
    ensures Survivors(h, xs, t) == xs
  {
    if xs != [] {
      SurvivorsAll(h, xs[1..], t);
      assert xs == [xs[0]] + xs[1..];
    }
  }

  /** Suppression changes nothing on rows that already survive each other. */
  lemma {:induction false} GreedyFixpoint(s: seq<Row>, t: real)
    requires MutuallySurvive(multiset(s), t)
    ensures Greedy(s, t) == s
    decreases |s|
  {
    if s != [] {
      var h := s[0];
      var tail := s[1..];
      assert s == [h] + tail;
      var m := multiset(s);
      assert multiset(tail) == m - multiset{h};
      forall i | 0 <= i < |tail| ensures Survives(h, tail[i], t) {
        assert tail[i] in multiset(tail);
      }
      SurvivorsAll(h, tail, t);
      SubMultisetMutual(m, multiset(tail), t);
      GreedyFixpoint(tail, t);
    }
  }

  lemma {:induction false} AboveAll(xs: seq<Row>, c: real)
    requires forall i :: 0 <= i < |xs| ==> xs[i].conf > c
    ensures Above(xs, c) == xs
  {
    if xs != [] {
      AboveAll(xs[1..], c);
      assert xs == [xs[0]] + xs[1..];
    }
  }

  /**
   * What `nms` promises about a non-empty result: kept rows are above-threshold
   * input rows, sorted by confidence with a maximum first, pairwise within the
   * overlap threshold, no more than the candidates, and every other candidate
   * was discarded by a kept box at least as confident.
   */
  lemma NmsKeeps(prediction: seq<Row>, c: real, t: real, sort: Sorter, k: seq<Row>)
    requires AdmissibleSort(sort)
    requires NmsSpec(prediction, c, t, sort) == Some(k)
    ensures 1 <= |k| <= |Above(prediction, c)|
    ensures multiset(k) <= multiset(Above(prediction, c))
    ensures forall b :: b in k ==> b in prediction && b.conf > c
    ensures NonIncreasing(k)
    ensures forall b :: b in prediction && b.conf > c ==> k[0].conf >= b.conf
    ensures PairwiseSurvive(k, t)
    ensures forall b :: b in prediction && b.conf > c ==> b in k || Suppressed(b, k, t)
  {
    var x := Above(prediction, c);
    var s := sort(x);
    assert IsConfOrder(s, x);
    assert k == Greedy(s, t);
    NonEmptyOrder(s, x);
    assert |s| == |x| by { assert |multiset(s)| == |multiset(x)|; }
    GreedySubMultiset(s, t);
    forall b | b in k ensures b in prediction && b.conf > c {
      GreedyMembers(s, t, b);
      assert b in multiset(x);
      AboveMembers(prediction, c, b);
    }
    GreedyNonIncreasing(s, t);
    forall b | b in prediction && b.conf > c ensures k[0].conf >= b.conf && (b in k || Suppressed(b, k, t)) {
      AboveMembers(prediction, c, b);
      assert b in multiset(s);
      var j :| 0 <= j < |s| && s[j] == b;
      assert j == 0 || s[0].conf >= s[j].conf;
      GreedyMaximal(s, t, b);
    }
    GreedyPairwise(s, t);
  }

  /**
   * Running `nms` again on its own output keeps the same multiset of boxes;
   * only the order among equal confidences may change.
   */
  lemma NmsIdempotent(prediction: seq<Row>, c: real, t: real, sort: Sorter, k: seq<Row>)
    requires AdmissibleSort(sort)
    requires NmsSpec(prediction, c, t, sort) == Some(k)
    ensures NmsSpec(k, c, t, sort).Some?
    ensures multiset(NmsSpec(k, c, t, sort).value) == multiset(k)
    ensures IsConfOrder(NmsSpec(k, c, t, sort).value, k)
  {
    NmsKeeps(prediction, c, t, sort, k);
    forall i | 0 <= i < |k| ensures k[i].conf > c {
      assert k[i] in k;
    }
    AboveAll(k, c);
    var x := Above(prediction, c);
    var s := sort(x);
    assert k == Greedy(s, t);
    GreedyMutual(s, t);
    var s2 := sort(k);
    assert IsConfOrder(s2, k);
    GreedyFixpoint(s2, t);
    NonEmptyOrder(s2, k);
  }
}
