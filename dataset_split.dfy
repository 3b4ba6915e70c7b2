/**
 * The dataset split script: pair image and label files by listing position,
 * shuffle the pairs, and cut them 8:1:1 into train, valid and test.
 */
module DatasetSplit {
  import opened Wrappers

  datatype Pair = Pair(imageFile: string, labelFile: string)

  datatype Splits = Splits(train: seq<Pair>, valid: seq<Pair>, test: seq<Pair>)

  /** `zip(*[])` has nothing to unpack into two names and raises `ValueError`. */
  datatype SplitError = NothingToSplit

  const TrainRatio: real := 0.8
  const ValidRatio: real := 0.1

  /** `min(a, b)`: the length `zip` stops at. */
  function Shorter(a: int, b: int): int
  {
    if a <= b then a else b
  }

  /** `list(zip(image_files, label_files))`: pairs by position, cut to the shorter list. */
  function Zip(images: seq<string>, labels: seq<string>): (r: seq<Pair>)
    ensures |r| == Shorter(|images|, |labels|)
    ensures forall i :: 0 <= i < |r| ==> r[i] == Pair(images[i], labels[i])
  {
    if images == [] || labels == [] then []
    else [Pair(images[0], labels[0])] + Zip(images[1..], labels[1..])
  }

  /** The first list of `zip(*pairs)`. */
  function Images(ps: seq<Pair>): seq<string>
  {
    seq(|ps|, i requires 0 <= i < |ps| => ps[i].imageFile)
  }

  /** The second list of `zip(*pairs)`. */
  function Labels(ps: seq<Pair>): seq<string>
  {
    seq(|ps|, i requires 0 <= i < |ps| => ps[i].labelFile)
  }

  /** Unzipping and zipping again gives back the same pairs. */
  lemma ZipUnzip(ps: seq<Pair>)
    ensures Zip(Images(ps), Labels(ps)) == ps
  {
    var z := Zip(Images(ps), Labels(ps));
    assert |z| == |ps|;
    forall i | 0 <= i < |ps| ensures z[i] == ps[i] {
    }
  }

  /** Unzipping what `zip` built gives back the inputs, cut to the shorter one. */
  lemma UnzipZip(images: seq<string>, labels: seq<string>)
    ensures Images(Zip(images, labels)) == images[..Shorter(|images|, |labels|)]
    ensures Labels(Zip(images, labels)) == labels[..Shorter(|images|, |labels|)]
  {
  }

  /** Random draws `randbelow(i + 1)` for each position `i`, as `random.shuffle` makes them. */
  ghost predicate ValidDraws(draws: seq<nat>, n: nat)
  {
    |draws| == n && forall i :: 0 <= i < n ==> draws[i] <= i
  }

  function Swap(s: seq<Pair>, i: nat, j: nat): seq<Pair>
    requires i < |s| && j < |s|
  {
    s[i := s[j]][j := s[i]]
  }

  lemma SwapPermutes(s: seq<Pair>, i: nat, j: nat)
    requires i < |s| && j < |s|
    ensures multiset(Swap(s, i, j)) == multiset(s)
  {
  }

  /** The swaps `random.shuffle` makes at positions `i`, `i - 1`, ..., 1. */
  function ShuffleDown(s: seq<Pair>, draws: seq<nat>, i: nat): (r: seq<Pair>)
    requires i < |s| && ValidDraws(draws, |s|)
    ensures |r| == |s|
    decreases i
  {
    if i == 0 then s else ShuffleDown(Swap(s, i, draws[i]), draws, i - 1)
  }

  /** `random.shuffle` (Fisher-Yates from the back) with the given draws. */
  function Shuffled(s: seq<Pair>, draws: seq<nat>): (r: seq<Pair>)
    requires ValidDraws(draws, |s|)
    ensures |r| == |s|
  {
    if |s| == 0 then s else ShuffleDown(s, draws, |s| - 1)
  }

  lemma {:induction false} ShuffleDownPermutes(s: seq<Pair>, draws: seq<nat>, i: nat)
    requires i < |s| && ValidDraws(draws, |s|)
    ensures multiset(ShuffleDown(s, draws, i)) == multiset(s)
    decreases i
  {
    if i > 0 {
      SwapPermutes(s, i, draws[i]);
      ShuffleDownPermutes(Swap(s, i, draws[i]), draws, i - 1);
    }
  }

  /** Shuffling only reorders: every pair is kept, none is duplicated, none is split up. */
  lemma ShufflePermutes(s: seq<Pair>, draws: seq<nat>)
    requires ValidDraws(draws, |s|)
    ensures multiset(Shuffled(s, draws)) == multiset(s)
  {
    if |s| > 0 {
      ShuffleDownPermutes(s, draws, |s| - 1);
    }
  }

  /** `random.shuffle(combined_files)` on the list in place. */
  method ShuffleInPlace(a: array<Pair>, draws: seq<nat>)
    requires ValidDraws(draws, a.Length)
    modifies a
    ensures a[..] == Shuffled(old(a[..]), draws)
  {
    if a.Length == 0 {
      return;
    }
    var i := a.Length - 1;
    while i > 0
      invariant 0 <= i < a.Length
      invariant ShuffleDown(a[..], draws, i) == Shuffled(old(a[..]), draws)
      decreases i
    {
      var j := draws[i];
      ghost var before := a[..];
      var t := a[i];
      a[i] := a[j];
      a[j] := t;
      assert a[..] == Swap(before, i, j);
      i := i - 1;
    }
  }

  /** `int(train_ratio * n)`. */
  function TrainBound(n: nat): int
  {
    (TrainRatio * n as real).Floor
  }

  /** `int((train_ratio + valid_ratio) * n)`. */
  function ValidBound(n: nat): int
  {
    ((TrainRatio + ValidRatio) * n as real).Floor
  }

  lemma FloorOfFraction(p: nat, d: nat)
    requires d > 0
    ensures (p as real / d as real).Floor == p / d
  {
    var q, m := p / d, p % d;
    var dr := d as real;
    assert p as real == q as real * dr + m as real;
    var frac := m as real / dr;
    assert 0.0 <= frac < 1.0 by {
      assert m as real < dr;
    }
    assert p as real / dr == q as real + frac;
  }

  /** The cut points are 4n/5 and 9n/10 rounded down, in order and within the list. */
  lemma BoundsExact(n: nat)
    ensures TrainBound(n) == 4 * n / 5
    ensures ValidBound(n) == 9 * n / 10
    ensures 0 <= TrainBound(n) <= ValidBound(n) <= n
  {
    assert TrainRatio * n as real == (4 * n) as real / 5 as real;
    FloorOfFraction(4 * n, 5);
    assert (TrainRatio + ValidRatio) * n as real == (9 * n) as real / 10 as real;
    FloorOfFraction(9 * n, 10);
  }

  lemma BoundsOrdered(n: nat)
    ensures 0 <= TrainBound(n) <= ValidBound(n) <= n
  {
    BoundsExact(n);
  }

  /** The copy loop: position `i` goes to train below the first bound, to valid below the second, else to test. */
  method Distribute(ps: seq<Pair>) returns (s: Splits)
    ensures s == Splits(ps[..TrainBound(|ps|)], ps[TrainBound(|ps|)..ValidBound(|ps|)], ps[ValidBound(|ps|)..])
  {
    BoundsOrdered(|ps|);
    s := DistributeAt(ps, TrainBound(|ps|), ValidBound(|ps|));
  }

  method DistributeAt(ps: seq<Pair>, tb: nat, vb: nat) returns (s: Splits)
    requires tb <= vb <= |ps|
    ensures s == Splits(ps[..tb], ps[tb..vb], ps[vb..])
  {
    var train, valid, test := [], [], [];
    var i := 0;
    while i < |ps|
      invariant 0 <= i <= |ps|
      invariant i <= tb ==> train == ps[..i] && valid == [] && test == []
      invariant tb <= i <= vb ==> train == ps[..tb] && valid == ps[tb..i] && test == []
      invariant vb <= i ==> train == ps[..tb] && valid == ps[tb..vb] && test == ps[vb..i]
    {
      if i < tb {
        assert ps[..i + 1] == ps[..i] + [ps[i]];
        train := train + [ps[i]];
      } else if i < vb {
        assert ps[tb..i + 1] == ps[tb..i] + [ps[i]];
        valid := valid + [ps[i]];
      } else {
        assert ps[vb..i + 1] == ps[vb..i] + [ps[i]];
        test := test + [ps[i]];
      }
      i := i + 1;
    }
    s := Splits(train, valid, test);
  }

  /** The three splits cover the list once, in order, with sizes 4n/5, 9n/10 - 4n/5 and the rest. */
  lemma SplitsPartition(ps: seq<Pair>)
    ensures var tb, vb := TrainBound(|ps|), ValidBound(|ps|);
      0 <= tb <= vb <= |ps|
      && ps[..tb] + ps[tb..vb] + ps[vb..] == ps
      && |ps[..tb]| == 4 * |ps| / 5
      && |ps[tb..vb]| == 9 * |ps| / 10 - 4 * |ps| / 5
      && |ps[vb..]| == |ps| - 9 * |ps| / 10
  {
    BoundsExact(|ps|);
  }

  /** The whole script on the two directory listings and the shuffle's draws. */
  method SplitDataset(images: seq<string>, labels: seq<string>, draws: seq<nat>) returns (r: Result<Splits, SplitError>)
    requires ValidDraws(draws, Shorter(|images|, |labels|))
    ensures r.Err? <==> Shorter(|images|, |labels|) == 0
    ensures r.Ok? ==>
      var s := Shuffled(Zip(images, labels), draws);
      r.value == Splits(s[..TrainBound(|s|)], s[TrainBound(|s|)..ValidBound(|s|)], s[ValidBound(|s|)..])
    ensures r.Ok? ==> multiset(r.value.train + r.value.valid + r.value.test) == multiset(Zip(images, labels))
  {
    var combined := Zip(images, labels);
    if |combined| == 0 {
      return Err(NothingToSplit);
    }
    var a := new Pair[|combined|](i requires 0 <= i < |combined| => combined[i]);
    assert a[..] == combined;
    ShuffleInPlace(a, draws);
    var shuffled := a[..];
    var imagesShuffled, labelsShuffled := Images(shuffled), Labels(shuffled);
    ZipUnzip(shuffled);
    var s := Distribute(Zip(imagesShuffled, labelsShuffled));
    SplitsPartition(shuffled);
    ShufflePermutes(combined, draws);
    r := Ok(s);
  }
}
