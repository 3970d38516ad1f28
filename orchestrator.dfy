/** `run`: the first file is the reference; every other file is compared with
    it in order, the first failure ends the run, and the largest per-pixel
    average difference is returned. */
module Orchestrator {
  import opened Wrappers
  import opened Engine

  /** The `f32` quotient `diff as f32 / count as f32`, as an exact real. A raster
      without pixels gives 0 / 0, which is NaN. */
  datatype Ratio = NaN | Num(value: real)

  function Quotient(d: DiffCount): (q: Ratio)
    requires d.count == 0 ==> d.diff == 0
    ensures q.NaN? <==> d.count == 0
    ensures q.Num? ==> 0.0 <= q.value && q.value * (d.count as real) == d.diff as real
  {
    if d.count == 0 then NaN else Num(d.diff as real / d.count as real)
  }

  /** The `f32` comparison `m > c`: false whenever either side is NaN. */
  predicate Greater(m: Ratio, c: Ratio)
    ensures (m.NaN? || c.NaN?) ==> !Greater(m, c)
    ensures m.Num? && c.Num? ==> (Greater(m, c) <==> m.value > c.value)
  {
    m.Num? && c.Num? && m.value > c.value
  }

  /** `if max > calculated { max } else { calculated }`: the larger of two
      numbers, but the new value whenever either side is NaN. */
  function Keep(max: Ratio, c: Ratio): (r: Ratio)
    ensures r == max || r == c
    ensures max.NaN? || c.NaN? ==> r == c
    ensures max.Num? && c.Num? ==> r.Num? && r.value >= max.value && r.value >= c.value
  {
    if Greater(max, c) then max else c
  }

  /** The loop of `run` over the files still to compare, from the running maximum. */
  function Fold(reference: ImageFile, rest: seq<ImageFile>, max: Ratio): Result<Ratio, Failure>
    decreases |rest|
  {
    if rest == [] then Success(max)
    else
      var d :- Comparison(reference, rest[0]);
      Fold(reference, rest[1..], Keep(max, Quotient(d)))
  }

  /** What `run(files)` produces. `files[0]` panics on an empty list. */
  function RunOf(files: seq<ImageFile>): Result<Ratio, Failure> {
    if files == [] then Failure(Panic(IndexOutOfBounds))
    else Fold(files[0], files[1..], Num(0.0))
  }

  method Run(files: seq<ImageFile>) returns (r: Result<Ratio, Failure>)
    ensures r == RunOf(files)
  {
    if |files| == 0 {
      return Failure(Panic(IndexOutOfBounds));
    }
    var reference := files[0];
    var max := Num(0.0);
    for i := 1 to |files|
      invariant RunOf(files) == Fold(reference, files[i..], max)
    {
      assert files[i..][1..] == files[i + 1..];
      var diff :- LoadImage(reference, files[i]);
      var calculated := Quotient(diff);
      max := if Greater(max, calculated) then max else calculated;
    }
    return Success(max);
  }

  // ---------------------------------------------------------------------------
  // Vocabulary for the properties of `run`, over the reference and the files
  // compared with it: `run` is called on [reference] + others.

  /** Every compared file compares successfully with the reference. */
  ghost predicate AllCompare(reference: ImageFile, others: seq<ImageFile>) {
    forall f :: f in others ==> Comparison(reference, f).Success?
  }

  /** The normalised difference of a successful comparison. */
  function RatioOf(reference: ImageFile, f: ImageFile): Ratio
    requires Comparison(reference, f).Success?
  {
    Quotient(Comparison(reference, f).value)
  }

  /** Every comparison succeeds and covers at least one pixel, so no ratio is NaN. */
  ghost predicate AllRatiosDefined(reference: ImageFile, others: seq<ImageFile>) {
    AllCompare(reference, others) && forall f :: f in others ==> RatioOf(reference, f).Num?
  }

  // ---------------------------------------------------------------------------
  // The fold

  lemma {:induction false} FoldFailsFast(reference: ImageFile, rest: seq<ImageFile>, max: Ratio, k: nat)
    requires k < |rest|
    requires forall j :: 0 <= j < k ==> Comparison(reference, rest[j]).Success?
    requires Comparison(reference, rest[k]).Failure?
    ensures Fold(reference, rest, max) == Failure(Comparison(reference, rest[k]).error)
    decreases k
  {
    if k > 0 {
      var d := Comparison(reference, rest[0]).value;
      assert forall j :: 0 <= j < k - 1 ==> rest[1..][j] == rest[j + 1];
      FoldFailsFast(reference, rest[1..], Keep(max, Quotient(d)), k - 1);
    }
  }

  lemma {:induction false} FoldSucceedsIff(reference: ImageFile, rest: seq<ImageFile>, max: Ratio)
    ensures Fold(reference, rest, max).Success? <==> AllCompare(reference, rest)
    decreases |rest|
  {
    if rest != [] {
      assert rest == [rest[0]] + rest[1..];
      if Comparison(reference, rest[0]).Success? {
        var d := Comparison(reference, rest[0]).value;
        FoldSucceedsIff(reference, rest[1..], Keep(max, Quotient(d)));
      }
    }
  }

  lemma {:induction false} FoldIsMaximum(reference: ImageFile, rest: seq<ImageFile>, acc: real)
    requires 0.0 <= acc && AllRatiosDefined(reference, rest)
    ensures Fold(reference, rest, Num(acc)).Success?
    ensures var m := Fold(reference, rest, Num(acc)).value;
      && m.Num?
      && acc <= m.value
      && (forall f :: f in rest ==> RatioOf(reference, f).value <= m.value)
      && (m.value == acc || exists f :: f in rest && RatioOf(reference, f) == m)
    decreases |rest|
  {
    if rest != [] {
      assert rest == [rest[0]] + rest[1..];
      var q := RatioOf(reference, rest[0]);
      var next := if acc > q.value then acc else q.value;
      assert Keep(Num(acc), q) == Num(next);
      FoldIsMaximum(reference, rest[1..], next);
    }
  }

  lemma {:induction false} FoldForgetsBeforeNaN(reference: ImageFile, rest: seq<ImageFile>, max: Ratio, k: nat)
    requires k < |rest|
    requires forall j :: 0 <= j <= k ==> Comparison(reference, rest[j]).Success?
    requires RatioOf(reference, rest[k]).NaN?
    ensures Fold(reference, rest, max) == Fold(reference, rest[k + 1..], NaN)
    decreases k
  {
    var d := Comparison(reference, rest[0]).value;
    if k > 0 {
      assert forall j :: 0 <= j <= k - 1 ==> rest[1..][j] == rest[j + 1];
      FoldForgetsBeforeNaN(reference, rest[1..], Keep(max, Quotient(d)), k - 1);
      assert rest[1..][k..] == rest[k + 1..];
    }
  }

  /** Starting from NaN or from 0 makes no difference once one more file is
      compared: every ratio is NaN or at least 0, and `>` is false on NaN. */
  lemma FoldFromNaN(reference: ImageFile, rest: seq<ImageFile>)
    requires rest != []
    ensures Fold(reference, rest, NaN) == Fold(reference, rest, Num(0.0))
  {
    if Comparison(reference, rest[0]).Success? {
      var q := Quotient(Comparison(reference, rest[0]).value);
      assert Keep(NaN, q) == Keep(Num(0.0), q);
    }
  }

  // ---------------------------------------------------------------------------
  // Properties of `run`

  /** With the reference alone, `run` returns 0 without opening any file, even a
      reference that cannot be opened or decoded. */
  lemma RunOnlyReference(reference: ImageFile)
    ensures RunOf([reference]) == Success(Num(0.0))
  {
  }

  /** Fail fast: the first comparison that fails decides the result, whatever
      the files after it are. */
  lemma RunFailsFast(reference: ImageFile, others: seq<ImageFile>, i: nat)
    requires i < |others|
    requires forall j :: 0 <= j < i ==> Comparison(reference, others[j]).Success?
    requires Comparison(reference, others[i]).Failure?
    ensures RunOf([reference] + others) == Failure(Comparison(reference, others[i]).error)
  {
    assert ([reference] + others)[1..] == others;
    FoldFailsFast(reference, others, Num(0.0), i);
  }

  /** `run` returns a value exactly when every other file compares successfully
      with the reference. */
  lemma RunSucceedsIff(reference: ImageFile, others: seq<ImageFile>)
    ensures RunOf([reference] + others).Success? <==> AllCompare(reference, others)
  {
    assert ([reference] + others)[1..] == others;
    FoldSucceedsIff(reference, others, Num(0.0));
  }

  /** When every comparison succeeds and covers at least one pixel, `run`
      returns a number that is at least 0, at least every per-file ratio, and
      one of them (0 when the reference is alone). */
  lemma RunIsMaximum(reference: ImageFile, others: seq<ImageFile>)
    requires AllRatiosDefined(reference, others)
    ensures RunOf([reference] + others).Success? && RunOf([reference] + others).value.Num?
    ensures var m := RunOf([reference] + others).value.value;
      && 0.0 <= m
      && (forall f :: f in others ==> RatioOf(reference, f).value <= m)
      && (others == [] ==> m == 0.0)
      && (others != [] ==> exists f :: f in others && RatioOf(reference, f) == Num(m))
  {
    assert ([reference] + others)[1..] == others;
    FoldIsMaximum(reference, others, 0.0);
    var m := RunOf([reference] + others).value.value;
    if others != [] && m == 0.0 {
      assert others[0] in others;
      assert 0.0 <= RatioOf(reference, others[0]).value <= m;
    }
  }

  /** The order of the compared files does not change the result when every
      comparison succeeds with a defined ratio: the maximum is unique. */
  lemma RunOrderIrrelevant(reference: ImageFile, others: seq<ImageFile>, shuffled: seq<ImageFile>)
    requires multiset(others) == multiset(shuffled)
    requires AllRatiosDefined(reference, others)
    ensures RunOf([reference] + others) == RunOf([reference] + shuffled)
  {
    assert forall f :: f in others <==> f in shuffled by {
      forall f ensures f in others <==> f in shuffled {
        assert f in others <==> f in multiset(others);
        assert f in shuffled <==> f in multiset(shuffled);
      }
    }
    assert others == [] <==> shuffled == [] by {
      assert |others| == |multiset(others)| == |multiset(shuffled)| == |shuffled|;
    }
    RunIsMaximum(reference, others);
    RunIsMaximum(reference, shuffled);
  }

  /** An empty raster among the comparisons makes its ratio 0 / 0 = NaN, and
      since `>` is false on NaN, `run` forgets every comparison before it: the
      result is NaN when that file is the last one, and otherwise what `run`
      gives on the reference and the files after it alone. */
  lemma RunForgetsBeforeEmptyRaster(reference: ImageFile, others: seq<ImageFile>, k: nat)
    requires k < |others|
    requires forall j :: 0 <= j <= k ==> Comparison(reference, others[j]).Success?
    requires RatioOf(reference, others[k]).NaN?
    ensures k == |others| - 1 ==> RunOf([reference] + others) == Success(NaN)
    ensures k < |others| - 1 ==> RunOf([reference] + others) == RunOf([reference] + others[k + 1..])
  {
    assert ([reference] + others)[1..] == others;
    FoldForgetsBeforeNaN(reference, others, Num(0.0), k);
    if k < |others| - 1 {
      FoldFromNaN(reference, others[k + 1..]);
      assert ([reference] + others[k + 1..])[1..] == others[k + 1..];
    }
  }
}
