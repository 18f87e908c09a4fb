/** `LaplacianPyramidTransform` (Transform/LaplacianPyramidTransform.cs):
    the Laplacian pyramid of Burt and Adelson (IEEE Transactions on
    Communications, COM-31, 1983). The image type is a type parameter, so one
    model covers the matrix and the array overloads; the Gaussian pyramid's
    `downsample`, `upsample`, `sub` and `add` are parameters, each taking
    the radius where the source passes it. */
module LaplacianPyramid {
  import opened Common

  /** `J_i`: the data downsampled `i` times. */
  function Gaussian<T>(data: T, down: (T, int) -> T, radius: int, i: nat): T {
    if i == 0 then data else down(Gaussian(data, down, radius, i - 1), radius)
  }

  /** Level `i` of the pyramid with `nlev` levels: `J_i - upsample(J_{i+1})`
      below the top, `J_{nlev-1}` at the top. */
  function Level<T>(data: T, nlev: nat, i: nat, radius: int,
                    down: (T, int) -> T, up: (T, int) -> T, sub: (T, T) -> T): T
  {
    var J := Gaussian(data, down, radius, i);
    if i + 1 < nlev then sub(J, up(Gaussian(data, down, radius, i + 1), radius)) else J
  }

  function Pyramid<T>(data: T, nlev: nat, radius: int,
                      down: (T, int) -> T, up: (T, int) -> T, sub: (T, T) -> T): (p: seq<T>)
    ensures |p| == nlev
    ensures forall i :: 0 <= i < nlev ==> p[i] == Level(data, nlev, i, radius, down, up, sub)
  {
    seq(nlev, i requires 0 <= i < nlev => Level(data, nlev, i, radius, down, up, sub))
  }

  /** The image `Backward` holds after adding back levels `|p| - 2` down to
      `k`: the top level, then `add(p[k], upsample(...))`. */
  function Rebuild<T>(p: seq<T>, k: nat, radius: int, up: (T, int) -> T, add: (T, T) -> T): T
    requires k < |p|
    decreases |p| - k
  {
    if k == |p| - 1 then p[k] else add(p[k], up(Rebuild(p, k + 1, radius, up, add), radius))
  }

  /** `nlev` for an image whose smaller side is `size`: the floor of log2 of
      the size, capped by the level count. */
  function LevelCount(size: nat, levels: int): int
    requires size >= 1
  {
    if FloorLog2(size) < levels then FloorLog2(size) else levels
  }

  /** The loop of `Forward`: `nlev - 1` detail levels, then the residual
      `J`. */
  method Build<T>(data: T, nlev: nat, radius: int,
                  down: (T, int) -> T, up: (T, int) -> T, sub: (T, T) -> T) returns (lapl: seq<T>)
    requires nlev >= 1
    ensures lapl == Pyramid(data, nlev, radius, down, up, sub)
  {
    var J := data;
    lapl := [];
    for i := 0 to nlev - 1
      invariant |lapl| == i && J == Gaussian(data, down, radius, i)
      invariant forall q :: 0 <= q < i ==> lapl[q] == Level(data, nlev, q, radius, down, up, sub)
    {
      var I := down(J, radius);
      lapl := lapl + [sub(J, up(I, radius))];
      J := I;
    }
    lapl := lapl + [J];
  }

  /** The body of `Backward` from the level `top` it reads first: a `top`
      outside the pyramid is an index out of range; otherwise the loop adds
      each level from `top - 1` down to 0 to the upsampled image above it. */
  method Restore<T>(pyramid: seq<T>, top: int, radius: int, up: (T, int) -> T, add: (T, T) -> T) returns (r: Result<T>)
    ensures !(0 <= top < |pyramid|) ==> r == Err(IndexOutOfRange)
    ensures 0 <= top < |pyramid| ==> r == Ok(Rebuild(pyramid[..top + 1], 0, radius, up, add))
  {
    if !(0 <= top < |pyramid|) {
      return Err(IndexOutOfRange);
    }
    var image := pyramid[top];
    var i := top - 1;
    while i >= 0
      invariant -1 <= i < top && image == Rebuild(pyramid[..top + 1], i + 1, radius, up, add)
    {
      image := add(pyramid[i], up(image, radius));
      i := i - 1;
    }
    r := Ok(image);
  }

  /** The one law the round trips need, at one pair of images. */
  lemma AddUndoesSub<T>(add: (T, T) -> T, sub: (T, T) -> T, a: T, b: T)
    requires forall a, b :: add(sub(a, b), b) == a
    ensures add(sub(a, b), b) == a
  {
  }

  /** Below the top, adding the upsampled reconstruction of the level above
      back to a detail level gives that level's Gaussian image. */
  lemma {:induction false} RebuildRecoversGaussian<T>(data: T, nlev: nat, k: nat, radius: int,
      down: (T, int) -> T, up: (T, int) -> T, sub: (T, T) -> T, add: (T, T) -> T)
    requires k < nlev
    requires forall a, b :: add(sub(a, b), b) == a
    ensures Rebuild(Pyramid(data, nlev, radius, down, up, sub), k, radius, up, add) == Gaussian(data, down, radius, k)
    decreases nlev - k
  {
    if k + 1 < nlev {
      RebuildRecoversGaussian(data, nlev, k + 1, radius, down, up, sub, add);
      var P := Pyramid(data, nlev, radius, down, up, sub);
      var J := Gaussian(data, down, radius, k);
      var U := up(Gaussian(data, down, radius, k + 1), radius);
      assert P[k] == sub(J, U);
      AddUndoesSub(add, sub, J, U);
    }
  }

  /** The Laplacian pyramid of a given Gaussian pyramid: level `i - 1` is
      `data[i - 1] - upsample(data[i])`, the top level is copied. */
  function FromGaussianLevels<T>(g: seq<T>, radius: int, up: (T, int) -> T, sub: (T, T) -> T): (l: seq<T>)
    ensures |l| == |g|
  {
    seq(|g|, i requires 0 <= i < |g| => if i + 1 < |g| then sub(g[i], up(g[i + 1], radius)) else g[i])
  }

  /** Rebuilding the Laplacian pyramid of a Gaussian pyramid gives back every
      Gaussian level, whatever the resampling does. */
  lemma {:induction false} RebuildFromGaussian<T>(g: seq<T>, k: nat, radius: int,
      up: (T, int) -> T, sub: (T, T) -> T, add: (T, T) -> T)
    requires k < |g|
    requires forall a, b :: add(sub(a, b), b) == a
    ensures Rebuild(FromGaussianLevels(g, radius, up, sub), k, radius, up, add) == g[k]
    decreases |g| - k
  {
    if k + 1 < |g| {
      RebuildFromGaussian(g, k + 1, radius, up, sub, add);
      var U := up(g[k + 1], radius);
      assert FromGaussianLevels(g, radius, up, sub)[k] == sub(g[k], U);
      AddUndoesSub(add, sub, g[k], U);
    }
  }

  class LaplacianPyramidTransform {
    /** The maximum number of levels; the setter keeps it positive. */
    var levels: int
    /** The resampling radius; any value is accepted. */
    var radius: int

    ghost predicate Valid()
      reads this
    {
      levels >= 1
    }

    /** The parameterless constructor: `int.MaxValue` levels, radius 2. */
    constructor Default()
      ensures Valid() && levels == IntMax && radius == 2
    {
      levels := IntMax;
      radius := 2;
    }

    constructor (levels: int, radius: int)
      requires levels >= 1
      ensures Valid() && this.levels == levels && this.radius == radius
    {
      this.levels := levels;
      this.radius := radius;
    }

    /** The constructor with arguments goes through the `Levels` setter, so
        a level count of 0 or less makes construction fail. */
    static method Create(levels: int, radius: int) returns (r: Result<LaplacianPyramidTransform>)
      ensures r.Err? <==> levels <= 0
      ensures r.Err? ==> r.error == InvalidArgument
      ensures r.Ok? ==> fresh(r.value) && r.value.Valid() && r.value.levels == levels && r.value.radius == radius
    {
      if levels <= 0 {
        return Err(InvalidArgument);
      }
      var t := new LaplacianPyramidTransform(levels, radius);
      r := Ok(t);
    }

    /** The `Levels` setter: a value of 0 or less is rejected and nothing
        changes. */
    method SetLevels(value: int) returns (r: Result<()>)
      requires Valid()
      modifies this
      ensures Valid()
      ensures r.Err? <==> value <= 0
      ensures value <= 0 ==> levels == old(levels)
      ensures value > 0 ==> levels == value
      ensures radius == old(radius)
    {
      if value <= 0 {
        return Err(InvalidArgument);
      }
      levels := value;
      r := Ok(());
    }

    /** The `Radius` setter accepts any value. */
    method SetRadius(value: int)
      modifies this
      ensures radius == value && levels == old(levels)
    {
      radius := value;
    }

    /** The shared body of the `Forward` overloads over an image whose
        (smaller) side is `size`. A size of 0 makes `nlev` the conversion of
        minus infinity to `int`, and the allocation fails; a size of 1 gives
        `nlev == 0` and `lapl[nlev - 1]` is out of range. */
    method ForwardOfSize<T>(data: T, size: nat, down: (T, int) -> T, up: (T, int) -> T, sub: (T, T) -> T)
      returns (r: Result<seq<T>>)
      requires Valid()
      ensures size == 0 ==> r == Err(Overflow)
      ensures size == 1 ==> r == Err(IndexOutOfRange)
      ensures size >= 2 ==>
        LevelCount(size, levels) >= 1 && r == Ok(Pyramid(data, LevelCount(size, levels), radius, down, up, sub))
    {
      if size == 0 {
        return Err(Overflow);
      }
      var nlev := LevelCount(size, levels);
      if nlev <= 0 {
        return Err(IndexOutOfRange);
      }
      var lapl := Build(data, nlev, radius, down, up, sub);
      r := Ok(lapl);
    }

    /** `Forward(double[,])`: `nlev` is taken from the smaller side. */
    method Forward2D<T>(data: T, rows: nat, cols: nat, down: (T, int) -> T, up: (T, int) -> T, sub: (T, T) -> T)
      returns (r: Result<seq<T>>)
      requires Valid()
      ensures r.Ok? <==> rows >= 2 && cols >= 2
      ensures r.Ok? ==> r.value == Pyramid(data, LevelCount(Min(rows, cols), levels), radius, down, up, sub)
      ensures r.Ok? ==> |r.value| >= 1 && r.value[|r.value| - 1] == Gaussian(data, down, radius, |r.value| - 1)
    {
      r := ForwardOfSize(data, Min(rows, cols), down, up, sub);
    }

    /** `Forward(double[])`: `nlev` is taken from the length. */
    method Forward1D<T>(data: T, length: nat, down: (T, int) -> T, up: (T, int) -> T, sub: (T, T) -> T)
      returns (r: Result<seq<T>>)
      requires Valid()
      ensures r.Ok? <==> length >= 2
      ensures r.Ok? ==> r.value == Pyramid(data, LevelCount(length, levels), radius, down, up, sub)
    {
      r := ForwardOfSize(data, length, down, up, sub);
    }

    /** `Backward(double[][,])`: `nlev = pyramid.Length - 1`, start from the
        top level and add each lower level to the upsampled image. An empty
        pyramid is an index out of range. */
    method Backward<T>(pyramid: seq<T>, up: (T, int) -> T, add: (T, T) -> T) returns (r: Result<T>)
      ensures r.Err? <==> |pyramid| == 0
      ensures r.Err? ==> r.error == IndexOutOfRange
      ensures r.Ok? ==> r.value == Rebuild(pyramid, 0, radius, up, add)
    {
      r := Restore(pyramid, |pyramid| - 1, radius, up, add);
      assert pyramid[..|pyramid|] == pyramid;
    }

    /** `Backward(double[][])` as written: `nlev = pyramid.Length`, and the
        first read, `pyramid[nlev]`, is one past the end for every pyramid. */
    method Backward1DAsWritten<T>(pyramid: seq<T>, up: (T, int) -> T, add: (T, T) -> T) returns (r: Result<T>)
      ensures r == Err(IndexOutOfRange)
    {
      r := Restore(pyramid, |pyramid|, radius, up, add);
    }

    /** The 2D round trip: `Backward(Forward(data)) == data` whenever adding
        back what was subtracted restores an image. */
    method RoundTrip2D<T>(data: T, rows: nat, cols: nat,
                          down: (T, int) -> T, up: (T, int) -> T, sub: (T, T) -> T, add: (T, T) -> T)
      returns (r: Result<T>)
      requires Valid()
      requires forall a, b :: add(sub(a, b), b) == a
      ensures rows >= 2 && cols >= 2 ==> r == Ok(data)
      ensures !(rows >= 2 && cols >= 2) ==> r.Err?
    {
      if rows >= 2 && cols >= 2 {
        RebuildRecoversGaussian(data, LevelCount(Min(rows, cols), levels), 0, radius, down, up, sub, add);
      }
      var p := Forward2D(data, rows, cols, down, up, sub);
      if p.Err? {
        return Err(p.error);
      }
      r := Backward(p.value, up, add);
    }

    /** The 1D round trip as written never succeeds: even the pyramid
        `Forward` itself builds is rejected by `Backward`. */
    method RoundTrip1DAsWritten<T>(data: T, length: nat,
                                   down: (T, int) -> T, up: (T, int) -> T, sub: (T, T) -> T, add: (T, T) -> T)
      returns (r: Result<T>)
      requires Valid()
      ensures length >= 2 ==> r == Err(IndexOutOfRange)
      ensures r.Err?
    {
      var p := Forward1D(data, length, down, up, sub);
      if p.Err? {
        return Err(p.error);
      }
      r := Backward1DAsWritten(p.value, up, add);
    }

    /** The 1D round trip with `Backward` reading the top level at
        `pyramid.Length - 1`, as the matrix overload does. */
    method RoundTrip1D<T>(data: T, length: nat,
                          down: (T, int) -> T, up: (T, int) -> T, sub: (T, T) -> T, add: (T, T) -> T)
      returns (r: Result<T>)
      requires Valid()
      requires forall a, b :: add(sub(a, b), b) == a
      ensures length >= 2 ==> r == Ok(data)
      ensures length < 2 ==> r.Err?
    {
      if length >= 2 {
        RebuildRecoversGaussian(data, LevelCount(length, levels), 0, radius, down, up, sub, add);
      }
      var p := Forward1D(data, length, down, up, sub);
      if p.Err? {
        return Err(p.error);
      }
      r := Backward(p.value, up, add);
    }

    /** `Forward(double[][,])`: the Laplacian pyramid of a Gaussian pyramid.
        It keeps the level count, copies the top level and sets level
        `i - 1` to `data[i - 1] - upsample(data[i])`; an empty pyramid makes
        `lapl[nlev - 1]` out of range. */
    method FromGaussian<T>(data: seq<T>, up: (T, int) -> T, sub: (T, T) -> T) returns (r: Result<seq<T>>)
      ensures r.Err? <==> |data| == 0
      ensures r.Err? ==> r.error == IndexOutOfRange
      ensures r.Ok? ==> r.value == FromGaussianLevels(data, radius, up, sub)
    {
      var nlev := |data|;
      if nlev == 0 {
        return Err(IndexOutOfRange);
      }
      var lapl: seq<T> := [];
      for i := 1 to nlev
        invariant |lapl| == i - 1
        invariant forall q :: 0 <= q < i - 1 ==> lapl[q] == sub(data[q], up(data[q + 1], radius))
      {
        lapl := lapl + [sub(data[i - 1], up(data[i], radius))];
      }
      lapl := lapl + [data[nlev - 1]];
      r := Ok(lapl);
    }

    /** `Backward` after the Gaussian-to-Laplacian `Forward` gives back the
        base of the Gaussian pyramid. */
    method GaussianRoundTrip<T>(data: seq<T>, up: (T, int) -> T, sub: (T, T) -> T, add: (T, T) -> T)
      returns (r: Result<T>)
      requires forall a, b :: add(sub(a, b), b) == a
      ensures |data| == 0 ==> r == Err(IndexOutOfRange)
      ensures |data| > 0 ==> r == Ok(data[0])
    {
      if |data| > 0 {
        RebuildFromGaussian(data, 0, radius, up, sub, add);
      }
      var l := FromGaussian(data, up, sub);
      if l.Err? {
        return Err(l.error);
      }
      r := Backward(l.value, up, add);
    }
  }
}
