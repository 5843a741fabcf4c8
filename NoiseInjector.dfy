/**
  The salt-and-pepper noise injector. `salt` whitens and `pepper` blackens
  randomly drawn samples of a grid in place; `salt_and_pepper` runs the two
  passes, each with a sample count derived from a percentage; the `addnoise`
  command checks that percentage before it copies the original grid and adds
  noise to the copy.

  The C library's `rand()` is replaced by a sequence of draws the caller
  supplies, consumed in the order the program calls `rand()`: for every sample,
  first the column draw, then the row draw.
 */
module NoiseInjector {
  import opened PixelGrid

  /** `RAND_MAX` of the C runtime the program is built against. */
  const RandMax := 0x7FFF

  /** One value returned by `rand()`. */
  type Draw = x: int | 0 <= x <= RandMax

  const White: Byte := 255
  const Black: Byte := 0

  /**
    The buffer offset of the `k`-th drawn sample: column `draws[2k] % cols`,
    row `draws[2k + 1] % rows`. Every drawn sample lies inside the grid.
   */
  function DrawnOffset(draws: seq<Draw>, k: nat, rows: nat, cols: nat): (p: nat)
    requires rows > 0 && cols > 0 && 2 * k + 1 < |draws|
    ensures p < rows * cols
  {
    var i := draws[2 * k] % cols;
    var j := draws[2 * k + 1] % rows;
    OffsetInBounds(rows, cols, j, i);
    j * cols + i
  }

  /** The drawn offset is the sample `at(j, i)`: row `draws[2k + 1] % rows`, column `draws[2k] % cols`. */
  lemma DrawnCoordinates(draws: seq<Draw>, k: nat, rows: nat, cols: nat)
    requires rows > 0 && cols > 0 && 2 * k + 1 < |draws|
    ensures DrawnOffset(draws, k, rows, cols) / cols == draws[2 * k + 1] % rows
    ensures DrawnOffset(draws, k, rows, cols) % cols == draws[2 * k] % cols
  {
    OffsetCoordinates(cols, draws[2 * k + 1] % rows, draws[2 * k] % cols);
  }

  /** What a pass of `n` draws may assume: enough draws, and a non-empty grid to take them modulo. */
  predicate CanDraw(rows: nat, cols: nat, draws: seq<Draw>, n: nat) {
    (n == 0 || (rows > 0 && cols > 0)) && 2 * n <= |draws|
  }

  /** Whether one of the first `n` draws lands on offset `p`. */
  predicate Drawn(draws: seq<Draw>, rows: nat, cols: nat, n: nat, p: nat)
    requires CanDraw(rows, cols, draws, n)
  {
    exists k :: 0 <= k < n && DrawnOffset(draws, k, rows, cols) == p
  }

  /** The samples `s` after the first `n` draws have each set their sample to `value`, in draw order. */
  function Sprinkled(s: seq<Byte>, rows: nat, cols: nat, draws: seq<Draw>, n: nat, value: Byte): (t: seq<Byte>)
    requires |s| == rows * cols && CanDraw(rows, cols, draws, n)
    ensures |t| == |s|
    decreases n
  {
    if n == 0 then s
    else Sprinkled(s, rows, cols, draws, n - 1, value)[DrawnOffset(draws, n - 1, rows, cols) := value]
  }

  /** After a pass, a sample holds `value` if some draw landed on it, and its old value otherwise. */
  lemma {:induction false} SprinkledAt(s: seq<Byte>, rows: nat, cols: nat, draws: seq<Draw>, n: nat, value: Byte, p: nat)
    requires |s| == rows * cols && CanDraw(rows, cols, draws, n) && p < |s|
    ensures Sprinkled(s, rows, cols, draws, n, value)[p] == if Drawn(draws, rows, cols, n, p) then value else s[p]
  {
    if n > 0 {
      SprinkledAt(s, rows, cols, draws, n - 1, value, p);
      if DrawnOffset(draws, n - 1, rows, cols) == p {
        assert Drawn(draws, rows, cols, n, p);
      } else if Drawn(draws, rows, cols, n, p) {
        var k :| 0 <= k < n && DrawnOffset(draws, k, rows, cols) == p;
        assert Drawn(draws, rows, cols, n - 1, p);
      } else {
        assert !Drawn(draws, rows, cols, n - 1, p);
      }
    }
  }

  /** One pass over `image`: `n` drawn samples set to `value` (the loop shared by `salt` and `pepper`). */
  method Sprinkle(image: array<Byte>, rows: nat, cols: nat, n: nat, draws: seq<Draw>, value: Byte)
    requires image.Length == rows * cols && CanDraw(rows, cols, draws, n)
    modifies image
    ensures image[..] == Sprinkled(old(image[..]), rows, cols, draws, n, value)
  {
    for k := 0 to n
      invariant image[..] == Sprinkled(old(image[..]), rows, cols, draws, k, value)
    {
      var i := draws[2 * k] % cols;
      var j := draws[2 * k + 1] % rows;
      OffsetInBounds(rows, cols, j, i);
      ghost var before := image[..];
      image[j * cols + i] := value;
      assert image[..] == before[DrawnOffset(draws, k, rows, cols) := value];
    }
  }

  /** `salt`: `n` drawn samples set to 255. */
  method Salt(image: array<Byte>, rows: nat, cols: nat, n: nat, draws: seq<Draw>)
    requires image.Length == rows * cols && CanDraw(rows, cols, draws, n)
    modifies image
    ensures image[..] == Sprinkled(old(image[..]), rows, cols, draws, n, White)
  {
    Sprinkle(image, rows, cols, n, draws, White);
  }

  /** `pepper`: `n` drawn samples set to 0. */
  method Pepper(image: array<Byte>, rows: nat, cols: nat, n: nat, draws: seq<Draw>)
    requires image.Length == rows * cols && CanDraw(rows, cols, draws, n)
    modifies image
    ensures image[..] == Sprinkled(old(image[..]), rows, cols, draws, n, Black)
  {
    Sprinkle(image, rows, cols, n, draws, Black);
  }

  /** `noise` in `salt_and_pepper`: the pixel count times the percentage, over 200, rounded down. */
  function NoiseCount(pixels: nat, percent: nat): nat {
    pixels * percent / 200
  }

  /** Each pass touches at most half the pixels when the percentage is at most 100, and none at 0 percent. */
  lemma NoiseCountBounds(pixels: nat, percent: nat)
    ensures NoiseCount(pixels, 0) == 0
    ensures percent <= 100 ==> 2 * NoiseCount(pixels, percent) <= pixels
    ensures NoiseCount(pixels, 100) == pixels / 2
  {
    if percent <= 100 {
      assert pixels * percent <= pixels * 100;
    }
  }

  /** A pass that draws anything needs a non-empty grid. */
  lemma NoiseNeedsPixels(rows: nat, cols: nat, percent: nat)
    ensures NoiseCount(rows * cols, percent) == 0 || (rows > 0 && cols > 0)
  {
    if rows == 0 || cols == 0 {
      assert rows * cols == 0;
    }
  }

  /** The draws `salt_and_pepper` needs: two per sample, for both passes. */
  predicate EnoughDraws(rows: nat, cols: nat, percent: nat, draws: seq<Draw>) {
    4 * NoiseCount(rows * cols, percent) <= |draws|
  }

  /** The samples after `salt_and_pepper`: the salt pass on the first draws, then the pepper pass on the draws that follow. */
  function Noisy(s: seq<Byte>, rows: nat, cols: nat, percent: nat, draws: seq<Draw>): (t: seq<Byte>)
    requires |s| == rows * cols && EnoughDraws(rows, cols, percent, draws)
    ensures |t| == |s|
  {
    var n := NoiseCount(rows * cols, percent);
    NoiseNeedsPixels(rows, cols, percent);
    Sprinkled(Sprinkled(s, rows, cols, draws, n, White), rows, cols, draws[2 * n..], n, Black)
  }

  /** `salt_and_pepper`: the salt pass, then the pepper pass, on the same buffer. */
  method SaltAndPepper(image: array<Byte>, rows: nat, cols: nat, percent: nat, draws: seq<Draw>)
    requires image.Length == rows * cols && EnoughDraws(rows, cols, percent, draws)
    modifies image
    ensures image[..] == Noisy(old(image[..]), rows, cols, percent, draws)
  {
    var noise := NoiseCount(rows * cols, percent);
    NoiseNeedsPixels(rows, cols, percent);
    Salt(image, rows, cols, noise, draws);
    Pepper(image, rows, cols, noise, draws[2 * noise..]);
  }

  /**
    Every sample after `salt_and_pepper`: black if a pepper draw landed on it
    (pepper runs last, so it wins), else white if a salt draw did, else unchanged.
   */
  lemma NoisyAt(s: seq<Byte>, rows: nat, cols: nat, percent: nat, draws: seq<Draw>, p: nat)
    requires |s| == rows * cols && EnoughDraws(rows, cols, percent, draws) && p < |s|
    ensures var n := NoiseCount(rows * cols, percent);
      Noisy(s, rows, cols, percent, draws)[p] ==
        if Drawn(draws[2 * n..], rows, cols, n, p) then Black
        else if Drawn(draws, rows, cols, n, p) then White
        else s[p]
  {
    var n := NoiseCount(rows * cols, percent);
    NoiseNeedsPixels(rows, cols, percent);
    SprinkledAt(s, rows, cols, draws, n, White, p);
    SprinkledAt(Sprinkled(s, rows, cols, draws, n, White), rows, cols, draws[2 * n..], n, Black, p);
  }

  /** At 0 percent the grid comes out unchanged. */
  lemma ZeroPercentUnchanged(s: seq<Byte>, rows: nat, cols: nat, draws: seq<Draw>)
    requires |s| == rows * cols
    ensures EnoughDraws(rows, cols, 0, draws)
    ensures Noisy(s, rows, cols, 0, draws) == s
  {
    NoiseCountBounds(rows * cols, 0);
  }

  /** The offsets the first `n` draws land on. */
  function DrawnSet(draws: seq<Draw>, rows: nat, cols: nat, n: nat): (d: set<nat>)
    requires CanDraw(rows, cols, draws, n)
    ensures forall p :: p in d <==> Drawn(draws, rows, cols, n, p)
  {
    set k | 0 <= k < n :: DrawnOffset(draws, k, rows, cols)
  }

  /** A pass of `n` draws lands on at most `n` distinct samples (repeated draws are not skipped). */
  lemma {:induction false} DrawnSetSize(draws: seq<Draw>, rows: nat, cols: nat, n: nat)
    requires CanDraw(rows, cols, draws, n)
    ensures |DrawnSet(draws, rows, cols, n)| <= n
  {
    if n > 0 {
      DrawnSetSize(draws, rows, cols, n - 1);
      assert DrawnSet(draws, rows, cols, n)
        == DrawnSet(draws, rows, cols, n - 1) + {DrawnOffset(draws, n - 1, rows, cols)};
    }
  }

  /** `salt_and_pepper` changes at most twice `noise` samples, and only to black or white. */
  lemma NoisyChangesFew(s: seq<Byte>, rows: nat, cols: nat, percent: nat, draws: seq<Draw>)
    requires |s| == rows * cols && EnoughDraws(rows, cols, percent, draws)
    ensures |Changed(s, Noisy(s, rows, cols, percent, draws))| <= 2 * NoiseCount(rows * cols, percent)
    ensures forall p | p in Changed(s, Noisy(s, rows, cols, percent, draws)) ::
      Noisy(s, rows, cols, percent, draws)[p] in {Black, White}
  {
    var n := NoiseCount(rows * cols, percent);
    NoiseNeedsPixels(rows, cols, percent);
    var t := Noisy(s, rows, cols, percent, draws);
    var salted := DrawnSet(draws, rows, cols, n);
    var peppered := DrawnSet(draws[2 * n..], rows, cols, n);
    forall p | p in Changed(s, t)
      ensures p in salted + peppered && t[p] in {Black, White}
    {
      NoisyAt(s, rows, cols, percent, draws, p);
    }
    DrawnSetSize(draws, rows, cols, n);
    DrawnSetSize(draws[2 * n..], rows, cols, n);
    SubsetSize(Changed(s, t), salted + peppered);
  }

  /** A subset is no larger than its superset. */
  lemma SubsetSize(a: set<nat>, b: set<nat>)
    requires a <= b
    ensures |a| <= |b|
  {
    assert b == a + (b - a);
  }

  /**
    The `addnoise <percent>` command: outside [0, 100] it is refused and the
    noisy grid is left as it was; otherwise the noisy grid becomes a fresh copy
    of the original with salt-and-pepper noise added.
   */
  method AddNoise(original: array<Byte>, rows: nat, cols: nat, noisy: array<Byte>, percent: int, draws: seq<Draw>)
    returns (accepted: bool, result: array<Byte>)
    requires original.Length == rows * cols
    requires 0 <= percent <= 100 ==> EnoughDraws(rows, cols, percent, draws)
    ensures accepted <==> 0 <= percent <= 100
    ensures !accepted ==> result == noisy
    ensures accepted ==> fresh(result) && result[..] == Noisy(original[..], rows, cols, percent, draws)
  {
    if 0 <= percent <= 100 {
      result := new Byte[original.Length](k requires 0 <= k < original.Length reads original => original[k]);
      assert result[..] == original[..];
      SaltAndPepper(result, rows, cols, percent, draws);
      accepted := true;
    } else {
      accepted, result := false, noisy;
    }
  }
}
