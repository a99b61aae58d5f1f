// The image buffer of the first lab (A_bilderzeugung Image): width * height
// pixels of three doubles each, row by row, written in place.  Random.random()
// is one explicit stream shared by the jitter of supersample and by the
// sampler, which takes the stream with the image coordinates and returns
// its colour together with the stream it leaves.
module Images {
  import opened Numerics
  import opened Linalg
  import opened Randomness

  /** The first of the three cells of pixel (i, j). */
  function CellIndex(width: nat, i: int, j: int): int
  {
    3 * (j * width + i)
  }

  predicate CellsExist(cells: seq<real>, width: nat, i: int, j: int)
  {
    0 <= CellIndex(width, i, j) && CellIndex(width, i, j) + 2 < |cells|
  }

  /** The colour stored at pixel (i, j) of a cell sequence (black where there are no such cells). */
  function PixelAt(cells: seq<real>, width: nat, i: int, j: int): Color
  {
    var k := CellIndex(width, i, j);
    if CellsExist(cells, width, i, j) then Color(cells[k], cells[k + 1], cells[k + 2]) else Black
  }

  /** The cells after setPixel(i, j, c). */
  function WritePixel(cells: seq<real>, width: nat, i: int, j: int, c: Color): (r: seq<real>)
    requires CellsExist(cells, width, i, j)
    ensures |r| == |cells|
  {
    var k := CellIndex(width, i, j);
    cells[k := c.r][k + 1 := c.g][k + 2 := c.b]
  }

  predicate InImage(width: nat, height: nat, i: int, j: int)
  {
    0 <= i < width && 0 <= j < height
  }

  /** The three cells of a pixel inside the image lie inside the buffer. */
  lemma CellsInBuffer(width: nat, height: nat, i: int, j: int)
    requires InImage(width, height, i, j)
    ensures 0 <= CellIndex(width, i, j) && CellIndex(width, i, j) + 2 < width * height * 3
  {
    assert j * width + i < (j + 1) * width;
    MulMonoNat(j + 1, height, width);
  }

  lemma MulMonoNat(a: nat, b: nat, w: nat)
    requires a <= b
    ensures a * w <= b * w
  {
  }

  /** Distinct pixels inside the image own disjoint cells. */
  lemma CellsDisjoint(width: nat, i: int, j: int, i': int, j': int)
    requires 0 <= i < width && 0 <= i' < width && 0 <= j && 0 <= j'
    requires i != i' || j != j'
    ensures CellIndex(width, i, j) + 3 <= CellIndex(width, i', j') || CellIndex(width, i', j') + 3 <= CellIndex(width, i, j)
  {
    if j < j' {
      MulMonoNat(j + 1, j', width);
    } else if j' < j {
      MulMonoNat(j' + 1, j, width);
    }
  }

  /** setPixel changes pixel (i, j) to c and no other pixel. */
  lemma WritePixelEffect(cells: seq<real>, width: nat, height: nat, i: int, j: int, c: Color, i': int, j': int)
    requires |cells| == width * height * 3
    requires InImage(width, height, i, j) && InImage(width, height, i', j')
    ensures CellsExist(cells, width, i, j)
    ensures PixelAt(WritePixel(cells, width, i, j, c), width, i', j')
      == if i == i' && j == j' then c else PixelAt(cells, width, i', j')
  {
    CellsInBuffer(width, height, i, j);
    CellsInBuffer(width, height, i', j');
    if i != i' || j != j' {
      CellsDisjoint(width, i, j, i', j');
    }
  }

  /** The same for every pixel at once. */
  lemma WritePixelEffects(cells: seq<real>, width: nat, height: nat, i: int, j: int, c: Color)
    requires |cells| == width * height * 3 && InImage(width, height, i, j)
    ensures CellsExist(cells, width, i, j)
    ensures forall i', j' :: InImage(width, height, i', j') ==>
      PixelAt(WritePixel(cells, width, i, j, c), width, i', j') == if i == i' && j == j' then c else PixelAt(cells, width, i', j')
  {
    CellsInBuffer(width, height, i, j);
    forall i', j' | InImage(width, height, i', j')
      ensures PixelAt(WritePixel(cells, width, i, j, c), width, i', j') == if i == i' && j == j' then c else PixelAt(cells, width, i', j')
    {
      WritePixelEffect(cells, width, height, i, j, c, i', j');
    }
  }

  /**
   * Sampler.getColor(x, y) with its random draws made explicit: the colour
   * at (x, y) and the stream it leaves.  The ray tracer is such a sampler:
   * its diffuse and scattering mirror materials draw from the same
   * generator as the jitter of supersample.
   */
  type Sampler = (real, real, Stream) -> (Color, Stream)

  /** The stream a sampler leaves after its call at (x, y). */
  function Rest(sampler: Sampler, x: real, y: real, s: Stream): Stream
  {
    sampler(x, y, s).1
  }

  /** A sampler that makes exactly d draws on every call, as a scene without diffuse or scattering materials makes none. */
  ghost predicate DrawsExactly(sampler: Sampler, d: nat)
  {
    forall x, y, s :: Rest(sampler, x, y, s) == Drop(s, d)
  }

  /**
   * The stream sample hands to the sampler at pixel (i, j): the loops visit
   * the pixels column by column, and column i starts where column i - 1
   * ended, at its row height.
   */
  function SampleStream(sampler: Sampler, s: Stream, height: nat, i: nat, j: nat): Stream
    decreases i, j
  {
    if j > 0 then sampler(i as real, (j - 1) as real, SampleStream(sampler, s, height, i, j - 1)).1
    else if i > 0 then SampleStream(sampler, s, height, i - 1, height)
    else s
  }

  /** The colour sample gives pixel (i, j). */
  function Sampled(sampler: Sampler, s: Stream, height: nat, i: nat, j: nat): Color
  {
    sampler(i as real, j as real, SampleStream(sampler, s, height, i, j)).0
  }

  /**
   * Sub-sample (ii, jj) of pixel (i, j): two draws place it inside the
   * pixel, x first, and the sampler then draws from what is left.
   */
  function SubSample(sampler: Sampler, s: Stream, n: nat, i: int, j: int, ii: nat, jj: nat): (Color, Stream)
    requires 0 < n
  {
    var dx := Draw(s);
    var dy := Draw(dx.1);
    sampler(i as real + (ii as real + dx.0) / n as real, j as real + (jj as real + dy.0) / n as real, dy.1)
  }

  /**
   * The sum of the sub-samples of pixel (i, j) taken before (ii, jj), in the
   * code's order (rows ii of n columns jj), and the stream they leave.
   */
  function SubSum(sampler: Sampler, s: Stream, n: nat, i: int, j: int, ii: nat, jj: nat): (Color, Stream)
    requires 0 < n
    decreases ii, jj
  {
    if jj > 0 then
      var prev := SubSum(sampler, s, n, i, j, ii, jj - 1);
      var sc := SubSample(sampler, prev.1, n, i, j, ii, jj - 1);
      (ColorAdd(prev.0, sc.0), sc.1)
    else if ii > 0 then SubSum(sampler, s, n, i, j, ii - 1, n)
    else (Black, s)
  }

  /** The colour supersample gives one pixel, the mean of its n * n sub-samples, and the stream left for the next pixel. */
  function PixelSample(sampler: Sampler, s: Stream, n: nat, i: int, j: int): (Color, Stream)
    requires 0 < n
  {
    var all := SubSum(sampler, s, n, i, j, n, 0);
    (ColorDiv(all.0, (n * n) as real), all.1)
  }

  /** The stream supersample starts pixel (i, j) with, in the same column-by-column order. */
  function SupersampleStream(sampler: Sampler, s: Stream, n: nat, height: nat, i: nat, j: nat): Stream
    requires 0 < n
    decreases i, j
  {
    if j > 0 then PixelSample(sampler, SupersampleStream(sampler, s, n, height, i, j - 1), n, i, j - 1).1
    else if i > 0 then SupersampleStream(sampler, s, n, height, i - 1, height)
    else s
  }

  /** The colour supersample gives pixel (i, j). */
  function Supersampled(sampler: Sampler, s: Stream, n: nat, height: nat, i: nat, j: nat): Color
    requires 0 < n
  {
    PixelSample(sampler, SupersampleStream(sampler, s, n, height, i, j), n, i, j).0
  }

  /** Index of the first jitter draw of pixel (i, j) for a sampler making d draws a call: each earlier pixel used (2 + d) * n * n. */
  function FirstDraw(n: nat, d: nat, height: nat, i: nat, j: nat): nat
  {
    MulNat((2 + d) * (n * n), Position(height, i, j))
  }

  function MulNat(a: nat, b: nat): nat
  {
    a * b
  }

  class Image {
    const data: array<real>
    const width: nat
    const height: nat

    ghost predicate Valid()
      reads this
    {
      data.Length == width * height * 3
    }

    /** The colour of pixel (i, j). */
    function Pixel(i: int, j: int): Color
      reads this, data
    {
      PixelAt(data[..], width, i, j)
    }

    /** new Image(width, height): width * height * 3 cells, all zero. */
    constructor (width: nat, height: nat)
      ensures this.width == width && this.height == height && Valid() && fresh(data)
      ensures forall k :: 0 <= k < data.Length ==> data[k] == 0.0
    {
      this.width := width;
      this.height := height;
      this.data := new real[width * height * 3](_ => 0.0);
    }

    /** setPixel(i, j, c): the three cells at 3 * (j * width + i) take c's channels. */
    method SetPixel(i: int, j: int, c: Color)
      requires CellsExist(data[..], width, i, j)
      modifies data
      ensures data[..] == WritePixel(old(data[..]), width, i, j, c)
    {
      var k := 3 * (j * width + i);
      data[k] := c.r;
      data[k + 1] := c.g;
      data[k + 2] := c.b;
    }

    /** sample(sampler): every pixel (i, j), column by column, takes sampler(i, j); the stream left over is returned. */
    method Sample(sampler: Sampler, rnd: Stream) returns (rest: Stream)
      requires Valid()
      modifies data
      ensures forall i, j :: InImage(width, height, i, j) ==> Pixel(i, j) == Sampled(sampler, rnd, height, i, j)
      ensures rest == SampleStream(sampler, rnd, height, width, 0)
    {
      rest := rnd;
      var i := 0;
      while i != width
        invariant 0 <= i <= width
        invariant rest == SampleStream(sampler, rnd, height, i, 0)
        invariant forall i', j' :: 0 <= i' < i && 0 <= j' < height ==> Pixel(i', j') == Sampled(sampler, rnd, height, i', j')
      {
        var j := 0;
        while j != height
          invariant 0 <= j <= height
          invariant rest == SampleStream(sampler, rnd, height, i, j)
          invariant forall i', j' ::
            InImage(width, height, i', j') && (i' < i || (i' == i && j' < j)) ==> Pixel(i', j') == Sampled(sampler, rnd, height, i', j')
        {
          var sc := sampler(i as real, j as real, rest);
          CellsInBuffer(width, height, i, j);
          SetPixelKeeping(i, j, sc.0);
          rest := sc.1;
          j := j + 1;
        }
        i := i + 1;
      }
    }

    /** setPixel inside the image, with its effect on every pixel. */
    method SetPixelKeeping(i: int, j: int, c: Color)
      requires Valid() && InImage(width, height, i, j)
      modifies data
      ensures forall i', j' :: InImage(width, height, i', j') ==>
        Pixel(i', j') == if i == i' && j == j' then c else old(Pixel(i', j'))
    {
      WritePixelEffects(data[..], width, height, i, j, c);
      SetPixel(i, j, c);
    }

    /**
     * supersample(n, sampler): each pixel, column by column, is the mean of
     * n * n sub-samples, sub-sample (ii, jj) at (i + (ii + r) / n,
     * j + (jj + r') / n) for the next two random values r, r'.  The
     * sampler's own draws come between, so one stream runs through the
     * whole image; the stream left over is returned.
     */
    method Supersample(n: nat, sampler: Sampler, rnd: Stream) returns (rest: Stream)
      requires Valid() && 0 < n
      modifies data
      ensures forall i, j :: InImage(width, height, i, j) ==> Pixel(i, j) == Supersampled(sampler, rnd, n, height, i, j)
      ensures rest == SupersampleStream(sampler, rnd, n, height, width, 0)
    {
      rest := rnd;
      var i := 0;
      while i != width
        invariant 0 <= i <= width
        invariant rest == SupersampleStream(sampler, rnd, n, height, i, 0)
        invariant forall i', j' :: 0 <= i' < i && 0 <= j' < height ==> Pixel(i', j') == Supersampled(sampler, rnd, n, height, i', j')
      {
        var j := 0;
        while j != height
          invariant 0 <= j <= height
          invariant rest == SupersampleStream(sampler, rnd, n, height, i, j)
          invariant forall i', j' ::
            InImage(width, height, i', j') && (i' < i || (i' == i && j' < j)) ==> Pixel(i', j') == Supersampled(sampler, rnd, n, height, i', j')
        {
          var average, next := AverageOf(n, sampler, rest, i, j);
          SetPixelKeeping(i, j, average);
          rest := next;
          j := j + 1;
        }
        i := i + 1;
      }
    }

    /** The two inner loops of supersample for pixel (i, j), starting from stream s. */
    method AverageOf(n: nat, sampler: Sampler, s: Stream, i: nat, j: nat) returns (c: Color, rest: Stream)
      requires 0 < n
      ensures (c, rest) == PixelSample(sampler, s, n, i, j)
    {
      rest := s;
      var sum := Black;
      var ii := 0;
      while ii != n
        invariant 0 <= ii <= n
        invariant (sum, rest) == SubSum(sampler, s, n, i, j, ii, 0)
      {
        var jj := 0;
        while jj != n
          invariant 0 <= jj <= n
          invariant (sum, rest) == SubSum(sampler, s, n, i, j, ii, jj)
        {
          var dx := Draw(rest);
          var x := i as real + (ii as real + dx.0) / n as real;
          var dy := Draw(dx.1);
          var y := j as real + (jj as real + dy.0) / n as real;
          var sc := sampler(x, y, dy.1);
          SubSumColumn(sampler, s, n, i, j, ii, jj);
          sum := ColorAdd(sum, sc.0);
          rest := sc.1;
          jj := jj + 1;
        }
        ii := ii + 1;
      }
      c := ColorDiv(sum, (n * n) as real);
    }
  }

  // ---------------------------------------------------------------------
  // Lemmas

  /** A sub-sample coordinate lies in the ii-th n-th of the pixel, given a random value in [0, 1). */
  lemma SubSampleInCell(i: int, ii: nat, n: nat, r: real)
    requires 0 < n && ii < n && 0.0 <= r < 1.0
    ensures var x := i as real + (ii as real + r) / n as real;
      i as real + ii as real / n as real <= x < i as real + (ii + 1) as real / n as real
      && i as real <= x < (i + 1) as real
  {
    var w := n as real;
    assert (ii as real + r) / w - ii as real / w == r / w;
    assert (ii + 1) as real / w - (ii as real + r) / w == (1.0 - r) / w;
    assert (ii + 1) as real <= w;
    assert (ii + 1) as real / w <= 1.0;
  }

  /**
   * The place of (a, b) in an order that runs through b below len for each
   * a in turn: a * len + b.  Sub-sample (ii, jj) is number Position(n, ii, jj)
   * of its pixel, and pixel (i, j) number Position(height, i, j) of the image.
   */
  function Position(len: nat, a: nat, b: nat): nat
  {
    MulNat(a, len) + b
  }

  /** Step len of line a is step 0 of line a + 1. */
  lemma NextLine(len: nat, a: nat)
    requires 0 < a
    ensures Position(len, a - 1, len) == Position(len, a, 0)
  {
    MulStepLeft(len, a - 1);
  }

  /** The sub-samples before (ii, jj) of a sampler whose colour is constant sum to their number times that colour, whatever it draws. */
  lemma {:induction false} ConstantSubSum(sampler: Sampler, c: Color, s: Stream, n: nat, i: int, j: int, ii: nat, jj: nat)
    requires 0 < n && forall x, y, t :: sampler(x, y, t).0 == c
    ensures SubSum(sampler, s, n, i, j, ii, jj).0 == ColorScale(Position(n, ii, jj) as real, c)
    decreases ii, jj
  {
    if jj > 0 {
      ConstantSubSum(sampler, c, s, n, i, j, ii, jj - 1);
      ColorScaleStep(Position(n, ii, jj - 1), c);
    } else if ii > 0 {
      ConstantSubSum(sampler, c, s, n, i, j, ii - 1, n);
      NextLine(n, ii);
    }
  }

  lemma ColorScaleStep(k: nat, c: Color)
    ensures ColorAdd(ColorScale(k as real, c), c) == ColorScale((k + 1) as real, c)
  {
  }

  lemma DivScaled(w: real, x: real)
    requires w != 0.0
    ensures Div(w * x, w) == x
  {
    var q := Div(w * x, w);
    assert q * w == w * x;
    assert (q - x) * w == 0.0;
    ProductZero(q - x, w);
  }

  lemma ColorDivScaled(w: real, c: Color)
    requires w != 0.0
    ensures ColorDiv(ColorScale(w, c), w) == c
  {
    DivScaled(w, c.r);
    DivScaled(w, c.g);
    DivScaled(w, c.b);
  }

  /** Supersampling a sampler of constant colour gives that colour at every pixel. */
  lemma ConstantSupersampled(sampler: Sampler, c: Color, s: Stream, n: nat, height: nat, i: nat, j: nat)
    requires 0 < n && forall x, y, t :: sampler(x, y, t).0 == c
    ensures Supersampled(sampler, s, n, height, i, j) == c
  {
    var start := SupersampleStream(sampler, s, n, height, i, j);
    var w := (n * n) as real;
    assert SubSum(sampler, start, n, i, j, n, 0).0 == ColorScale(w, c) by {
      ConstantSubSum(sampler, c, start, n, i, j, n, 0);
    }
    assert ColorDiv(ColorScale(w, c), w) == c by {
      ProductPositiveNat(n);
      ColorDivScaled(w, c);
    }
  }

  lemma MulStep(a: nat, c: nat)
    ensures MulNat(a, c) + a == MulNat(a, c + 1)
  {
  }

  lemma MulStepLeft(a: nat, c: nat)
    ensures MulNat(c, a) + a == MulNat(c + 1, a)
  {
  }

  /** A sub-sample of a sampler making d draws uses 2 + d draws: its two jitter values, then the sampler's. */
  lemma SubSampleDraws(sampler: Sampler, d: nat, s: Stream, n: nat, i: int, j: int, ii: nat, jj: nat, m: nat)
    requires 0 < n && DrawsExactly(sampler, d)
    ensures SubSample(sampler, Drop(s, m), n, i, j, ii, jj).1 == Drop(s, m + 2 + d)
    ensures Draw(Drop(s, m)).0 == At(s, m) && Draw(Draw(Drop(s, m)).1).0 == At(s, m + 1)
  {
    DrawAfterDrop(s, m);
    DrawAfterDrop(s, m + 1);
    DropDrop(s, m + 2, d);
    var dx := Draw(Drop(s, m));
    var dy := Draw(dx.1);
    assert Rest(sampler, i as real + (ii as real + dx.0) / n as real, j as real + (jj as real + dy.0) / n as real, dy.1)
      == Drop(dy.1, d);
  }

  /** The sub-samples before (ii, jj) of such a sampler use 2 + d draws each, in order. */
  lemma SubSumDraws(sampler: Sampler, d: nat, s: Stream, n: nat, i: int, j: int, m: nat, ii: nat, jj: nat)
    requires 0 < n && DrawsExactly(sampler, d)
    ensures SubSum(sampler, Drop(s, m), n, i, j, ii, jj).1 == Drop(s, m + MulNat(2 + d, Position(n, ii, jj)))
  {
    SubSumDrawsCounted(sampler, d, s, n, i, j, m, ii, jj);
    CountedPositions(2 + d, n, ii, jj);
  }

  /** w draws for each step before (a, b) in lines of len steps, counted step by step. */
  function StepDraws(w: nat, len: nat, a: nat, b: nat): nat
    decreases a, b
  {
    if b > 0 then StepDraws(w, len, a, b - 1) + w
    else if a > 0 then StepDraws(w, len, a - 1, len)
    else 0
  }

  lemma {:induction false} CountedPositions(w: nat, len: nat, a: nat, b: nat)
    ensures StepDraws(w, len, a, b) == MulNat(w, Position(len, a, b))
    decreases a, b
  {
    if b > 0 {
      CountedPositions(w, len, a, b - 1);
      MulStep(w, Position(len, a, b - 1));
    } else if a > 0 {
      CountedPositions(w, len, a - 1, len);
      NextLine(len, a);
    }
  }

  lemma {:induction false} SubSumDrawsCounted(sampler: Sampler, d: nat, s: Stream, n: nat, i: int, j: int, m: nat, ii: nat, jj: nat)
    requires 0 < n && DrawsExactly(sampler, d)
    ensures SubSum(sampler, Drop(s, m), n, i, j, ii, jj).1 == Drop(s, m + StepDraws(2 + d, n, ii, jj))
    decreases ii, jj
  {
    if jj > 0 {
      SubSumDrawsCounted(sampler, d, s, n, i, j, m, ii, jj - 1);
      SubSumDrawsStep(sampler, d, s, n, i, j, m, ii, jj - 1, m + StepDraws(2 + d, n, ii, jj - 1));
    } else if ii > 0 {
      SubSumDrawsCounted(sampler, d, s, n, i, j, m, ii - 1, n);
    }
  }

  /** One more column: sub-sample (ii, jj) is added to the sum and continues from the stream the earlier ones left. */
  lemma SubSumColumn(sampler: Sampler, s: Stream, n: nat, i: int, j: int, ii: nat, jj: nat)
    requires 0 < n
    ensures var prev := SubSum(sampler, s, n, i, j, ii, jj);
      var sc := SubSample(sampler, prev.1, n, i, j, ii, jj);
      SubSum(sampler, s, n, i, j, ii, jj + 1) == (ColorAdd(prev.0, sc.0), sc.1)
  {
  }

  /** The step of SubSumDraws from (ii, jj) to (ii, jj + 1): 2 + d more draws. */
  lemma SubSumDrawsStep(sampler: Sampler, d: nat, s: Stream, n: nat, i: int, j: int, m: nat, ii: nat, jj: nat, q: nat)
    requires 0 < n && DrawsExactly(sampler, d)
    requires SubSum(sampler, Drop(s, m), n, i, j, ii, jj).1 == Drop(s, q)
    ensures SubSum(sampler, Drop(s, m), n, i, j, ii, jj + 1).1 == Drop(s, q + 2 + d)
  {
    SubSumColumn(sampler, Drop(s, m), n, i, j, ii, jj);
    SubSampleDraws(sampler, d, s, n, i, j, ii, jj, q);
  }

  /**
   * For a sampler making d draws a call, supersample starts pixel (i, j)
   * at draw FirstDraw: (2 + d) * n * n draws for each pixel visited before it.
   */
  lemma SupersampleDraws(sampler: Sampler, d: nat, s: Stream, n: nat, height: nat, i: nat, j: nat)
    requires 0 < n && j <= height && DrawsExactly(sampler, d)
    ensures SupersampleStream(sampler, s, n, height, i, j) == Drop(s, FirstDraw(n, d, height, i, j))
  {
    var perPixel := StepDraws(2 + d, n, n, 0);
    SupersampleDrawsCounted(sampler, d, s, n, height, i, j);
    CountedPositions(2 + d, n, n, 0);
    assert Position(n, n, 0) == n * n;
    assert perPixel == (2 + d) * (n * n);
    CountedPositions(perPixel, height, i, j);
  }

  lemma {:induction false} SupersampleDrawsCounted(sampler: Sampler, d: nat, s: Stream, n: nat, height: nat, i: nat, j: nat)
    requires 0 < n && j <= height && DrawsExactly(sampler, d)
    ensures SupersampleStream(sampler, s, n, height, i, j) == Drop(s, StepDraws(StepDraws(2 + d, n, n, 0), height, i, j))
    decreases i, j
  {
    var perPixel := StepDraws(2 + d, n, n, 0);
    if j > 0 {
      SupersampleDrawsCounted(sampler, d, s, n, height, i, j - 1);
      SupersampleDrawsStep(sampler, d, s, n, height, i, j - 1, StepDraws(perPixel, height, i, j - 1));
    } else if i > 0 {
      SupersampleDrawsCounted(sampler, d, s, n, height, i - 1, height);
    } else {
      assert Drop(s, 0) == s;
    }
  }

  /** The step of SupersampleDraws from pixel (i, j) to pixel (i, j + 1): one pixel's draws more. */
  lemma SupersampleDrawsStep(sampler: Sampler, d: nat, s: Stream, n: nat, height: nat, i: nat, j: nat, q: nat)
    requires 0 < n && DrawsExactly(sampler, d)
    requires SupersampleStream(sampler, s, n, height, i, j) == Drop(s, q)
    ensures SupersampleStream(sampler, s, n, height, i, j + 1) == Drop(s, q + StepDraws(2 + d, n, n, 0))
  {
    SubSumDrawsCounted(sampler, d, s, n, i, j, q, n, 0);
  }

  /**
   * Sub-sample (ii, jj) of pixel (i, j), for a sampler making d draws a
   * call, jitters with draw number FirstDraw + (2 + d) * (ii * n + jj) and
   * the one after: the draws of the earlier pixels and sub-samples, the
   * sampler's included, come first.
   */
  lemma SubSampleJitter(sampler: Sampler, d: nat, s: Stream, n: nat, height: nat, i: nat, j: nat, ii: nat, jj: nat)
    requires 0 < n && j < height && DrawsExactly(sampler, d)
    ensures var t := SubSum(sampler, SupersampleStream(sampler, s, n, height, i, j), n, i, j, ii, jj).1;
      var first := FirstDraw(n, d, height, i, j) + MulNat(2 + d, Position(n, ii, jj));
      t == Drop(s, first) && Draw(t).0 == At(s, first) && Draw(Draw(t).1).0 == At(s, first + 1)
  {
    var start := FirstDraw(n, d, height, i, j);
    var first := start + MulNat(2 + d, Position(n, ii, jj));
    SupersampleDraws(sampler, d, s, n, height, i, j);
    assert SupersampleStream(sampler, s, n, height, i, j) == Drop(s, start);
    SubSumDraws(sampler, d, s, n, i, j, start, ii, jj);
    DrawAfterDrop(s, first);
    DrawAfterDrop(s, first + 1);
  }

  /** For a sampler making d draws a call, sample gives pixel (i, j) the stream after d draws for each pixel visited before it. */
  lemma SampleDraws(sampler: Sampler, d: nat, s: Stream, height: nat, i: nat, j: nat)
    requires j <= height && DrawsExactly(sampler, d)
    ensures SampleStream(sampler, s, height, i, j) == Drop(s, MulNat(d, Position(height, i, j)))
  {
    SampleDrawsCounted(sampler, d, s, height, i, j);
    CountedPositions(d, height, i, j);
  }

  lemma {:induction false} SampleDrawsCounted(sampler: Sampler, d: nat, s: Stream, height: nat, i: nat, j: nat)
    requires j <= height && DrawsExactly(sampler, d)
    ensures SampleStream(sampler, s, height, i, j) == Drop(s, StepDraws(d, height, i, j))
    decreases i, j
  {
    if j > 0 {
      SampleDrawsCounted(sampler, d, s, height, i, j - 1);
      DropDrop(s, StepDraws(d, height, i, j - 1), d);
      assert Rest(sampler, i as real, (j - 1) as real, SampleStream(sampler, s, height, i, j - 1))
        == Drop(SampleStream(sampler, s, height, i, j - 1), d);
    } else if i > 0 {
      SampleDrawsCounted(sampler, d, s, height, i - 1, height);
    } else {
      assert Drop(s, 0) == s;
    }
  }

  /** A sampler that draws nothing is asked at every pixel (i, j) with the stream untouched. */
  lemma SampledWithoutDraws(sampler: Sampler, s: Stream, height: nat, i: nat, j: nat)
    requires j < height && DrawsExactly(sampler, 0)
    ensures Sampled(sampler, s, height, i, j) == sampler(i as real, j as real, s).0
  {
    SampleDraws(sampler, 0, s, height, i, j);
    assert Drop(s, 0) == s;
  }

  lemma ProductPositiveNat(n: nat)
    requires 0 < n
    ensures 0 < n * n
  {
  }
}
