/**
 * Reading the input image: the decoded-size check, the layout conversion and
 * the in-place per-block normalisation of the planar tensor.
 */
module ImageFile {
  import opened Layout

  /** Per-channel constants, commented {R, G, B} in the source. */
  const Mean: seq<real> := [0.485, 0.456, 0.406]
  const StdDev: seq<real> := [0.229, 0.224, 0.225]

  /** The only decoded size read_image_file accepts (224 * 224 pixels, 3 bytes each). */
  const ExpectedSize: nat := 224 * 224 * 3

  /** The normalisation of one value with the constants at index k. */
  function Norm(v: real, k: nat): real
    requires k < 3
  {
    assert StdDev[k] > 0.0 by {
      assert k == 0 || k == 1 || k == 2;
    }
    (v / 255.0 - Mean[k]) / StdDev[k]
  }

  /** The channel block, 0, 1 or 2, that element i of an n-element planar
      buffer falls in. */
  function Block(n: int, i: int): (b: nat)
    requires n > 0 && n % 3 == 0 && 0 <= i < n
    ensures b < 3
    ensures i == ChwIndex(i % (n / 3), b, n / 3)
  {
    ChwIndexBijection(i, n / 3);
    i / (n / 3)
  }

  /** The buffer normalize leaves behind: each of the first n elements goes
      through Norm with the constants of index 2 - (its block); the rest are
      untouched. */
  function Normalized(s: seq<real>, n: int): (r: seq<real>)
    requires n <= |s| && (n <= 0 || n % 3 == 0)
    ensures |r| == |s|
  {
    seq(|s|, k requires 0 <= k < |s| => if k < n then Norm(s[k], 2 - Block(n, k)) else s[k])
  }

  /** The value of the block counter j with which normalize's loop, as
      written, transforms element i of an n-element buffer (for any n). */
  function CounterAt(n: nat, i: nat): int
  {
    var j := if i == 0 then 0 else CounterAt(n, i - 1);
    if i == n / 3 * (j + 1) then j + 1 else j
  }

  /** One step of the counter: i / q grows by one exactly at the multiples of q. */
  lemma QuotientStep(i: nat, q: nat)
    requires i > 0 && q > 0
    ensures i / q == if i == q * ((i - 1) / q + 1) then (i - 1) / q + 1 else (i - 1) / q
  {
    var a, r := (i - 1) / q, (i - 1) % q;
    assert i - 1 == a * q + r;
    assert q * (a + 1) == a * q + q;
    if r + 1 == q {
      DivModOf(a + 1, 0, q);
      assert i == (a + 1) * q + 0;
    } else {
      DivModOf(a, r + 1, q);
      assert i == a * q + (r + 1);
    }
  }

  /** Whenever n holds at least one full block (n / 3 > 0), the counter is
      i / (n / 3). */
  lemma {:induction false} CounterIsQuotient(n: nat, i: nat)
    requires n / 3 > 0
    ensures CounterAt(n, i) == i / (n / 3)
  {
    if i > 0 {
      CounterIsQuotient(n, i - 1);
      QuotientStep(i, n / 3);
    }
  }

  /** The counter invariant: for a length divisible by 3 the counter is the
      block of element i, so 2 - j is always a valid index. */
  lemma {:induction false} CounterIsBlock(n: nat, i: nat)
    requires n % 3 == 0 && i < n
    ensures CounterAt(n, i) == Block(n, i)
    ensures 0 <= 2 - CounterAt(n, i) < 3
  {
    CounterIsQuotient(n, i);
  }

  /** Under three elements no block is full and the counter stays at 1. */
  lemma {:induction false} CounterShortBuffer(n: nat, i: nat)
    requires n < 3
    ensures CounterAt(n, i) == 1
  {
    if i > 0 {
      CounterShortBuffer(n, i - 1);
    }
  }

  /** The constant index 2 - j stays in [0, 2] for every element exactly when
      n is divisible by 3 or under 3; otherwise it reaches -1. */
  lemma {:induction false} CounterInBounds(n: nat)
    requires n > 0
    ensures (forall i | 0 <= i < n :: 0 <= CounterAt(n, i) <= 2) <==> (n % 3 == 0 || n < 3)
  {
    if n < 3 {
      forall i | 0 <= i < n
        ensures CounterAt(n, i) == 1
      {
        CounterShortBuffer(n, i);
      }
    } else if n % 3 == 0 {
      forall i | 0 <= i < n
        ensures 0 <= CounterAt(n, i) <= 2
      {
        CounterIsBlock(n, i);
      }
    } else {
      var q := n / 3;
      CounterIsQuotient(n, 3 * q);
      DivModOf(3, 0, q);
      assert CounterAt(n, 3 * q) == 3;
    }
  }

  /** A four-element buffer drives the counter to 3, so the source would read
      mean[-1] for its last element. */
  lemma CounterOverrunsAtFour()
    ensures CounterAt(4, 3) == 3
  {
  }

  /**
   * normalize: rewrites the first n elements in place, element i with the
   * constants of index 2 - j, where the block counter j is i / (n / 3).
   */
  method Normalize(data: array<real>, dataLength: int)
    requires dataLength <= data.Length
    requires dataLength <= 0 || dataLength % 3 == 0
    modifies data
    ensures data[..] == Normalized(old(data[..]), dataLength)
  {
    var j := 0;
    var i := 0;
    while i < dataLength
      invariant i == 0 || 0 < i <= dataLength
      invariant j == if i == 0 then 0 else Block(dataLength, i - 1)
      invariant forall k | 0 <= k < i :: data[k] == Norm(old(data[k]), 2 - Block(dataLength, k))
      invariant forall k | i <= k < data.Length :: data[k] == old(data[k])
    {
      if i == dataLength / 3 * (j + 1) {
        j := j + 1;
      }
      if i > 0 {
        QuotientStep(i, dataLength / 3);
      }
      assert j == Block(dataLength, i);
      data[i] := (data[i] / 255.0 - Mean[2 - j]) / StdDev[2 - j];
      i := i + 1;
    }
  }

  /** Every element of a planar buffer built from interleaved bytes is
      normalised with the constants of index 2 - c, c being its interleaved
      channel: with the BGR order libpng is asked for, blue (c = 0) gets the
      constants at index 2 and red (c = 2) those at index 0. */
  lemma NormalizedChannels(bytes: seq<Byte>, stride: nat, i: nat, c: nat)
    requires |bytes| == 3 * stride && i < stride && c < 3
    ensures Normalized(ChwOf(bytes, stride), 3 * stride)[ChwIndex(i, c, stride)]
            == Norm(bytes[HwcIndex(i, c)] as real, 2 - c)
  {
    assert 3 * stride / 3 == stride;
  }

  /** The first block uses the constants at index 2 (0.406 / 0.225), the last
      block those at index 0 (0.485 / 0.229). */
  lemma NormalizedEnds(s: seq<real>, n: int)
    requires 0 < n <= |s| && n % 3 == 0
    ensures Normalized(s, n)[0] == (s[0] / 255.0 - 0.406) / 0.225
    ensures Normalized(s, n)[n - 1] == (s[n - 1] / 255.0 - 0.485) / 0.229
  {
    var q := n / 3;
    DivModOf(2, q - 1, q);
    assert Block(n, n - 1) == 2;
  }

  /** What libpng reports about an input file: whether
      png_image_begin_read_from_file opens it, the header's dimensions, whether
      png_image_finish_read succeeds, and the bytes it then delivers in
      PNG_FORMAT_BGR order. */
  datatype PngSource = PngSource(opens: bool, height: nat, width: nat, finishes: bool, pixels: seq<Byte>)

  /** PNG_IMAGE_SIZE for the 8-bit, three-channel PNG_FORMAT_BGR format. */
  function DecodedSize(height: nat, width: nat): nat
  {
    height * width * 3
  }

  /** The size check compares a byte count only: a 112 by 448 image passes it. */
  lemma SizeCheckAcceptsNonSquare()
    ensures DecodedSize(112, 448) == ExpectedSize
  {
  }

  /** The inputs for which read_image_file returns 0. */
  predicate ReadSucceeds(src: PngSource)
  {
    src.opens && DecodedSize(src.height, src.width) == ExpectedSize && src.finishes
  }

  /**
   * read_image_file: returns -1 when the file does not open, when its decoded
   * size is not ExpectedSize or when decoding fails; otherwise 0, with the
   * image's dimensions and the normalised planar tensor of ExpectedSize values.
   * On failure the out-parameters are not set by the source; here they carry
   * placeholder values.
   */
  method ReadImageFile(src: PngSource) returns (status: int, height: nat, width: nat, out: array<real>, outputCount: nat)
    requires |src.pixels| == DecodedSize(src.height, src.width)
    ensures status == 0 || status == -1
    ensures status == 0 <==> ReadSucceeds(src)
    ensures status == 0 ==> height == src.height && width == src.width
    ensures status == 0 ==> outputCount == ExpectedSize && out.Length == ExpectedSize
    ensures status == 0 ==> out[..] == Normalized(ChwOf(src.pixels, src.height * src.width), ExpectedSize)
  {
    height, width, outputCount := 0, 0, 0;
    out := new real[0];
    if !src.opens {
      return -1, height, width, out, outputCount;
    }
    var inputDataLength := DecodedSize(src.height, src.width);
    if inputDataLength != ExpectedSize {
      return -1, height, width, out, outputCount;
    }
    var buffer := new Byte[inputDataLength];
    if !src.finishes {
      return -1, height, width, out, outputCount;
    }
    forall k | 0 <= k < inputDataLength {
      buffer[k] := src.pixels[k];
    }
    assert buffer[..] == src.pixels;
    out, outputCount := HwcToChw(buffer, src.height, src.width);
    Normalize(out, inputDataLength);
    width := src.width;
    height := src.height;
    status := 0;
  }
}
