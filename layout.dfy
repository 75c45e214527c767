/**
 * Layout conversion between the interleaved (HWC: pixel-major, channel-minor)
 * byte image and the planar (CHW: channel-major, pixel-minor) value tensor of
 * a three-channel image with `stride` = height * width pixels.
 * Tensor values are modelled as mathematical reals, not IEEE floats.
 */
module Layout {

  /** An unsigned 8-bit sample (uint8_t). */
  type Byte = x: int | 0 <= x < 256

  /** Position of channel c of pixel i in the interleaved buffer; pixel and
      channel can be read back from it. */
  function HwcIndex(i: nat, c: nat): (k: nat)
    requires c < 3
    ensures k / 3 == i && k % 3 == c
  {
    i * 3 + c
  }

  /** Position of channel c of pixel i in the planar buffer; it lies inside
      the 3 * stride buffer and pixel and channel can be read back from it. */
  function ChwIndex(i: nat, c: nat, stride: nat): (k: nat)
    requires i < stride && c < 3
    ensures k < 3 * stride
    ensures k / stride == c && k % stride == i
  {
    MulBelow(c, 2, stride);
    DivModOf(c, i, stride);
    c * stride + i
  }

  /** q * s <= m * s when q <= m. */
  lemma MulBelow(q: nat, m: nat, s: nat)
    requires q <= m
    ensures q * s <= m * s
  {
    assert m * s == q * s + (m - q) * s;
  }

  /** Multiplying s by an integer a with |a| >= m moves at least m * s away from 0. */
  lemma MulAtLeast(a: int, m: nat, s: nat)
    ensures a >= m ==> a * s >= m * s
    ensures a + m <= 0 ==> a * s + m * s <= 0
  {
    if a >= m {
      MulBelow(m, a, s);
    } else if a + m <= 0 {
      MulBelow(m, -a, s);
      assert a * s == -((-a) * s);
    }
  }

  /** Euclidean division of q * s + r by s gives back q and r. */
  lemma DivModOf(q: nat, r: nat, s: nat)
    requires r < s
    ensures (q * s + r) / s == q && (q * s + r) % s == r
  {
    var n := q * s + r;
    var d := n / s - q;
    assert d * s == r - n % s;
    MulAtLeast(d, 1, s);
  }

  /** A position below 3 * stride has channel k / stride below 3. */
  lemma ChannelBelowThree(k: nat, stride: nat)
    requires k < 3 * stride
    ensures k / stride < 3
  {
    var q := k / stride;
    assert q * stride <= k;
    MulAtLeast(q, 3, stride);
  }

  /** Every planar position is the image of exactly one (pixel, channel) pair
      under ChwIndex: the map is a bijection onto [0, 3 * stride). */
  lemma {:induction false} ChwIndexBijection(k: nat, stride: nat)
    requires k < 3 * stride
    ensures k % stride < stride && k / stride < 3
    ensures ChwIndex(k % stride, k / stride, stride) == k
    ensures forall i, c | 0 <= i < stride && 0 <= c < 3 ::
              ChwIndex(i, c, stride) == k <==> i == k % stride && c == k / stride
  {
    ChannelBelowThree(k, stride);
  }

  /** Every interleaved position is the image of exactly one (pixel, channel)
      pair under HwcIndex: the map is a bijection onto [0, 3 * stride). */
  lemma {:induction false} HwcIndexBijection(k: nat, stride: nat)
    requires k < 3 * stride
    ensures k / 3 < stride && HwcIndex(k / 3, k % 3) == k
    ensures forall i, c | 0 <= i < stride && 0 <= c < 3 ::
              HwcIndex(i, c) == k <==> i == k / 3 && c == k % 3
  {
  }

  /** hwc_to_chw's contents: channel c of pixel i of the interleaved bytes,
      promoted to a value, stands at planar position c * stride + i. */
  function ChwOf(input: seq<Byte>, stride: nat): (r: seq<real>)
    requires |input| == 3 * stride
    ensures |r| == 3 * stride
    ensures forall i, c | 0 <= i < stride && 0 <= c < 3 ::
              r[ChwIndex(i, c, stride)] == input[HwcIndex(i, c)] as real
  {
    seq(3 * stride, k requires 0 <= k < 3 * stride =>
      ChwIndexBijection(k, stride);
      input[HwcIndex(k % stride, k / stride)] as real)
  }

  /** The byte chw_to_hwc stores for a value: a value below 0 or above 255
      becomes 0 (not the nearest bound); any other value is truncated. */
  function ToByte(f: real): (b: Byte)
    ensures f < 0.0 || f > 255.0 ==> b == 0
    ensures 0.0 <= f <= 255.0 ==> b as real <= f < b as real + 1.0
  {
    if f < 0.0 || f > 255.0 then 0 else f.Floor
  }

  /** chw_to_hwc's contents: the byte at interleaved position i * 3 + c is
      ToByte of the planar value at c * stride + i. */
  function HwcOf(planar: seq<real>, stride: nat): (r: seq<Byte>)
    requires |planar| == 3 * stride
    ensures |r| == 3 * stride
    ensures forall i, c | 0 <= i < stride && 0 <= c < 3 ::
              r[HwcIndex(i, c)] == ToByte(planar[ChwIndex(i, c, stride)])
  {
    seq(3 * stride, k requires 0 <= k < 3 * stride =>
      ToByte(planar[ChwIndex(k / 3, k % 3, stride)]))
  }

  /** A planar value that chw_to_hwc reproduces exactly: a whole number in [0, 255]. */
  predicate IsByteValue(f: real)
  {
    0.0 <= f <= 255.0 && f.Floor as real == f
  }

  /** Every byte survives ToByte; 255 itself is kept. */
  lemma ToByteOfByte(b: Byte)
    ensures ToByte(b as real) == b
  {
  }

  /** Round trip: converting bytes to planar values and back gives the bytes. */
  lemma {:induction false} HwcOfChwOf(bytes: seq<Byte>, stride: nat)
    requires |bytes| == 3 * stride
    ensures HwcOf(ChwOf(bytes, stride), stride) == bytes
  {
    var r := HwcOf(ChwOf(bytes, stride), stride);
    forall k | 0 <= k < |bytes|
      ensures r[k] == bytes[k]
    {
      HwcIndexBijection(k, stride);
      var i, c := k / 3, k % 3;
      assert r[HwcIndex(i, c)] == ToByte(ChwOf(bytes, stride)[ChwIndex(i, c, stride)]);
      ToByteOfByte(bytes[k]);
    }
  }

  /** Round trip the other way: a planar buffer of whole numbers in [0, 255]
      survives conversion to bytes and back; no other buffer does. */
  lemma {:induction false} ChwOfHwcOf(planar: seq<real>, stride: nat)
    requires |planar| == 3 * stride
    ensures ChwOf(HwcOf(planar, stride), stride) == planar
            <==> forall k | 0 <= k < |planar| :: IsByteValue(planar[k])
  {
    var bytes := HwcOf(planar, stride);
    var r := ChwOf(bytes, stride);
    forall k | 0 <= k < |planar|
      ensures r[k] == ToByte(planar[k]) as real
    {
      ChwIndexBijection(k, stride);
      var i, c := k % stride, k / stride;
      assert r[ChwIndex(i, c, stride)] == bytes[HwcIndex(i, c)] as real;
    }
    if forall k | 0 <= k < |planar| :: IsByteValue(planar[k]) {
      forall k | 0 <= k < |planar|
        ensures r[k] == planar[k]
      {
        assert IsByteValue(planar[k]);
      }
    } else {
      var k :| 0 <= k < |planar| && !IsByteValue(planar[k]);
      assert r[k] != planar[k];
    }
  }

  /**
   * hwc_to_chw: a fresh planar buffer of 3 * h * w values, the value at
   * c * stride + i being byte i * 3 + c of the input.
   */
  method HwcToChw(input: array<Byte>, h: nat, w: nat) returns (output: array<real>, outputCount: nat)
    requires input.Length == h * w * 3
    ensures outputCount == h * w * 3 && output.Length == outputCount
    ensures fresh(output)
    ensures output[..] == ChwOf(input[..], h * w)
  {
    var stride := h * w;
    outputCount := stride * 3;
    output := new real[outputCount];
    for i := 0 to stride
      invariant forall i', c | 0 <= i' < i && 0 <= c < 3 ::
                  output[ChwIndex(i', c, stride)] == input[HwcIndex(i', c)] as real
    {
      for c := 0 to 3
        invariant forall i', c' | 0 <= i' < i && 0 <= c' < 3 ::
                    output[ChwIndex(i', c', stride)] == input[HwcIndex(i', c')] as real
        invariant forall c' | 0 <= c' < c ::
                    output[ChwIndex(i, c', stride)] == input[HwcIndex(i, c')] as real
      {
        output[ChwIndex(i, c, stride)] := input[HwcIndex(i, c)] as real;
      }
    }
    forall k | 0 <= k < outputCount
      ensures output[k] == ChwOf(input[..], stride)[k]
    {
      ChwIndexBijection(k, stride);
    }
  }

  /**
   * chw_to_hwc: a buffer of 3 * h * w bytes, the byte at i * 3 + c being the
   * planar value at c * stride + i, clamped to zero outside [0, 255] and
   * truncated.
   */
  method ChwToHwc(input: array<real>, h: nat, w: nat) returns (output: array<Byte>)
    requires input.Length == h * w * 3
    ensures output.Length == h * w * 3
    ensures output[..] == HwcOf(input[..], h * w)
  {
    var stride := h * w;
    output := new Byte[stride * 3];
    for c := 0 to 3
      invariant forall i, c' | 0 <= i < stride && 0 <= c' < c ::
                  output[HwcIndex(i, c')] == ToByte(input[ChwIndex(i, c', stride)])
    {
      var t := c * stride;
      for i := 0 to stride
        invariant forall i', c' | 0 <= i' < stride && 0 <= c' < c ::
                    output[HwcIndex(i', c')] == ToByte(input[ChwIndex(i', c', stride)])
        invariant forall i' | 0 <= i' < i ::
                    output[HwcIndex(i', c)] == ToByte(input[ChwIndex(i', c, stride)])
      {
        assert t + i == ChwIndex(i, c, stride);
        var f := input[t + i];
        if f < 0.0 || f > 255.0 {
          f := 0.0;
        }
        output[HwcIndex(i, c)] := f.Floor;
      }
    }
    forall k | 0 <= k < stride * 3
      ensures output[k] == HwcOf(input[..], stride)[k]
    {
      HwcIndexBijection(k, stride);
    }
  }
}
