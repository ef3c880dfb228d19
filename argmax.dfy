/**
 * The per-pixel channel argmax of the postprocessing stage.
 *
 * The device writes an `outH x outW x outC` score tensor in NHWC layout: channel innermost, so the
 * scores of pixel `(h, w)` are the `outC` bytes starting at `(h * outW + w) * outC`. For each pixel
 * the reducer keeps the index of the first maximal score (plain unsigned comparison with strict
 * `>`, so the lowest index wins a tie) and stores it at `h * outW + w` of the mask.
 */
module ArgmaxReducer {
  import opened Bytes

  /** `k` is the first position of a maximal element of `s`. */
  predicate IsFirstMax(s: seq<uint8>, k: nat)
  {
    && k < |s|
    && (forall j :: 0 <= j < |s| ==> s[j] <= s[k])
    && (forall j :: 0 <= j < k ==> s[j] < s[k])
  }

  /** The argmax of a non-empty score window, scanned left to right as the source does. */
  function FirstMax(s: seq<uint8>): (k: nat)
    requires |s| >= 1
    ensures IsFirstMax(s, k)
    decreases |s|
  {
    if |s| == 1 then 0
    else
      var m := FirstMax(s[..|s| - 1]);
      if s[|s| - 1] > s[m] then |s| - 1 else m
  }

  /** There is only one first maximum: the characterisation determines `FirstMax`. */
  lemma FirstMaxUnique(s: seq<uint8>, k: nat)
    requires |s| >= 1
    ensures IsFirstMax(s, k) <==> k == FirstMax(s)
  {
  }

  /** On a tie the lower channel wins: a later channel with an equal score is never chosen. */
  lemma TieGoesToLowest(s: seq<uint8>, i: nat, j: nat)
    requires i < j < |s| && s[i] == s[j]
    ensures FirstMax(s) != j
  {
  }

  /** The scores `[200, 200, 50]` give class 0. */
  lemma TieExample()
    ensures FirstMax([200, 200, 50]) == 0
  {
    var s: seq<uint8> := [200, 200, 50];
    TieGoesToLowest(s, 0, 1);
    assert FirstMax(s) != 2 by {
      assert s[2] < s[0];
    }
  }

  /** Flat index of pixel `(y, x)` in a row-major plane `outW` wide. */
  function PixelIndex(y: nat, x: nat, outW: nat): nat
  {
    y * outW + x
  }

  /** Every pixel of an `outH x outW` plane lands inside the plane, and distinct pixels land on distinct indices. */
  lemma {:induction false} PixelLayout(y: nat, x: nat, y': nat, x': nat, outH: nat, outW: nat)
    requires y < outH && x < outW && y' < outH && x' < outW
    ensures PixelIndex(y, x, outW) < outH * outW
    ensures PixelIndex(y, x, outW) == PixelIndex(y', x', outW) ==> y == y' && x == x'
  {
    PixelBelow(y, x, outH, outW);
    if y < y' {
      MulStrict(y, y', outW);
    } else if y' < y {
      MulStrict(y', y, outW);
    }
  }

  /** Each flat index of the plane is some pixel's. */
  lemma PixelCovers(p: nat, outH: nat, outW: nat)
    requires p < outH * outW
    ensures outW > 0 && p / outW < outH && PixelIndex(p / outW, p % outW, outW) == p
  {
    assert outW > 0;
    if p / outW >= outH {
      MulMono(outH, p / outW, outW);
    }
  }

  lemma PixelBelow(y: nat, x: nat, outH: nat, outW: nat)
    requires y < outH && x < outW
    ensures y * outW + x < outH * outW
  {
    MulMono(y + 1, outH, outW);
  }

  lemma MulMono(a: nat, b: nat, c: nat)
    requires a <= b
    ensures a * c <= b * c
  {
  }

  lemma MulStrict(a: nat, b: nat, c: nat)
    requires a < b
    ensures a * c + c <= b * c
  {
    MulMono(a + 1, b, c);
  }

  /** The score window of flat pixel `p` lies inside a buffer of `n` pixels of `outC` channels. */
  lemma WindowInBounds(p: nat, n: nat, outC: nat)
    requires p < n
    ensures p * outC + outC <= n * outC
  {
    MulMono(p + 1, n, outC);
  }

  /** The class chosen for the `c` scores that start at `base` of the score buffer. */
  function ArgmaxAt(scores: seq<uint8>, base: nat, c: nat): (k: nat)
    requires c >= 1 && base + c <= |scores|
    ensures k < c
    ensures IsFirstMax(scores[base..base + c], k)
  {
    FirstMax(scores[base..base + c])
  }

  /** Only the pixel's own `c` scores decide its class: buffers that agree on them agree on the class. */
  lemma ArgmaxAtLocal(scores: seq<uint8>, scores': seq<uint8>, base: nat, c: nat)
    requires c >= 1 && base + c <= |scores| && base + c <= |scores'|
    requires forall j :: base <= j < base + c ==> scores[j] == scores'[j]
    ensures ArgmaxAt(scores, base, c) == ArgmaxAt(scores', base, c)
  {
    assert scores[base..base + c] == scores'[base..base + c];
  }

  /** The mask the reducer produces: one entry per pixel, the pixel's argmax narrowed to a byte. */
  function Reduced(scores: seq<uint8>, outH: nat, outW: nat, outC: nat): (mask: seq<uint8>)
    requires outC >= 1 && |scores| == outH * outW * outC
    ensures |mask| == outH * outW
    ensures forall p :: 0 <= p < |mask| ==> mask[p] as int < outC
  {
    seq(outH * outW, p requires 0 <= p < outH * outW =>
      WindowInBounds(p, outH * outW, outC);
      Narrow(ArgmaxAt(scores, p * outC, outC)))
  }

  lemma ReducedAt(scores: seq<uint8>, outH: nat, outW: nat, outC: nat, p: nat)
    requires outC >= 1 && |scores| == outH * outW * outC
    requires p < outH * outW
    ensures p * outC + outC <= |scores|
    ensures Reduced(scores, outH, outW, outC)[p] == Narrow(ArgmaxAt(scores, p * outC, outC))
  {
    WindowInBounds(p, outH * outW, outC);
  }

  lemma RowStep(h: nat, outW: nat)
    ensures h * outW + outW == (h + 1) * outW
  {
  }

  /** When every class index fits in a byte, pixel `(y, x)`'s entry is the first maximum of exactly its own scores. */
  lemma ReducedAtPixel(scores: seq<uint8>, outH: nat, outW: nat, outC: nat, y: nat, x: nat)
    requires outC >= 1 && |scores| == outH * outW * outC
    requires outC <= 256
    requires y < outH && x < outW
    ensures PixelIndex(y, x, outW) < outH * outW
    ensures var p := PixelIndex(y, x, outW);
      p * outC + outC <= |scores| &&
      IsFirstMax(scores[p * outC..p * outC + outC], Reduced(scores, outH, outW, outC)[p] as nat)
  {
    PixelLayout(y, x, y, x, outH, outW);
    var p := PixelIndex(y, x, outW);
    WindowInBounds(p, outH * outW, outC);
    var k := ArgmaxAt(scores, p * outC, outC);
    assert Reduced(scores, outH, outW, outC)[p] as nat == k;
  }

  /**
   * The channel scan of one pixel: start from channel 0 and move to a later channel only when
   * its score is strictly greater than the best so far.
   */
  method PixelArgmax(data: array<uint8>, base: nat, outC: nat) returns (maxClass: nat)
    requires outC >= 1 && base + outC <= data.Length
    ensures maxClass == ArgmaxAt(data[..], base, outC)
  {
    ghost var window := data[base..base + outC];
    maxClass := 0;
    var maxVal := data[base];
    for c := 1 to outC
      invariant maxClass < c
      invariant maxVal == window[maxClass]
      invariant forall j :: 0 <= j < c ==> window[j] <= maxVal
      invariant forall j :: 0 <= j < maxClass ==> window[j] < maxVal
    {
      var val := data[base + c];
      assert val == window[c];
      if val > maxVal {
        maxVal := val;
        maxClass := c;
      }
    }
    assert data[..][base..base + outC] == window;
    FirstMaxUnique(window, maxClass);
  }

  /**
   * The reduction loop: for every pixel, row by row, find the first maximal channel and store
   * it (narrowed to a byte) at the pixel's mask index.
   */
  method Reduce(data: array<uint8>, outH: nat, outW: nat, outC: nat) returns (mask: array<uint8>)
    requires outC >= 1
    requires data.Length == outH * outW * outC
    ensures fresh(mask)
    ensures mask.Length == outH * outW
    ensures mask[..] == Reduced(data[..], outH, outW, outC)
  {
    ghost var spec := Reduced(data[..], outH, outW, outC);
    var outSize := outH * outW;
    mask := new uint8[outSize];
    for h := 0 to outH
      invariant h * outW <= outSize
      invariant forall p :: 0 <= p < h * outW ==> mask[p] == spec[p]
    {
      for w := 0 to outW
        invariant h * outW + w <= outSize
        invariant forall p :: 0 <= p < h * outW + w ==> mask[p] == spec[p]
      {
        ghost var p := h * outW + w;
        PixelBelow(h, w, outH, outW);
        WindowInBounds(p, outSize, outC);
        var maxClass := PixelArgmax(data, (h * outW + w) * outC, outC);
        ReducedAt(data[..], outH, outW, outC, p);
        mask[h * outW + w] := Narrow(maxClass);
      }
      RowStep(h, outW);
    }
    assert mask[..] == spec;
  }
}
