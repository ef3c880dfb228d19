/**
 * The postprocessing stage of the inference program, in the order it runs: reduce the output
 * score tensor to a class mask, then colour the mask with the width and height swapped into
 * the encoder's `(width, height)` order.
 */
module Postprocess {
  import opened Bytes
  import opened ArgmaxReducer
  import opened MaskEncoder

  /**
   * With at most two channels every class index is a palette row, so the reduced mask can
   * always be coloured.
   */
  lemma TwoClassesInPalette(scores: seq<uint8>, outH: nat, outW: nat, outC: nat)
    requires 1 <= outC <= 2 && |scores| == outH * outW * outC
    ensures InPalette(Reduced(scores, outH, outW, outC))
  {
  }

  /** Reduce the score tensor, then encode the mask as an `outW x outH` RGB image. */
  method Postprocess(outputData: array<uint8>, outH: nat, outW: nat, outC: nat)
    returns (segMask: array<uint8>, rgb: array<uint8>)
    requires outC >= 1
    requires outputData.Length == outH * outW * outC
    requires InPalette(Reduced(outputData[..], outH, outW, outC))
    ensures fresh(segMask) && fresh(rgb)
    ensures segMask[..] == Reduced(outputData[..], outH, outW, outC)
    ensures rgb.Length == outH * outW * 3
    ensures rgb[..] == Encoded(Reduced(outputData[..], outH, outW, outC))
  {
    segMask := Reduce(outputData, outH, outW, outC);
    assert outW * outH == outH * outW;
    assert segMask[..outW * outH] == segMask[..];
    rgb := Encode(segMask, outW, outH);
  }

  /**
   * A 2 x 2 tensor with two channels and per-pixel scores (10,200), (200,10), (5,5), (0,255)
   * gives the mask [1, 0, 0, 1]: the tie at the third pixel goes to class 0.
   */
  const ExampleScores: seq<uint8> := [10, 200, 200, 10, 5, 5, 0, 255]

  lemma ExampleMask()
    ensures var mask := Reduced(ExampleScores, 2, 2, 2);
      |mask| == 4 && mask[0] == 1 && mask[1] == 0 && mask[2] == 0 && mask[3] == 1
  {
    PixelOfTwo(ExampleScores, 0, 1);
    PixelOfTwo(ExampleScores, 1, 0);
    PixelOfTwo(ExampleScores, 2, 0);
    PixelOfTwo(ExampleScores, 3, 1);
  }

  /** Pixel `p` of the 2 x 2 x 2 example gets class `k`, the first maximum of its two scores. */
  lemma PixelOfTwo(scores: seq<uint8>, p: nat, k: nat)
    requires |scores| == 8 && p < 4 && k < 2
    requires scores[2 * p + k] >= scores[2 * p + 1 - k]
    requires k == 1 ==> scores[2 * p] < scores[2 * p + 1]
    ensures Reduced(scores, 2, 2, 2)[p] as nat == k
  {
    ReducedAt(scores, 2, 2, 2, p);
    var w := scores[p * 2..p * 2 + 2];
    assert w[0] == scores[2 * p] && w[1] == scores[2 * p + 1];
    FirstMaxUnique(w, k);
  }

  /** That mask is coloured black, magenta, magenta, black. */
  lemma ExampleImage()
    ensures Encoded([1, 0, 0, 1]) == [0, 0, 0, 255, 0, 255, 255, 0, 255, 0, 0, 0]
  {
    var mask: seq<uint8> := [1, 0, 0, 1];
    assert mask[..3][..2][..1] == [1];
    assert Encoded([1]) == [0, 0, 0];
  }
}
