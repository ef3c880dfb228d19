/**
 * The class-index to colour encoding of `save_mask_as_png`: every mask entry becomes three
 * interleaved bytes taken from a fixed two-row palette.
 */
module MaskEncoder {
  import opened Bytes

  datatype Rgb = Rgb(r: uint8, g: uint8, b: uint8)

  /** The palette: class 0 is magenta, class 1 is black. */
  const ClassColors: seq<Rgb> := [Rgb(255, 0, 255), Rgb(0, 0, 0)]

  /** Every entry of `mask` names a palette row; the encoder indexes the palette unchecked. */
  predicate InPalette(mask: seq<uint8>)
  {
    forall i :: 0 <= i < |mask| ==> mask[i] as int < |ClassColors|
  }

  function ColorBytes(c: Rgb): seq<uint8>
  {
    [c.r, c.g, c.b]
  }

  /** The RGB buffer for `mask`, one pixel at a time in mask order. */
  function Encoded(mask: seq<uint8>): (rgb: seq<uint8>)
    requires InPalette(mask)
    ensures |rgb| == 3 * |mask|
    decreases |mask|
  {
    if mask == [] then []
    else Encoded(mask[..|mask| - 1]) + ColorBytes(ClassColors[mask[|mask| - 1]])
  }

  /** Bytes `3i`, `3i+1`, `3i+2` of the buffer are the palette colour of mask entry `i`. */
  lemma {:induction false} EncodedAt(mask: seq<uint8>, i: nat)
    requires InPalette(mask) && i < |mask|
    ensures |Encoded(mask)| == 3 * |mask|
    ensures Encoded(mask)[3 * i..3 * i + 3] == ColorBytes(ClassColors[mask[i]])
  {
    var n := |mask|;
    var front := mask[..n - 1];
    assert Encoded(mask) == Encoded(front) + ColorBytes(ClassColors[mask[n - 1]]);
    if i < n - 1 {
      EncodedAt(front, i);
      assert Encoded(mask)[3 * i..3 * i + 3] == Encoded(front)[3 * i..3 * i + 3];
    }
  }

  /** Encoding distributes over concatenation of masks: pixels are encoded independently, in order. */
  lemma {:induction false} EncodedAppend(a: seq<uint8>, b: seq<uint8>)
    requires InPalette(a) && InPalette(b)
    ensures InPalette(a + b)
    ensures Encoded(a + b) == Encoded(a) + Encoded(b)
    decreases |b|
  {
    assert InPalette(a + b);
    if b == [] {
      assert a + b == a;
    } else {
      var n := |b|;
      var front := b[..n - 1];
      var last := ColorBytes(ClassColors[b[n - 1]]);
      var ab := a + b;
      assert ab[..|ab| - 1] == a + front;
      assert ab[|ab| - 1] == b[n - 1];
      assert Encoded(ab) == Encoded(a + front) + last;
      EncodedAppend(a, front);
      assert Encoded(b) == Encoded(front) + last;
    }
  }

  /** Each pixel's three bytes depend only on its own mask entry. */
  lemma EncodedLocal(m: seq<uint8>, m': seq<uint8>, i: nat)
    requires InPalette(m) && InPalette(m')
    requires i < |m| && i < |m'| && m[i] == m'[i]
    ensures Encoded(m)[3 * i..3 * i + 3] == Encoded(m')[3 * i..3 * i + 3]
  {
    EncodedAt(m, i);
    EncodedAt(m', i);
  }

  /** The palette rows differ, so no class information is lost: distinct masks give distinct buffers. */
  lemma EncodedInjective(m: seq<uint8>, m': seq<uint8>)
    requires InPalette(m) && InPalette(m')
    requires Encoded(m) == Encoded(m')
    ensures m == m'
  {
    forall i | 0 <= i < |m|
      ensures m[i] == m'[i]
    {
      EncodedAt(m, i);
      EncodedAt(m', i);
      assert ColorBytes(ClassColors[m[i]]) == ColorBytes(ClassColors[m'[i]]);
    }
  }

  /** The bytes the encoding loop has written once it has coloured the first `i` entries of `m`. */
  function EncodedPrefix(m: seq<uint8>, i: nat): (rgb: seq<uint8>)
    requires InPalette(m) && i <= |m|
    ensures |rgb| == 3 * i
  {
    assert InPalette(m[..i]);
    Encoded(m[..i])
  }

  /**
   * One step of the encoding loop: if the buffer's first `3i` bytes encode the first `i` mask
   * entries, writing entry `i`'s colour at `3i` makes the first `3i + 3` bytes encode `i + 1`.
   */
  lemma EncodeStep(before: seq<uint8>, after: seq<uint8>, m: seq<uint8>, i: nat)
    requires InPalette(m) && i < |m| && 3 * i + 3 <= |before|
    requires before[..3 * i] == EncodedPrefix(m, i)
    requires after == before[3 * i := ClassColors[m[i]].r][3 * i + 1 := ClassColors[m[i]].g][3 * i + 2 := ClassColors[m[i]].b]
    ensures after[..3 * i + 3] == EncodedPrefix(m, i + 1)
  {
    assert m[..i + 1][..i] == m[..i];
    assert InPalette(m[..i + 1]);
    assert after[..3 * i + 3] == before[..3 * i] + ColorBytes(ClassColors[m[i]]);
  }

  /**
   * The loop of `save_mask_as_png` over `n = width * height` mask entries: allocate `n * 3`
   * bytes and write the palette colour of entry `i` at bytes `i * 3 + 0 .. i * 3 + 2`.
   * The mask is only read.
   */
  method EncodePixels(mask: array<uint8>, n: nat) returns (rgb: array<uint8>)
    requires n <= mask.Length
    requires InPalette(mask[..n])
    ensures fresh(rgb)
    ensures rgb.Length == n * 3
    ensures rgb[..] == Encoded(mask[..n])
  {
    ghost var m := mask[..n];
    rgb := new uint8[n * 3];
    for i := 0 to n
      invariant rgb[..3 * i] == EncodedPrefix(m, i)
    {
      var classId := mask[i];
      assert m[i] == classId;
      ghost var before := rgb[..];
      rgb[i * 3 + 0] := ClassColors[classId].r;
      rgb[i * 3 + 1] := ClassColors[classId].g;
      rgb[i * 3 + 2] := ClassColors[classId].b;
      EncodeStep(before, rgb[..], m, i);
    }
    assert rgb[..] == rgb[..n * 3];
    assert m[..n] == m;
  }

  /** `save_mask_as_png` without the file output: colour the first `width * height` mask entries. */
  method Encode(mask: array<uint8>, width: nat, height: nat) returns (rgb: array<uint8>)
    requires width * height <= mask.Length
    requires InPalette(mask[..width * height])
    ensures fresh(rgb)
    ensures rgb.Length == width * height * 3
    ensures rgb[..] == Encoded(mask[..width * height])
  {
    rgb := EncodePixels(mask, width * height);
  }
}
