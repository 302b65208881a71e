/** `maskS2clouds` without the reflectance scaling: a pixel stays in the composite only when
    its cloud probability is below 20; a masked pixel keeps its values and is only hidden. */
module CloudMask {

  /** The cloud probability (percent) from which a pixel is masked. */
  const CloudThreshold: int := 20

  /** One pixel of a scene: a reflectance value, its `MSK_CLDPRB` value, and whether it is
      unmasked. */
  datatype Pixel = Pixel(reflectance: int, cloudProb: int, valid: bool)

  /** `cloudProb.lt(20)`: on the integer probability band, 19 is the largest value kept. */
  predicate CloudFree(cloudProb: int): (keep: bool)
    ensures keep <==> cloudProb <= 19
  {
    cloudProb < CloudThreshold
  }

  /** `image.updateMask(mask)`: each pixel's mask is and-ed with the cloud test; no value changes. */
  function MaskClouds(image: seq<Pixel>): (masked: seq<Pixel>)
    ensures |masked| == |image|
    ensures forall i :: 0 <= i < |image| ==>
      masked[i].reflectance == image[i].reflectance && masked[i].cloudProb == image[i].cloudProb
    ensures forall i :: 0 <= i < |image| ==>
      (masked[i].valid <==> image[i].valid && image[i].cloudProb < CloudThreshold)
  {
    seq(|image|, i requires 0 <= i < |image| =>
      image[i].(valid := image[i].valid && CloudFree(image[i].cloudProb)))
  }

  /** A probability of 19 is kept; 20 and 25 are masked. */
  lemma ThresholdExamples()
    ensures MaskClouds([Pixel(500, 19, true)]) == [Pixel(500, 19, true)]
    ensures MaskClouds([Pixel(500, 20, true)]) == [Pixel(500, 20, false)]
    ensures MaskClouds([Pixel(500, 25, true)]) == [Pixel(500, 25, false)]
  {
    assert MaskClouds([Pixel(500, 19, true)])[0] == Pixel(500, 19, true);
    assert MaskClouds([Pixel(500, 20, true)])[0] == Pixel(500, 20, false);
    assert MaskClouds([Pixel(500, 25, true)])[0] == Pixel(500, 25, false);
  }

  /** Masking a second time changes nothing. */
  lemma MaskIdempotent(image: seq<Pixel>)
    ensures MaskClouds(MaskClouds(image)) == MaskClouds(image)
  {
  }

  /** The number of unmasked pixels. */
  function ValidCount(image: seq<Pixel>): (n: nat)
    ensures n <= |image|
  {
    if image == [] then 0
    else (if image[0].valid then 1 else 0) + ValidCount(image[1..])
  }

  /** Masking never unmasks a pixel, and it hides one exactly when some unmasked pixel has a
      cloud probability of 20 or more. */
  lemma {:induction false} MaskOnlyHides(image: seq<Pixel>)
    ensures ValidCount(MaskClouds(image)) <= ValidCount(image)
    ensures ValidCount(MaskClouds(image)) == ValidCount(image) <==>
      forall i :: 0 <= i < |image| && image[i].valid ==> image[i].cloudProb < CloudThreshold
  {
    var masked := MaskClouds(image);
    if image != [] {
      MaskOnlyHides(image[1..]);
      assert masked[1..] == MaskClouds(image[1..]);
      assert ValidCount(masked) == (if masked[0].valid then 1 else 0) + ValidCount(masked[1..]);
      forall i | 1 <= i < |image| ensures image[i] == image[1..][i - 1] {
      }
    }
  }
}
