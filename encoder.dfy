/** The JPEG quality search of `image_to_base64_uri` (run.py lines 59-65).
    The JPEG encoder is a parameter: `encode(q)` is the byte string the
    image saves to at quality `q`. */
module Encoder {

  type Byte = bv8

  /** The quality the search starts at, the step it lowers it by and the
      floor at which it gives up. */
  const StartQuality: int := 95
  const QualityStep: int := 5
  const FloorQuality: int := 10

  /** The size limit the caller uses (the default of `max_size_kb`). */
  const DefaultMaxSizeKb: int := 1500

  /** `size / 1024 <= max_size_kb`, the division being true division. */
  predicate Fits(size: nat, maxSizeKb: int)
  {
    (size as real) / 1024.0 <= maxSizeKb as real
  }

  /** A quality the search can try: 95, 90, ..., 10. */
  predicate OnGrid(q: int)
  {
    FloorQuality <= q <= StartQuality && q % QualityStep == 0
  }

  /** Saves at 95, 90, ... and stops at the first quality whose encoding
      fits, or at 10 whatever the size, so it always ends on the grid. Every
      quality above the chosen one was tried and did not fit, and the chosen
      one either fits or is the floor. `saves` counts the encodings made. */
  method EncodeWithinLimit(encode: int -> seq<Byte>, maxSizeKb: int)
    returns (quality: int, payload: seq<Byte>, saves: nat)
    ensures OnGrid(quality)
    ensures payload == encode(quality)
    ensures Fits(|payload|, maxSizeKb) || quality == FloorQuality
    ensures forall q :: quality < q <= StartQuality && q % QualityStep == 0 ==> !Fits(|encode(q)|, maxSizeKb)
    ensures saves == (StartQuality - quality) / QualityStep + 1
  {
    quality := StartQuality;
    saves := 0;
    while true
      invariant OnGrid(quality)
      invariant saves == (StartQuality - quality) / QualityStep
      invariant forall q :: quality < q <= StartQuality && q % QualityStep == 0 ==> !Fits(|encode(q)|, maxSizeKb)
      decreases quality
    {
      payload := encode(quality);
      saves := saves + 1;
      if Fits(|payload|, maxSizeKb) || quality <= FloorQuality {
        break;
      }
      quality := quality - QualityStep;
    }
  }

  /** What the search returns is pinned down by its postconditions: the
      highest quality on the grid whose encoding fits, 95 when that one
      fits, and the floor when none does. */
  lemma FirstQualityThatFits(encode: int -> seq<Byte>, maxSizeKb: int, quality: int)
    requires OnGrid(quality)
    requires Fits(|encode(quality)|, maxSizeKb) || quality == FloorQuality
    requires forall q :: quality < q <= StartQuality && q % QualityStep == 0 ==> !Fits(|encode(q)|, maxSizeKb)
    ensures forall q :: OnGrid(q) && Fits(|encode(q)|, maxSizeKb) ==> q <= quality
    ensures Fits(|encode(StartQuality)|, maxSizeKb) ==> quality == StartQuality
    ensures (forall q :: OnGrid(q) ==> !Fits(|encode(q)|, maxSizeKb)) ==> quality == FloorQuality
  {
  }
}
