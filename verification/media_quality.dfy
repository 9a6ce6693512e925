/** struct media_quality of src/misc.h, shared by the session engine and the subscription table. */
module MediaQuality {

  datatype Quality = Quality(sampleRate: int, bitsPerSample: int, channels: int, bitRate: int)

  /** quality_is_equal of src/misc.c. */
  predicate QualityIsEqual(a: Quality, b: Quality): (r: bool)
    ensures r <==> a == b
  {
    && a.sampleRate == b.sampleRate && a.bitsPerSample == b.bitsPerSample
    && a.channels == b.channels && a.bitRate == b.bitRate
  }
}
