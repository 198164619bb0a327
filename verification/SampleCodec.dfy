/** A concrete compressor: runs of one byte become the byte and a count.  It shows that the
    contract on compressors can be met and that compressed records really arise. */
module SampleCodec {
  import opened Wrappers
  import opened Coding
  import opened ListFormat

  predicate IsRun(x: Bytes) {
    0 < |x| < TWO32 && forall i :: 0 <= i < |x| ==> x[i] == x[0]
  }

  function Repeat(b: Byte, n: nat): (x: Bytes)
    ensures |x| == n
  {
    seq(n, _ => b)
  }

  function CompressRun(x: Bytes): Option<Bytes> {
    if IsRun(x) then Some([x[0]] + EncodeVarint(|x|)) else None
  }

  function UncompressRun(y: Bytes): Option<Bytes> {
    if y == [] then None
    else
      var p :- ParseVarint(y[1..]);
      Some(Repeat(y[0], p.value))
  }

  const RUNS: Codec := Codec(CompressRun, UncompressRun)

  lemma RunsAreSound()
    ensures RUNS.Sound()
  {
    forall x {:trigger RUNS.compress(x)} | RUNS.compress(x).Some?
      ensures RUNS.uncompress(RUNS.compress(x).value) == Some(x)
    {
      var y := CompressRun(x).value;
      VarintRoundTrip(|x|, []);
      assert y[1..] == EncodeVarint(|x|) + [];
      assert Repeat(x[0], |x|) == x;
    }
  }

  /** With it the writer's configuration is valid and a long run is stored compressed. */
  lemma CompressionHappens(n: nat)
    requires 64 < n < TWO32
    ensures var c := Config(BLOCK_SIZE_FACTOR, Some(ZLIB), Codecs(RUNS, map[ZLIB := RUNS]));
            && c.Valid()
            && c.StoredForm(FULL, Repeat(7, n)).0 == FULL + COMPRESSED_MASK
            && |c.StoredForm(FULL, Repeat(7, n)).1| <= 7
  {
    RunsAreSound();
    VarintWidth(n);
    assert IsRun(Repeat(7, n));
  }
}
