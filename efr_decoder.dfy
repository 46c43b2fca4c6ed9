/** The decode direction, GSM-EFR to linear PCM (`efrtolin_*` in
    codecs/codec_gsm_efr.c): each incoming payload is unpacked into a
    storage-form frame, decoded by the engine in one call, and its 160
    samples are written into the host's output buffer. */
module EfrDecoder {
  import opened EfrBase
  import opened EfrBitstream

  /** The output buffer after one decoded block was written at sample index
      `at`: everything before and after the block keeps its old contents. */
  function Deliver(out: seq<int16>, at: nat, pcm: Pcm): (r: seq<int16>)
    requires at + FRAME_SAMPLES <= |out|
  {
    out[..at] + pcm + out[at + FRAME_SAMPLES..]
  }

  /** Writing a block right after the `k` samples already held appends it:
      the first k + 160 samples are the old ones followed by the new block,
      and the rest of the buffer is unchanged. */
  lemma DeliverAppends(out: seq<int16>, k: nat, pcm: Pcm)
    requires k + FRAME_SAMPLES <= |out|
    ensures |Deliver(out, k, pcm)| == |out|
    ensures Deliver(out, k, pcm)[..k + FRAME_SAMPLES] == out[..k] + pcm
    ensures Deliver(out, k, pcm)[k + FRAME_SAMPLES..] == out[k + FRAME_SAMPLES..]
  {
    var r := Deliver(out, k, pcm);
    assert r == (out[..k] + pcm) + out[k + FRAME_SAMPLES..];
  }

  /** Writing a block at an index beyond the `k` samples held leaves the
      samples between them as they were: the held samples are not followed
      by the new block. */
  lemma DeliverPastEndLeavesGap(out: seq<int16>, k: nat, at: nat, pcm: Pcm)
    requires k < at && at + FRAME_SAMPLES <= |out|
    ensures Deliver(out, at, pcm)[k] == out[k]
    ensures Deliver(out, at, pcm)[at] == pcm[0]
  {
    assert Deliver(out, at, pcm)[k] == out[..at][k];
  }

  /** The `efrtolin_framein` index as written, `pvt->outbuf.i16 +
      pvt->datalen`: a byte count used as an `int16_t` element offset. From
      an empty buffer, a first call writes samples 0..159 and raises datalen
      to 320, so a second call before the host drains the buffer writes
      samples 320..479: samples 160..319, which the host believes hold the
      second block, keep whatever was there. */
  lemma SecondFrameLeavesGap()
    ensures
      var first: Pcm := seq(160, _ => 0);
      var second: Pcm := seq(160, _ => 1);
      var out := Deliver(Deliver(seq(OUTBUF_SAMPLES, _ => 0), 0, first), 2 * FRAME_SAMPLES, second);
      out[..2 * FRAME_SAMPLES] != first + second
  {
    var first: Pcm := seq(160, _ => 0);
    var second: Pcm := seq(160, _ => 1);
    var once := Deliver(seq(OUTBUF_SAMPLES, _ => 0), 0, first);
    var out := Deliver(once, 2 * FRAME_SAMPLES, second);
    DeliverPastEndLeavesGap(once, FRAME_SAMPLES, 2 * FRAME_SAMPLES, second);
    assert out[..2 * FRAME_SAMPLES][FRAME_SAMPLES] == 0;
    assert (first + second)[FRAME_SAMPLES] == 1;
  }

  /** The host accepts a frame into the decode buffer while the samples held
      plus 160 fit in its `buffer_samples`, half of `BUFFER_SAMPLES`. With
      13 blocks held and no drain it accepts a 14th, yet the index as
      written, `datalen` = 4160, puts that block past the end of the
      4000-sample output buffer. */
  lemma AsWrittenOverrunsBuffer()
    ensures
      var held := 13 * FRAME_SAMPLES;
      && held + FRAME_SAMPLES <= BUFFER_SAMPLES / 2
      && 2 * held + FRAME_SAMPLES > OUTBUF_SAMPLES
  {
  }

  /** One decode translation context: the `state` of `struct efr_coder_pvt`
      together with the fields of the host's `ast_trans_pvt` that this
      direction uses. */
  class DecoderContext {
    var state: Engine<Storage>     // apvt->state
    var samples: int               // pvt->samples: decoded samples held in outbuf
    var datalen: int               // pvt->datalen: the same, in bytes
    var outbuf: array<int16>       // pvt->outbuf.i16, buf_size bytes
    ghost var decoded: seq<Pcm>    // the blocks delivered into outbuf, in order
    ghost var exits: nat           // calls of Decoder_Interface_exit

    /** The output buffer keeps its size and the two counters agree: datalen
        is always twice samples. */
    ghost predicate Valid()
      reads this
    {
      && outbuf.Length == OUTBUF_SAMPLES
      && 0 <= samples <= OUTBUF_SAMPLES
      && datalen == 2 * samples
    }

    /** The samples the host will take from outbuf are exactly the decoded
        blocks, in order. */
    ghost predicate Coherent()
      reads this, outbuf
      requires Valid()
    {
      outbuf[..samples] == Flatten(decoded)
    }

    /** The host's allocation of a zeroed context, before `efrtolin_new`. */
    constructor ()
      ensures Valid() && Coherent() && fresh(outbuf)
      ensures state == Null && samples == 0 && datalen == 0 && decoded == [] && exits == 0
    {
      state := Null;
      samples := 0;
      datalen := 0;
      outbuf := new int16[OUTBUF_SAMPLES];
      decoded := [];
      exits := 0;
    }

    /** `efrtolin_new`: create the decoder; `initOk` is whether
        `Decoder_Interface_init` returned a handle. Fails exactly when it did not. */
    method New(initOk: bool) returns (rc: int)
      requires Valid()
      modifies this
      ensures Valid() && outbuf == old(outbuf) && samples == old(samples) && datalen == old(datalen)
      ensures rc == (if initOk then 0 else -1)
      ensures state == (if initOk then Live([]) else Null)
      ensures decoded == old(decoded) && exits == old(exits)
    {
      if initOk {
        state := Live([]);
      } else {
        state := Null;
      }
      rc := if state.Null? then -1 else 0;
    }

    /** `Decoder_Interface_Decode` writing its 160 samples at outbuf[at]. */
    method Store(at: nat, pcm: Pcm)
      requires at + FRAME_SAMPLES <= outbuf.Length
      modifies outbuf
      ensures outbuf[..] == Deliver(old(outbuf[..]), at, pcm)
    {
      forall i | 0 <= i < FRAME_SAMPLES {
        outbuf[at + i] := pcm[i];
      }
      assert outbuf[..] == outbuf[..at] + outbuf[at..at + FRAME_SAMPLES] + outbuf[at + FRAME_SAMPLES..];
    }

    /** `efrtolin_framein` as written. `data` is the memory at the frame's
        payload pointer; the unpack loop reads data[0..32) whatever the
        frame's length. `pcm` is what `Decoder_Interface_Decode` produces
        for it. Exactly one storage frame is decoded, its samples
        are written at int16 index `datalen`, and the counters grow by one
        frame. The host must keep that write inside outbuf. */
    method FrameInAsWritten(data: seq<byte>, pcm: Pcm) returns (rc: int)
      requires Valid() && state.Live?
      requires |data| >= STORAGE_LEN
      requires datalen + FRAME_SAMPLES <= OUTBUF_SAMPLES
      modifies this, outbuf
      ensures Valid() && outbuf == old(outbuf) && rc == 0
      ensures state == Live(old(state.fed) + [Unpacked(data[..STORAGE_LEN])])
      ensures outbuf[..] == Deliver(old(outbuf[..]), old(datalen), pcm)
      ensures samples == old(samples) + FRAME_SAMPLES && datalen == old(datalen) + 2 * FRAME_SAMPLES
      ensures decoded == old(decoded) + [pcm] && exits == old(exits)
    {
      var frame := Unpack(data);
      state := Live(state.fed + [frame]);
      Store(datalen, pcm);
      samples := samples + FRAME_SAMPLES;
      datalen := datalen + FRAME_SAMPLES * 2;
      decoded := decoded + [pcm];
      rc := 0;
    }

    /** `efrtolin_framein` with the block written at int16 index `samples`
        (the byte count `datalen` halved): the decoded block is appended to
        the samples already held, so the buffer keeps matching the blocks
        decoded so far. */
    method FrameIn(data: seq<byte>, pcm: Pcm) returns (rc: int)
      requires Valid() && Coherent() && state.Live?
      requires |data| >= STORAGE_LEN
      requires samples + FRAME_SAMPLES <= OUTBUF_SAMPLES
      modifies this, outbuf
      ensures Valid() && Coherent() && outbuf == old(outbuf) && rc == 0
      ensures state == Live(old(state.fed) + [Unpacked(data[..STORAGE_LEN])])
      ensures outbuf[..samples] == old(outbuf[..samples]) + pcm
      ensures outbuf[samples..] == old(outbuf[..])[samples..]
      ensures samples == old(samples) + FRAME_SAMPLES && datalen == old(datalen) + 2 * FRAME_SAMPLES
      ensures decoded == old(decoded) + [pcm] && exits == old(exits)
    {
      var frame := Unpack(data);
      state := Live(state.fed + [frame]);
      ghost var before := outbuf[..];
      Store(datalen / 2, pcm);
      DeliverAppends(before, samples, pcm);
      samples := samples + FRAME_SAMPLES;
      datalen := datalen + FRAME_SAMPLES * 2;
      decoded := decoded + [pcm];
      assert outbuf[..samples] == outbuf[..][..samples];
      FlattenAppend(old(decoded), [pcm]);
      assert Flatten([pcm]) == Flatten([pcm][..0]) + pcm;
      rc := 0;
    }

    /** `efrtolin_destroy`: release a live decoder exactly once; with no
        engine it does nothing. */
    method Destroy()
      requires Valid()
      modifies this
      ensures Valid() && state == Null
      ensures exits == old(exits) + (if old(state).Live? then 1 else 0)
      ensures outbuf == old(outbuf) && samples == old(samples) && datalen == old(datalen)
      ensures decoded == old(decoded)
    {
      if state.Null? {
        return;
      }
      exits := exits + 1;
      state := Null;
    }
  }

  /** Every frame the engine is handed carries the GSM-EFR frame type 7 and
      a clear quality bit, and two payloads that differ only after their
      31st byte reach it as frames that differ at most in the padding nibble. */
  lemma DecodedFrameHeader(data: seq<byte>, other: seq<byte>)
    requires |data| >= STORAGE_LEN && |other| >= STORAGE_LEN
    requires data[..PACKED_LEN] == other[..PACKED_LEN]
    ensures FrameType(Unpacked(data[..STORAGE_LEN])[0]) == 7
    ensures QualityBit(Unpacked(data[..STORAGE_LEN])[0]) == 0
    ensures Unpacked(data[..STORAGE_LEN])[..PACKED_LEN] == Unpacked(other[..STORAGE_LEN])[..PACKED_LEN]
    ensures Hi(Unpacked(data[..STORAGE_LEN])[PACKED_LEN]) == Hi(Unpacked(other[..STORAGE_LEN])[PACKED_LEN])
  {
    var d: Storage := data[..STORAGE_LEN];
    var e: Storage := other[..STORAGE_LEN];
    UnpackedHeader(d);
    assert d[..PACKED_LEN] == data[..PACKED_LEN] && e[..PACKED_LEN] == other[..PACKED_LEN];
    UnpackedPaddingOnly(d, e);
  }
}
