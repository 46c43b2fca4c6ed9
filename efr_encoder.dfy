/** The encode direction, linear PCM to GSM-EFR (`lintoefr_*` in
    codecs/codec_gsm_efr.c): a sample accumulator, the frame-boundary driver
    that hands every complete 160-sample slice to the engine and packs what
    it returns, and the engine handle's lifecycle. */
module EfrEncoder {
  import opened EfrBase
  import opened EfrBitstream

  /** The samples handed to one encode call. */
  type Slice = seq<int16>

  /** What `Encoder_Interface_Encode` reports for one slice: its return value
      and the 32 storage-form bytes it leaves at the front of the output buffer. */
  datatype EncodeReply = EncodeReply(status: int, payload: Storage)

  /** The first n complete slices of the pending samples p, in order. */
  function Slices(p: seq<int16>, n: nat): (r: seq<Slice>)
    requires FRAME_SAMPLES * n <= |p|
    ensures |r| == n
  {
    if n == 0 then [] else Slices(p, n - 1) + [p[FRAME_SAMPLES * (n - 1) .. FRAME_SAMPLES * n]]
  }

  /** Slice k is pending samples [160k, 160k + 160): the engine sees the
      buffer in consecutive, non-overlapping 160-sample steps. */
  lemma {:induction false} SliceAt(p: seq<int16>, n: nat, k: nat)
    requires FRAME_SAMPLES * n <= |p| && k < n
    ensures Slices(p, n)[k] == p[FRAME_SAMPLES * k .. FRAME_SAMPLES * (k + 1)]
  {
    if k < n - 1 {
      SliceAt(p, n - 1, k);
      assert Slices(p, n)[k] == Slices(p, n - 1)[k];
    }
  }

  /** The slices, put back together, are exactly the samples they were cut from. */
  lemma {:induction false} FlattenSlices(p: seq<int16>, n: nat)
    requires FRAME_SAMPLES * n <= |p|
    ensures Flatten(Slices(p, n)) == p[..FRAME_SAMPLES * n]
  {
    if n > 0 {
      var r := Slices(p, n);
      assert r[..n - 1] == Slices(p, n - 1);
      FlattenSlices(p, n - 1);
      assert p[..FRAME_SAMPLES * n] == p[..FRAME_SAMPLES * (n - 1)] + r[n - 1];
    }
  }

  /** Handing the first n slices to the engine and keeping the rest pending
      neither loses, repeats nor reorders a sample. */
  lemma SlicesThenRest(fed: seq<Slice>, p: seq<int16>, n: nat)
    requires FRAME_SAMPLES * n <= |p|
    ensures Flatten(fed + Slices(p, n)) + p[FRAME_SAMPLES * n..] == Flatten(fed) + p
  {
    var m := FRAME_SAMPLES * n;
    calc {
      Flatten(fed + Slices(p, n)) + p[m..];
      { FlattenAppend(fed, Slices(p, n)); }
      (Flatten(fed) + Flatten(Slices(p, n))) + p[m..];
      { FlattenSlices(p, n); }
      (Flatten(fed) + p[..m]) + p[m..];
      Flatten(fed) + (p[..m] + p[m..]);
      { assert p[..m] + p[m..] == p; }
      Flatten(fed) + p;
    }
  }

  /** A pending count of at least one slice leaves one slice fewer after
      the slice is taken. */
  lemma FullSliceLeft(samples: int)
    requires samples >= FRAME_SAMPLES
    ensures (samples - FRAME_SAMPLES) / FRAME_SAMPLES == samples / FRAME_SAMPLES - 1
  {
  }

  lemma SliceCount(n: nat, slices: nat, left: nat)
    requires n == FRAME_SAMPLES * slices + left && left < FRAME_SAMPLES
    ensures slices == n / FRAME_SAMPLES && left == n % FRAME_SAMPLES
  {
  }

  /** Whether a slice yields an output frame: the engine returned the full
      storage frame (status 32) and the host could allocate the frame. */
  predicate Emits(reply: EncodeReply, granted: bool)
  {
    reply.status == STORAGE_LEN && granted
  }

  /** The output a slice contributes: one 31-byte packed frame of 160
      samples, or nothing when the encode failed or no frame was allocated. */
  function SliceOutput(reply: EncodeReply, granted: bool): (r: seq<EfrFrame>)
  {
    if Emits(reply, granted) then [EfrFrame(Packed(reply.payload), FRAME_SAMPLES)] else []
  }

  /** The frame list one `lintoefr_frameout` returns for its first n
      slices: `replies[k]` is what the engine reported for slice k and
      `granted[k]` whether `ast_trans_frameout` produced a frame for it. */
  function Emitted(replies: seq<EncodeReply>, granted: seq<bool>, n: nat): (r: seq<EfrFrame>)
    requires n <= |replies| && n <= |granted|
  {
    if n == 0 then [] else Emitted(replies, granted, n - 1) + SliceOutput(replies[n - 1], granted[n - 1])
  }

  /** At most one frame per slice, and exactly one per slice if and only if
      every slice was encoded with status 32 and got a frame. */
  lemma {:induction false} EmittedCount(replies: seq<EncodeReply>, granted: seq<bool>, n: nat)
    requires n <= |replies| && n <= |granted|
    ensures |Emitted(replies, granted, n)| <= n
    ensures |Emitted(replies, granted, n)| == n <==> forall k :: 0 <= k < n ==> Emits(replies[k], granted[k])
  {
    if n > 0 {
      EmittedCount(replies, granted, n - 1);
    }
  }

  /** The number of the first n slices that encoded with status 32 and got
      a host frame, counted independently of the frame list. */
  function CountEmits(replies: seq<EncodeReply>, granted: seq<bool>, n: nat): (r: nat)
    requires n <= |replies| && n <= |granted|
    ensures r <= n
  {
    if n == 0 then 0
    else CountEmits(replies, granted, n - 1) + (if Emits(replies[n - 1], granted[n - 1]) then 1 else 0)
  }

  /** One frame comes out for each slice that succeeds and none for any
      other, whatever the pattern of failures. */
  lemma {:induction false} EmittedCountExact(replies: seq<EncodeReply>, granted: seq<bool>, n: nat)
    requires n <= |replies| && n <= |granted|
    ensures |Emitted(replies, granted, n)| == CountEmits(replies, granted, n)
  {
    if n > 0 {
      EmittedCountExact(replies, granted, n - 1);
    }
  }

  /** Frame-count conservation: when every slice encodes and gets a frame,
      frame k is exactly the packed reply for slice k. */
  lemma {:induction false} EmittedAllSucceed(replies: seq<EncodeReply>, granted: seq<bool>, n: nat)
    requires n <= |replies| && n <= |granted|
    requires forall k :: 0 <= k < n ==> Emits(replies[k], granted[k])
    ensures |Emitted(replies, granted, n)| == n
    ensures forall k :: 0 <= k < n ==> Emitted(replies, granted, n)[k] == EfrFrame(Packed(replies[k].payload), FRAME_SAMPLES)
  {
    if n > 0 {
      EmittedAllSucceed(replies, granted, n - 1);
    }
  }

  /** Every emitted frame is a 31-byte GSM-EFR payload, opened by the
      signature nibble, standing for 160 samples, and packed from the reply
      of a slice that encoded with status 32 and got a frame. */
  lemma {:induction false} EmittedFramesWellFormed(replies: seq<EncodeReply>, granted: seq<bool>, n: nat)
    requires n <= |replies| && n <= |granted|
    ensures forall f :: f in Emitted(replies, granted, n) ==>
      |f.data| == PACKED_LEN && Hi(f.data[0]) == SIGNATURE && f.samples == FRAME_SAMPLES
    ensures forall f :: f in Emitted(replies, granted, n) ==>
      exists k :: 0 <= k < n && Emits(replies[k], granted[k]) && f.data == Packed(replies[k].payload)
  {
    if n > 0 {
      EmittedFramesWellFormed(replies, granted, n - 1);
      PackedSignature(replies[n - 1].payload, replies[n - 1].payload);
    }
  }

  /** Failure isolation: of three slices whose middle one fails to encode,
      the first and third still come out, in order, and nothing else. */
  lemma MiddleFailureIsDropped(replies: seq<EncodeReply>, granted: seq<bool>)
    requires |replies| == 3 && granted == [true, true, true]
    requires replies[0].status == STORAGE_LEN && replies[1].status != STORAGE_LEN && replies[2].status == STORAGE_LEN
    ensures Emitted(replies, granted, 3) ==
      [EfrFrame(Packed(replies[0].payload), FRAME_SAMPLES), EfrFrame(Packed(replies[2].payload), FRAME_SAMPLES)]
  {
    assert Emitted(replies, granted, 1) == [EfrFrame(Packed(replies[0].payload), FRAME_SAMPLES)];
    assert Emitted(replies, granted, 2) == Emitted(replies, granted, 1);
  }

  /** The output buffer's first 32 bytes after the engine wrote `reply`
      there and, on success, the in-place repacking ran. */
  function StorageAfter(reply: EncodeReply): (r: Storage)
  {
    if reply.status == STORAGE_LEN then Packed(reply.payload) + [reply.payload[PACKED_LEN]] else reply.payload
  }

  /** `Encoder_Interface_Encode` writing its storage frame into out[0..32). */
  method Store(out: array<byte>, payload: Storage)
    requires out.Length >= STORAGE_LEN
    modifies out
    ensures out[..] == payload + old(out[STORAGE_LEN..])
  {
    forall i | 0 <= i < STORAGE_LEN {
      out[i] := payload[i];
    }
    assert out[..] == out[..STORAGE_LEN] + out[STORAGE_LEN..];
  }

  /** One encode translation context: `struct efr_coder_pvt` together with
      the fields of the host's `ast_trans_pvt` that this direction uses. */
  class EncoderContext {
    var state: Engine<Slice>      // apvt->state
    var buf: array<int16>         // apvt->buf, BUFFER_SAMPLES samples
    var samples: int              // pvt->samples: how many of buf are pending
    var outbuf: array<byte>       // pvt->outbuf.uc, buf_size bytes
    ghost var received: seq<int16>  // every sample appended since the engine was created
    ghost var exits: nat            // calls of Encoder_Interface_exit

    /** The buffers keep their sizes, the pending count fits the buffer, and
        while the engine lives, what it was fed followed by what is pending
        is exactly what was received: no sample is lost, repeated or reordered. */
    ghost predicate Valid()
      reads this, buf
    {
      && buf.Length == BUFFER_SAMPLES
      && outbuf.Length == OUTBUF_BYTES
      && buf as object != outbuf
      && 0 <= samples <= BUFFER_SAMPLES
      && (state.Live? ==> Flatten(state.fed) + buf[..samples] == received)
    }

    /** The host's allocation of a zeroed context, before `lintoefr_new`. */
    constructor ()
      ensures Valid() && fresh(buf) && fresh(outbuf)
      ensures state == Null && samples == 0 && received == [] && exits == 0
    {
      state := Null;
      buf := new int16[BUFFER_SAMPLES];
      samples := 0;
      outbuf := new byte[OUTBUF_BYTES];
      received := [];
      exits := 0;
    }

    /** `lintoefr_new`: create the encoder; `initOk` is whether
        `Encoder_Interface_init` returned a handle. Fails exactly when it did not. */
    method New(initOk: bool) returns (rc: int)
      requires Valid()
      modifies this
      ensures Valid() && buf == old(buf) && outbuf == old(outbuf) && samples == old(samples)
      ensures rc == (if initOk then 0 else -1)
      ensures state == (if initOk then Live([]) else Null)
      ensures exits == old(exits)
      ensures initOk ==> received == buf[..samples]
    {
      if initOk {
        state := Live([]);
        received := buf[..samples];
      } else {
        state := Null;
      }
      rc := if state.Null? then -1 else 0;
    }

    /** `lintoefr_framein`: append the frame's samples at the end of the
        pending ones. There is no bounds check: the caller keeps the buffer
        from overflowing, and a linear frame holds `samples` samples. */
    method FrameIn(f: SlinFrame) returns (rc: int)
      requires Valid()
      requires f.samples == |f.data|
      requires samples + |f.data| <= BUFFER_SAMPLES
      modifies this, buf
      ensures Valid() && buf == old(buf) && outbuf == old(outbuf)
      ensures rc == 0
      ensures buf[..] == old(buf[..samples]) + f.data + old(buf[samples + |f.data|..])
      ensures samples == old(samples) + f.samples
      ensures state == old(state) && exits == old(exits)
      ensures received == old(received) + f.data
    {
      var at := samples;
      forall i | 0 <= i < |f.data| {
        buf[at + i] := f.data[i];
      }
      samples := samples + f.samples;
      received := received + f.data;
      assert buf[..samples] == old(buf[..samples]) + f.data;
      assert buf[..] == buf[..samples] + buf[samples..];
      rc := 0;
    }

    /** One pass of the `lintoefr_frameout` loop body for one slice: the
        engine encodes it into out[0..32); on status 32 the frame is
        repacked in place and, if `granted`, handed out as a 31-byte frame
        of 160 samples. */
    method EncodeSlice(speech: Slice, reply: EncodeReply, granted: bool) returns (frames: seq<EfrFrame>)
      requires state.Live? && outbuf.Length >= STORAGE_LEN
      modifies this`state, outbuf
      ensures state == Live(old(state.fed) + [speech])
      ensures outbuf[..STORAGE_LEN] == StorageAfter(reply)
      ensures outbuf[STORAGE_LEN..] == old(outbuf[STORAGE_LEN..])
      ensures frames == SliceOutput(reply, granted)
    {
      ghost var rest := outbuf[STORAGE_LEN..];
      state := Live(state.fed + [speech]);
      Store(outbuf, reply.payload);
      ghost var stored := outbuf[..];
      assert stored[..STORAGE_LEN] == reply.payload && stored[PACKED_LEN..] == [reply.payload[PACKED_LEN]] + rest;
      var status := reply.status;
      frames := [];
      if status != STORAGE_LEN {
        // logged as an encode error; the slice yields no frame
      } else {
        status := Pack(outbuf);
        if granted {
          frames := [EfrFrame(outbuf[..status], FRAME_SAMPLES)];
        }
        calc {
          outbuf[..];
          outbuf[..PACKED_LEN] + outbuf[PACKED_LEN..];
          Packed(reply.payload) + ([reply.payload[PACKED_LEN]] + rest);
        }
      }
    }

    /** The `memmove` at the end of `lintoefr_frameout`: the `left` samples
        after the first `consumed` move to the front; the rest of buf keeps
        its old contents. */
    method MoveToFront(consumed: nat, left: nat)
      requires consumed + left <= buf.Length
      modifies buf
      ensures buf[..] == old(buf[..])[consumed .. consumed + left] + old(buf[..])[left..]
    {
      forall i | 0 <= i < left {
        buf[i] := buf[consumed + i];
      }
      assert buf[..] == buf[..left] + buf[left..];
    }

    /** The loop of `lintoefr_frameout`: while a full slice is pending,
        encode it and collect what it yields. `consumed` is how many samples
        were handed to the engine; buf itself is not touched. `replies[k]`
        is the engine's reply for slice k and `granted[k]` whether
        `ast_trans_frameout` produced a frame for it: one of each per
        complete pending slice. */
    method EncodeAll(replies: seq<EncodeReply>, granted: seq<bool>) returns (consumed: nat, result: seq<EfrFrame>)
      requires buf.Length == BUFFER_SAMPLES && outbuf.Length == OUTBUF_BYTES && buf as object != outbuf
      requires 0 <= samples <= BUFFER_SAMPLES && state.Live?
      requires |replies| == samples / FRAME_SAMPLES && |granted| == |replies|
      modifies this`state, this`samples, outbuf
      ensures consumed == FRAME_SAMPLES * |replies| && consumed + samples == old(samples)
      ensures 0 <= samples < FRAME_SAMPLES
      ensures state == Live(old(state.fed) + Slices(old(buf[..samples]), |replies|))
      ensures result == Emitted(replies, granted, |replies|)
      ensures outbuf[STORAGE_LEN..] == old(outbuf[STORAGE_LEN..])
      ensures consumed == 0 ==> outbuf[..STORAGE_LEN] == old(outbuf[..STORAGE_LEN])
      ensures consumed > 0 ==> outbuf[..STORAGE_LEN] == StorageAfter(replies[|replies| - 1])
    {
      ghost var pending := buf[..samples];
      ghost var fed0 := state.fed;
      ghost var done: seq<Slice> := [];
      consumed := 0;   // the C local `samples`: how many were handed to the engine
      var slice := 0;
      result := [];
      while samples >= FRAME_SAMPLES
        invariant 0 <= samples && consumed == FRAME_SAMPLES * slice && consumed + samples == |pending|
        invariant |replies| == slice + samples / FRAME_SAMPLES
        invariant pending == buf[..|pending|]
        invariant done == Slices(pending, slice)
        invariant state == Live(fed0 + done)
        invariant result == Emitted(replies, granted, slice)
        invariant outbuf[STORAGE_LEN..] == old(outbuf[STORAGE_LEN..])
        invariant slice == 0 ==> outbuf[..STORAGE_LEN] == old(outbuf[..STORAGE_LEN])
        invariant slice > 0 ==> outbuf[..STORAGE_LEN] == StorageAfter(replies[slice - 1])
        decreases samples
      {
        var speech := buf[consumed .. consumed + FRAME_SAMPLES];
        assert speech == pending[FRAME_SAMPLES * slice .. FRAME_SAMPLES * (slice + 1)] by {
          assert FRAME_SAMPLES * (slice + 1) == consumed + FRAME_SAMPLES;
          assert speech == buf[..|pending|][consumed .. consumed + FRAME_SAMPLES];
        }
        FullSliceLeft(samples);
        var frames := EncodeSlice(speech, replies[slice], granted[slice]);
        done := done + [speech];
        consumed := consumed + FRAME_SAMPLES;
        samples := samples - FRAME_SAMPLES;
        result := result + frames;
        slice := slice + 1;
      }
    }

    /** `lintoefr_frameout`: encode every complete pending slice, returning
        in slice order one 31-byte frame for each slice whose encode returned
        32 and whose host frame was allocated; then move the partial slice
        left over to the front of buf. `replies` and `granted` answer for the
        engine and for `ast_trans_frameout`, one per complete slice. */
    method FrameOut(replies: seq<EncodeReply>, granted: seq<bool>) returns (result: seq<EfrFrame>)
      requires Valid() && state.Live?
      requires |replies| == samples / FRAME_SAMPLES && |granted| == |replies|
      modifies this, buf, outbuf
      ensures Valid() && buf == old(buf) && outbuf == old(outbuf)
      ensures samples == old(samples) % FRAME_SAMPLES
      ensures state == Live(old(state.fed) + Slices(old(buf[..samples]), |replies|))
      ensures result == Emitted(replies, granted, |replies|)
      ensures old(samples) < FRAME_SAMPLES ==> buf[..] == old(buf[..]) && outbuf[..] == old(outbuf[..])
      ensures old(samples) >= FRAME_SAMPLES ==>
        buf[..] == old(buf[..])[old(samples) - samples .. old(samples)] + old(buf[..])[samples..]
      ensures old(samples) >= FRAME_SAMPLES ==>
        outbuf[..] == StorageAfter(replies[|replies| - 1]) + old(outbuf[STORAGE_LEN..])
      ensures received == old(received) && exits == old(exits)
    {
      ghost var pending := buf[..samples];
      ghost var fed0 := state.fed;
      assert Flatten(fed0) + pending == received;
      var consumed;
      consumed, result := EncodeAll(replies, granted);
      SliceCount(|pending|, |replies|, samples);
      if consumed != 0 {
        MoveToFront(consumed, samples);
      }
      assert buf[..samples] == pending[consumed..];
      SlicesThenRest(fed0, pending, |replies|);
      assert outbuf[..] == outbuf[..STORAGE_LEN] + outbuf[STORAGE_LEN..];
    }

    /** `lintoefr_destroy`: release a live encoder exactly once; with no
        engine it does nothing. */
    method Destroy()
      requires Valid()
      modifies this
      ensures Valid() && state == Null
      ensures exits == old(exits) + (if old(state).Live? then 1 else 0)
      ensures buf == old(buf) && samples == old(samples) && outbuf == old(outbuf) && received == old(received)
    {
      if state.Null? {
        return;
      }
      exits := exits + 1;
      state := Null;
    }
  }

  /** Destroying twice releases the engine at most once. */
  method DestroyIsIdempotent(c: EncoderContext)
    requires c.Valid()
    modifies c
    ensures c.state == Null
    ensures c.exits == old(c.exits) + (if old(c.state).Live? then 1 else 0)
  {
    c.Destroy();
    c.Destroy();
  }
}
