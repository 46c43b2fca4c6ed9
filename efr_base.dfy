/** Shared vocabulary of the GSM-EFR translator: the byte and sample types,
    the fixed frame constants, the codec-engine handle and the frames the
    translator exchanges with its host. */
module EfrBase {

  /** An `unsigned char` of the C code. Shifts on `bv8` drop the bits that C
      drops when an `int`-promoted result is stored back into an unsigned char. */
  type byte = bv8

  /** A signed linear PCM sample (`int16_t`). */
  newtype int16 = x: int | -0x8000 <= x < 0x8000

  /** Capacity of the linear sample buffer: 1000 ms at 8 kHz (BUFFER_SAMPLES). */
  const BUFFER_SAMPLES: nat := 8000

  /** One codec frame: 20 ms at the fixed 8000 Hz rate, `sample_rate / 50`. */
  const FRAME_SAMPLES: nat := 160

  /** Length of the engine's octet-aligned ("storage format") frame, and the
      only encode status that counts as success. */
  const STORAGE_LEN: nat := 32

  /** Length of the bandwidth-efficient GSM-EFR RTP payload that is emitted. */
  const PACKED_LEN: nat := 31

  /** Size in bytes of the host's output buffer (`buf_size`). */
  const OUTBUF_BYTES: nat := 8000

  /** The same output buffer seen as `int16_t` samples (`outbuf.i16`). */
  const OUTBUF_SAMPLES: nat := 4000

  /** One storage-form frame as the engine reads or writes it. */
  type Storage = s: seq<byte> | |s| == STORAGE_LEN witness seq(32, _ => 0)

  /** One packed GSM-EFR payload: the 4-bit signature and 244 speech bits. */
  type Payload = s: seq<byte> | |s| == PACKED_LEN witness seq(31, _ => 0)

  /** One frame of decoded PCM. */
  type Pcm = s: seq<int16> | |s| == FRAME_SAMPLES witness seq(160, _ => 0)

  /** The opaque `state` pointer of a translation context. A live engine is
      described by every frame it has been fed since it was created. Its
      replies are not derived from that history: each modelled call takes
      the reply as an arbitrary input. */
  datatype Engine<T> = Null | Live(fed: seq<T>)

  /** An output or input frame as the host sees it: its data and its sample count. */
  datatype EfrFrame = EfrFrame(data: seq<byte>, samples: nat)
  datatype SlinFrame = SlinFrame(data: seq<int16>, samples: int)

  /** Concatenation of a sequence of sample blocks, in order. */
  function Flatten(blocks: seq<seq<int16>>): (r: seq<int16>)
    decreases |blocks|
  {
    if blocks == [] then [] else Flatten(blocks[..|blocks| - 1]) + blocks[|blocks| - 1]
  }

  lemma {:induction false} FlattenAppend(a: seq<seq<int16>>, b: seq<seq<int16>>)
    ensures Flatten(a + b) == Flatten(a) + Flatten(b)
    decreases |b|
  {
    if b == [] {
      assert a + b == a;
    } else {
      var k := |b| - 1;
      assert (a + b)[..|a + b| - 1] == a + b[..k];
      FlattenAppend(a, b[..k]);
    }
  }
}
