# GSM-EFR translator model

A Dafny model of the frame handling in Asterisk's GSM-EFR translator,
`codecs/codec_gsm_efr.c`. The translator converts between 8 kHz signed linear
PCM (`slin`) and GSM Enhanced Full Rate, using the opencore-amrnb AMR engine in
its 12.2 kbit/s mode (`MR122`). The speech transform is not modelled. What is
modelled is everything the file does around the engine:

- **Encode repacker** (`EfrBitstream.Pack`). It works in place on the output
  buffer. It turns the engine's 32-byte octet-aligned frame (the storage format
  of section 5.3 of RFC 4867) into the 31-byte GSM-EFR RTP payload of section
  4.5.9 of RFC 3551: the signature nibble `0xC`, then the 244 speech bits.
- **Decode repacker** (`EfrBitstream.Unpack`). It is the reverse conversion. It
  fills a 32-byte frame from the top down and writes the header `7 << 3`
  (frame type 7, quality bit clear).
- **Encode driver** (`EfrEncoder.EncoderContext`). `FrameIn` appends PCM to the
  8000-sample buffer. `FrameOut` encodes every complete 160-sample slice, emits
  a 31-byte frame for each slice that encoded with status 32 and got a host
  frame, and moves the partial slice to the front of the buffer.
- **Decode driver** (`EfrDecoder.DecoderContext`). Each `FrameIn` decodes
  exactly one frame and writes its 160 samples into the host's output buffer.
- **Lifecycle** of both directions. Creation fails exactly when the engine's
  init returns NULL. Destroy releases a live engine once and is otherwise a
  no-op.

Bytes are `bv8`, so the truncation C applies when `x << 4` is stored into an
`unsigned char` is explicit. Samples are a 16-bit `newtype`. The engines are
oracles. A live handle records every frame it has been fed. Each engine call's
reply (a status and a 32-byte storage frame, or 160 samples) is supplied by the
caller of the modelled operation, one per call. Whether `ast_trans_frameout`
allocates a frame is likewise a boolean per slice.

The nibble view `EfrBitstream.Nibbles` is the reference for both repackers.
Packing keeps storage nibbles 2..62 behind the signature. Unpacking puts read
nibbles 1..62 behind the header. The two are inverse on the 244 speech bits.

Three facts about the code shape the model:
- The encoder emits 31 bytes per frame: the engine's status 32 less one
  (`status - 1`).
- The decode header is `7 << 3`, that is `0x38`: frame type 7 with the
  quality bit clear.
- Decoding handles one frame per call: `efrtolin_framein` unpacks and decodes a
  single frame and never reads `f->datalen`.

## Model

| member | source | states |
|---|---|---|
| `EfrBitstream.Pack` | codecs/codec_gsm_efr.c:102-105 | In place on `out[0..32)`: `out[0]` is `0xC0` with the high nibble of the old `out[1]`, `out[i]` is the low nibble of the old `out[i]` then the high nibble of the old `out[i+1]` for 1 ≤ i ≤ 30, `out[31..]` is unchanged, and the emitted length is 31 |
| `EfrBitstream.Unpack` | codecs/codec_gsm_efr.c:142-145 | The frame built is header `0x38`, then `in[i]` is the low nibble of `data[i-1]` then the high nibble of `data[i]` for 1 ≤ i ≤ 31; only `data[0..32)` is read |
| `EfrBitstream.PackedLayout` | codecs/codec_gsm_efr.c:102-105 | The packed payload is the signature nibble followed by storage nibbles 2..62: the header byte and the padding nibble are dropped, the 244 speech bits kept in order |
| `EfrBitstream.UnpackedLayout` | codecs/codec_gsm_efr.c:142-145 | The unpacked frame is the two header nibbles followed by nibbles 1..62 of the bytes read: the signature nibble is dropped |
| `EfrBitstream.UnpackedHeader` | codecs/codec_gsm_efr.c:145 | The synthetic header is `0x38`: frame type 7 and quality bit 0 |
| `EfrBitstream.PackedSignature` | codecs/codec_gsm_efr.c:102 | Every packed payload starts with nibble `0xC`, and the engine's header byte `s[0]` never changes the payload |
| `EfrBitstream.UnpackedPaddingOnly` | codecs/codec_gsm_efr.c:142-144 | The byte read past a 31-byte payload affects only the final padding nibble of the unpacked frame |
| `EfrBitstream.PackAfterUnpack` | codecs/codec_gsm_efr.c:142-145 | Packing the unpacked frame gives back the 31-byte payload whenever it starts with the signature nibble, whatever byte follows it |
| `EfrBitstream.UnpackAfterPack` | codecs/codec_gsm_efr.c:102-104 | Unpacking the in-place buffer after packing restores storage bytes 1..30 and the high nibble of byte 31, whatever the byte after the payload |
| `EfrBitstream.NibblesAt` | codecs/codec_gsm_efr.c:104 | Byte i of a string is nibbles 2i and 2i+1 of its nibble view |
| `EfrBitstream.PackedAt` | codecs/codec_gsm_efr.c:102-105 | Packed byte 0 is `0xC0` with the high nibble of storage byte 1; packed byte i ≥ 1 is the low nibble of storage byte i then the high nibble of byte i+1 |
| `EfrBitstream.UnpackedAt` | codecs/codec_gsm_efr.c:142-145 | Unpacked byte 0 is the header `0x38`; unpacked byte i ≥ 1 is the low nibble of input byte i-1 then the high nibble of byte i |
| `EfrBitstream.PackRunAt` | codecs/codec_gsm_efr.c:103-104 | Each step of the pack loop combines byte i with its successor |
| `EfrBitstream.UnpackRunAt` | codecs/codec_gsm_efr.c:142-143 | Each step of the unpack loop combines byte i with its predecessor |
| `EfrEncoder.Slices` | codecs/codec_gsm_efr.c:85-94 | n passes of the loop hand the engine n slices |
| `EfrEncoder.SliceAt` | codecs/codec_gsm_efr.c:88-93 | Slice k handed to the engine is pending samples `[160k, 160k+160)` |
| `EfrEncoder.FlattenSlices` | codecs/codec_gsm_efr.c:85-94 | The slices put back together are exactly the first 160·n pending samples |
| `EfrEncoder.SlicesThenRest` | codecs/codec_gsm_efr.c:120-123 | The samples fed to the engine followed by those kept pending are all the samples received, none lost, repeated or reordered |
| `EfrEncoder.EmittedCount` | codecs/codec_gsm_efr.c:96-117 | At most one frame per slice, and exactly one per slice if and only if every slice encoded with status 32 and got a host frame |
| `EfrEncoder.EmittedCountExact` | codecs/codec_gsm_efr.c:96-117 | The number of frames returned equals the number of slices that encoded with status 32 and got a host frame, for any pattern of failures |
| `EfrEncoder.EmittedAllSucceed` | codecs/codec_gsm_efr.c:96-117 | When every slice encodes and gets a frame, frame k is the packed reply for slice k, one frame per slice |
| `EfrEncoder.EmittedFramesWellFormed` | codecs/codec_gsm_efr.c:102-107 | Every emitted frame has 31 bytes, starts with the signature nibble, stands for 160 samples, and is packed from the reply of a slice that encoded with status 32 and got a frame |
| `EfrEncoder.MiddleFailureIsDropped` | codecs/codec_gsm_efr.c:96-110 | Of three slices whose middle one fails to encode, exactly the first and third come out, in order |
| `EfrEncoder.Store` | codecs/codec_gsm_efr.c:91 | The engine's storage frame lands in `out[0..32)` and the rest of the output buffer is unchanged |
| `EfrEncoder.EncoderContext.constructor` | codecs/codec_gsm_efr.c:26-29 | A fresh context holds no engine, no pending samples, an 8000-sample buffer |
| `EfrEncoder.EncoderContext.New` | codecs/codec_gsm_efr.c:31-46 | `lintoefr_new` returns -1 and holds no engine exactly when init returned NULL, otherwise 0 with a fresh engine |
| `EfrEncoder.EncoderContext.FrameIn` | codecs/codec_gsm_efr.c:64-75 | The input lands in `buf[old..old+n)`, every other element of `buf` is unchanged, and the count grows by `f->samples`; the caller keeps it within 8000 |
| `EfrEncoder.EncoderContext.EncodeSlice` | codecs/codec_gsm_efr.c:86-117 | One loop pass: the engine is fed the slice; on status 32 the output buffer is repacked in place and, if a frame was allocated, one 31-byte frame of 160 samples is returned; otherwise nothing |
| `EfrEncoder.EncoderContext.MoveToFront` | codecs/codec_gsm_efr.c:120-123 | `buf[0..left)` becomes the old `buf[consumed..consumed+left)` and the rest of `buf` is unchanged |
| `EfrEncoder.EncoderContext.EncodeAll` | codecs/codec_gsm_efr.c:85-118 | The engine is called once per complete slice, in order, failures included; fewer than 160 samples stay pending; the result is the emitted frames in slice order |
| `EfrEncoder.EncoderContext.FrameOut` | codecs/codec_gsm_efr.c:77-126 | `lintoefr_frameout`: engine fed the n complete slices in order, the result is the emitted frames in slice order, `r` samples remain at the front of `buf`, the buffer is untouched when n = 0, and no received sample is lost |
| `EfrEncoder.EncoderContext.Destroy` | codecs/codec_gsm_efr.c:155-167 | `lintoefr_destroy` releases a live encoder once and clears the handle; with no engine it does nothing |
| `EfrEncoder.DestroyIsIdempotent` | codecs/codec_gsm_efr.c:159-164 | Destroying twice releases the engine at most once |
| `EfrDecoder.DeliverAppends` | codecs/codec_gsm_efr.c:147 | A block written right after the k samples held is appended to them, and the rest of the buffer is unchanged |
| `EfrDecoder.DeliverPastEndLeavesGap` | codecs/codec_gsm_efr.c:147 | A block written beyond the samples held leaves the samples in between untouched |
| `EfrDecoder.SecondFrameLeavesGap` | codecs/codec_gsm_efr.c:147-150 | With the index as written, two decodes from an empty buffer do not put the two blocks in `outbuf[0..320)` |
| `EfrDecoder.DecodedFrameHeader` | codecs/codec_gsm_efr.c:142-145 | Every frame handed to the decoder has frame type 7 and a clear quality bit, and two payloads that agree on their 31 bytes give frames that agree up to the padding nibble |
| `EfrDecoder.DecoderContext.constructor` | codecs/codec_gsm_efr.c:26-29 | A fresh context holds no engine and no decoded samples |
| `EfrDecoder.DecoderContext.New` | codecs/codec_gsm_efr.c:48-62 | `efrtolin_new` returns -1 and holds no engine exactly when init returned NULL, otherwise 0 with a fresh engine |
| `EfrDecoder.DecoderContext.Store` | codecs/codec_gsm_efr.c:147 | The decoder's 160 samples land at `outbuf[at..at+160)` and nothing else changes |
| `EfrDecoder.AsWrittenOverrunsBuffer` | codecs/codec_gsm_efr.c:147-150 | With 13 blocks held the host still admits a frame, yet the index as written puts its 160 samples past the end of the 4000-sample output buffer |
| `EfrDecoder.DecoderContext.FrameInAsWritten` | codecs/codec_gsm_efr.c:128-153 | `efrtolin_framein` as written: exactly one decode call on the unpacked frame, its 160 samples written at int16 index `datalen` and nothing else in `outbuf` changed, `samples` +160, `datalen` +320 |
| `EfrDecoder.DecoderContext.FrameIn` | codecs/codec_gsm_efr.c:147-150 | The same with the block written at index `samples`: the block is appended to the samples held, so the buffer always holds exactly the decoded blocks in order |
| `EfrDecoder.DecoderContext.Destroy` | codecs/codec_gsm_efr.c:169-181 | `efrtolin_destroy` releases a live decoder once and clears the handle; with no engine it does nothing |

## Findings

| source | as written | input that shows it | evidently intended | confidence | as-written member | corrected member |
|---|---|---|---|---|---|---|
| codecs/codec_gsm_efr.c:147 | decoded samples are written at `pvt->outbuf.i16 + pvt->datalen`, a byte count used as an `int16_t` index | two `efrtolin_framein` calls with no drain in between: the second block lands at samples 320..479, samples 160..319 are never written, and the host's 640 bytes end with stale data | write at `pvt->outbuf.i16 + pvt->samples` (`datalen / 2`) | medium, not executed; harmless while the host drains the buffer after every frame | `EfrDecoder.DecoderContext.FrameInAsWritten`, `EfrDecoder.SecondFrameLeavesGap` | `EfrDecoder.DecoderContext.FrameIn`, `EfrDecoder.DeliverAppends` |
| codecs/codec_gsm_efr.c:147 | the byte count `pvt->datalen`, which line 150 raises by 320 per call, is the `int16_t` index of the write, so it runs past the end of the 4000-sample `outbuf` once more than 1920 samples are held | 14 `efrtolin_framein` calls with no drain in between: the host admits the 14th because 2080 + 160 ≤ 4000 (`buffer_samples` is `BUFFER_SAMPLES / 2`, line 201), but the write covers int16 elements 4160..4319, beyond the 8000-byte buffer | write at `pvt->outbuf.i16 + pvt->samples`, which stays inside the buffer whenever the host admits the frame | medium, not executed; harmless while the host drains the buffer after every frame | `EfrDecoder.DecoderContext.FrameInAsWritten`, `EfrDecoder.AsWrittenOverrunsBuffer` | `EfrDecoder.DecoderContext.FrameIn` |

## Left out

- The opencore-amrnb engine (`Encoder_Interface_init/Encode/exit`, `Decoder_Interface_init/Decode/exit`) is foreign code. Each of its replies is an arbitrary input of the modelled call, not tied to the audio fed so far: the model records what each engine was fed but says nothing about the speech transform. Init is a boolean, and exit is a counter.
- `ast_trans_frameout` is a boolean per slice that says whether a frame could be allocated. Frame allocation, copying and the `AST_LIST_NEXT` chaining are modelled as a sequence of frames in order.
- The host's draining of the decode output buffer (which resets `samples` and `datalen`) lives outside this file and is not modelled.
- `pvt->t->src_codec.sample_rate` and `dst_codec.sample_rate` are fixed at 8000, as the translator tables declare, so a frame is 160 samples.
- `ast_log` and `ast_debug` are not modelled; an encode failure is only the absence of a frame.
- The translator tables, `load_module` and `unload_module` (lines 183-253) are registration boilerplate. `gsm_efr_sample` and `slin8_sample` come from headers that are not part of this model.
- The stale-audio concern at lines 68-70 is a comment; the code does nothing about it.
- The `!apvt` test in both destroy functions is not modelled: a context object always exists here.
- The decode context's unused `buf` array is not modelled.
- Buffer overruns are preconditions, not behaviour: the encode `FrameIn` requires the input to fit in 8000 samples, and the decode `FrameIn` requires the 160 samples to fit in the 4000-sample output buffer, which is the host's own admission limit. The C code checks neither.
- EfrDecoder.DecoderContext.FrameInAsWritten: its precondition `datalen + 160 <= 4000` (at most 1920 samples held) is stronger than the host's admission limit of 4000 samples; the frames the host admits beyond it overrun the buffer, which `AsWrittenOverrunsBuffer` exhibits and the model does not execute.
- EfrEncoder.EncoderContext.FrameIn: assumes the linear frame's `datalen` is twice its `samples` (`f.samples == |f.data|`); the code copies `f->datalen` bytes but counts `f->samples`, and a frame where they disagree is not modelled.
- Each engine must be live when the frame functions run; calling them with a NULL handle is not modelled.
