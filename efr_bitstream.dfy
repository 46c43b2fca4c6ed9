/** The two bit repackers of the GSM-EFR translator.

    The engine works on the octet-aligned storage form of section 5.3 of
    RFC 4867: one header byte (frame type, quality bit) followed by 31 bytes
    holding the 244 speech bits and 4 bits of padding. The wire carries the
    GSM-EFR RTP payload of section 4.5.9 of RFC 3551: the 4-bit signature
    0xC followed by the same 244 bits, 31 bytes in all. Converting between
    the two is a shift by one nibble. */
module EfrBitstream {
  import opened EfrBase

  /** The signature nibble that opens every GSM-EFR RTP payload. */
  const SIGNATURE: byte := 0xC

  /** The header the decode path writes: `7 << 3`, frame type 7 (GSM-EFR)
      with the quality bit clear. */
  const STORAGE_HEADER: byte := 0x38

  function Hi(b: byte): (r: byte) { b >> 4 }
  function Lo(b: byte): (r: byte) { b & 0xF }

  /** A byte string as its nibbles, most significant nibble first. This is
      the reference view against which both repackers are stated. */
  function Nibbles(s: seq<byte>): (r: seq<byte>)
    ensures |r| == 2 * |s|
  {
    if s == [] then [] else [Hi(s[0]), Lo(s[0])] + Nibbles(s[1..])
  }

  /** Frame-type field and quality bit of a storage-form header byte. */
  function FrameType(header: byte): (r: byte) { (header >> 3) & 0xF }
  function QualityBit(header: byte): (r: byte) { (header >> 2) & 1 }

  /** One packed byte: the low nibble of `cur` followed by the high nibble
      of `next`; `cur << 4` loses its high nibble on the store. */
  function PackByte(cur: byte, next: byte): (r: byte) { (cur << 4) | (next >> 4) }

  /** The first packed byte: the signature nibble followed by the high
      nibble of storage byte 1. */
  function SignatureByte(next: byte): (r: byte) { 0xC0 | (next >> 4) }

  /** One unpacked byte: the low nibble of `prev` followed by the high
      nibble of `cur`. */
  function UnpackByte(prev: byte, cur: byte): (r: byte) { (cur >> 4) | (prev << 4) }

  /** Each byte of `s` but the last, paired with its successor by PackByte. */
  function PackRun(s: seq<byte>): (r: seq<byte>)
    requires |s| >= 1
    ensures |r| == |s| - 1
  {
    if |s| == 1 then [] else [PackByte(s[0], s[1])] + PackRun(s[1..])
  }

  /** Each byte of `s` but the first, paired with its predecessor by UnpackByte. */
  function UnpackRun(s: seq<byte>): (r: seq<byte>)
    requires |s| >= 1
    ensures |r| == |s| - 1
  {
    if |s| == 1 then [] else [UnpackByte(s[0], s[1])] + UnpackRun(s[1..])
  }

  /** What the encode repacker leaves in out[0..31): the signature, then
      everything after the engine's header byte shifted up by one nibble. */
  function Packed(s: Storage): (r: Payload)
  {
    [SignatureByte(s[1])] + PackRun(s[1..])
  }

  /** What the decode repacker builds in in[0..32) from the 32 bytes
      `data[0..32)` it reads: a synthetic header, then the payload shifted
      down by one nibble. */
  function Unpacked(d: Storage): (r: Storage)
  {
    [STORAGE_HEADER] + UnpackRun(d)
  }

  lemma {:induction false} PackRunAt(s: seq<byte>, i: nat)
    requires i + 1 < |s|
    ensures PackRun(s)[i] == PackByte(s[i], s[i + 1])
  {
    if i > 0 {
      PackRunAt(s[1..], i - 1);
    }
  }

  lemma {:induction false} UnpackRunAt(s: seq<byte>, i: nat)
    requires i + 1 < |s|
    ensures UnpackRun(s)[i] == UnpackByte(s[i], s[i + 1])
  {
    if i > 0 {
      UnpackRunAt(s[1..], i - 1);
    }
  }

  /** Byte i of the packed payload: the signature byte first, then the low
      nibble of storage byte i followed by the high nibble of byte i + 1. */
  lemma PackedAt(s: Storage, i: nat)
    requires i < PACKED_LEN
    ensures Packed(s)[i] == if i == 0 then SignatureByte(s[1]) else PackByte(s[i], s[i + 1])
  {
    if i > 0 {
      PackRunAt(s[1..], i - 1);
    }
  }

  /** Byte i of the unpacked frame: the header first, then the low nibble
      of input byte i - 1 followed by the high nibble of byte i. */
  lemma UnpackedAt(d: Storage, i: nat)
    requires i < STORAGE_LEN
    ensures Unpacked(d)[i] == if i == 0 then STORAGE_HEADER else UnpackByte(d[i - 1], d[i])
  {
    if i > 0 {
      UnpackRunAt(d, i - 1);
    }
  }

  /** Byte i of a string is nibbles 2i and 2i + 1 of its nibble view. */
  lemma {:induction false} NibblesAt(s: seq<byte>, i: nat)
    requires i < |s|
    ensures Nibbles(s)[2 * i] == Hi(s[i]) && Nibbles(s)[2 * i + 1] == Lo(s[i])
  {
    if i > 0 {
      NibblesAt(s[1..], i - 1);
      assert Nibbles(s) == [Hi(s[0]), Lo(s[0])] + Nibbles(s[1..]);
    }
  }

  lemma PackByteNibbles(cur: byte, next: byte)
    ensures Hi(PackByte(cur, next)) == Lo(cur) && Lo(PackByte(cur, next)) == Hi(next)
  {
  }

  lemma SignatureByteNibbles(next: byte)
    ensures Hi(SignatureByte(next)) == SIGNATURE && Lo(SignatureByte(next)) == Hi(next)
  {
  }

  lemma UnpackByteNibbles(prev: byte, cur: byte)
    ensures Hi(UnpackByte(prev, cur)) == Lo(prev) && Lo(UnpackByte(prev, cur)) == Hi(cur)
  {
  }

  lemma PackOfUnpackBytes(a: byte, b: byte, c: byte)
    ensures PackByte(UnpackByte(a, b), UnpackByte(b, c)) == b
    ensures Hi(a) == SIGNATURE ==> SignatureByte(UnpackByte(a, b)) == a
  {
  }

  lemma UnpackOfPackBytes(a: byte, b: byte, c: byte)
    ensures UnpackByte(PackByte(a, b), PackByte(b, c)) == b
    ensures UnpackByte(SignatureByte(b), PackByte(b, c)) == b
  {
  }

  lemma PackedNibblesAt(s: Storage, i: nat)
    requires i < PACKED_LEN
    ensures |Nibbles(Packed(s))| == 2 * PACKED_LEN
    ensures Nibbles(Packed(s))[2 * i] == if i == 0 then SIGNATURE else Nibbles(s)[2 * i + 1]
    ensures Nibbles(Packed(s))[2 * i + 1] == Nibbles(s)[2 * i + 2]
  {
    var p := Packed(s);
    assert Nibbles(p)[2 * i] == Hi(p[i]) && Nibbles(p)[2 * i + 1] == Lo(p[i]) by {
      NibblesAt(p, i);
    }
    assert Nibbles(s)[2 * i + 2] == Hi(s[i + 1]) by {
      NibblesAt(s, i + 1);
    }
    PackedAt(s, i);
    if i == 0 {
      SignatureByteNibbles(s[1]);
    } else {
      assert Nibbles(s)[2 * i + 1] == Lo(s[i]) by {
        NibblesAt(s, i);
      }
      PackByteNibbles(s[i], s[i + 1]);
    }
  }

  /** The packed payload is the signature nibble followed by nibbles 2..62
      of the storage frame: the engine's header byte (nibbles 0 and 1) and
      the padding nibble 63 are dropped, the 244 speech bits kept in order. */
  lemma PackedLayout(s: Storage)
    ensures Nibbles(Packed(s)) == [SIGNATURE] + Nibbles(s)[2..63]
  {
    var lhs := Nibbles(Packed(s));
    var rhs := [SIGNATURE] + Nibbles(s)[2..63];
    PackedNibblesAt(s, 0);
    forall k | 0 <= k < 2 * PACKED_LEN ensures lhs[k] == rhs[k] {
      var i := k / 2;
      PackedNibblesAt(s, i);
      if k % 2 == 0 { assert k == 2 * i; } else { assert k == 2 * i + 1; }
    }
  }

  lemma UnpackedNibblesAt(d: Storage, i: nat)
    requires i < STORAGE_LEN
    ensures |Nibbles(Unpacked(d))| == 2 * STORAGE_LEN
    ensures Nibbles(Unpacked(d))[2 * i] == if i == 0 then Hi(STORAGE_HEADER) else Nibbles(d)[2 * i - 1]
    ensures Nibbles(Unpacked(d))[2 * i + 1] == if i == 0 then Lo(STORAGE_HEADER) else Nibbles(d)[2 * i]
  {
    var u := Unpacked(d);
    assert Nibbles(u)[2 * i] == Hi(u[i]) && Nibbles(u)[2 * i + 1] == Lo(u[i]) by {
      NibblesAt(u, i);
    }
    UnpackedAt(d, i);
    if i > 0 {
      assert Nibbles(d)[2 * i - 1] == Lo(d[i - 1]) by {
        NibblesAt(d, i - 1);
      }
      assert Nibbles(d)[2 * i] == Hi(d[i]) by {
        NibblesAt(d, i);
      }
      UnpackByteNibbles(d[i - 1], d[i]);
    }
  }

  /** The unpacked frame is the header byte 0x38 followed by nibbles 1..62
      of the 32 bytes read: the signature nibble is dropped, and the final
      nibble of the frame comes from the byte after a 31-byte payload. */
  lemma UnpackedLayout(d: Storage)
    ensures Nibbles(Unpacked(d)) == [Hi(STORAGE_HEADER), Lo(STORAGE_HEADER)] + Nibbles(d)[1..63]
  {
    var lhs := Nibbles(Unpacked(d));
    var rhs := [Hi(STORAGE_HEADER), Lo(STORAGE_HEADER)] + Nibbles(d)[1..63];
    UnpackedNibblesAt(d, 0);
    forall k | 0 <= k < 2 * STORAGE_LEN ensures lhs[k] == rhs[k] {
      var i := k / 2;
      UnpackedNibblesAt(d, i);
      if k % 2 == 0 { assert k == 2 * i; } else { assert k == 2 * i + 1; }
    }
  }

  /** The synthetic header announces frame type 7 and does not set the
      quality bit. */
  lemma UnpackedHeader(d: Storage)
    ensures Unpacked(d)[0] == 0x38
    ensures FrameType(Unpacked(d)[0]) == 7 && QualityBit(Unpacked(d)[0]) == 0
  {
  }

  /** Every packed payload starts with the GSM-EFR signature, and the
      engine's header byte never influences it. */
  lemma PackedSignature(s: Storage, t: Storage)
    ensures Hi(Packed(s)[0]) == SIGNATURE
    ensures s[1..] == t[1..] ==> Packed(s) == Packed(t)
  {
    SignatureByteNibbles(s[1]);
  }

  /** Only the first 31 bytes of the input decide the unpacked frame; the
      byte after them reaches only the final padding nibble. */
  lemma UnpackedPaddingOnly(d: Storage, e: Storage)
    requires d[..PACKED_LEN] == e[..PACKED_LEN]
    ensures Unpacked(d)[..PACKED_LEN] == Unpacked(e)[..PACKED_LEN]
    ensures Hi(Unpacked(d)[PACKED_LEN]) == Hi(Unpacked(e)[PACKED_LEN])
  {
    forall i | 0 <= i < PACKED_LEN ensures d[i] == e[i] {
      assert d[i] == d[..PACKED_LEN][i];
    }
    forall i | 0 <= i < PACKED_LEN ensures Unpacked(d)[i] == Unpacked(e)[i] {
      UnpackedAt(d, i);
      UnpackedAt(e, i);
    }
    UnpackedAt(d, PACKED_LEN);
    UnpackedAt(e, PACKED_LEN);
    UnpackByteNibbles(d[30], d[31]);
    UnpackByteNibbles(e[30], e[31]);
  }

  /** Packing what the decode repacker built gives back the 31-byte payload
      whenever it carried the signature, whatever byte followed it. */
  lemma PackAfterUnpack(p: Storage)
    requires Hi(p[0]) == SIGNATURE
    ensures Packed(Unpacked(p)) == p[..PACKED_LEN]
  {
    var u := Unpacked(p);
    forall i | 0 <= i < PACKED_LEN ensures Packed(u)[i] == p[i] {
      PackedAt(u, i);
      UnpackedAt(p, i + 1);
      if i == 0 {
        PackOfUnpackBytes(p[0], p[1], p[1]);
      } else {
        UnpackedAt(p, i);
        PackOfUnpackBytes(p[i - 1], p[i], p[i + 1]);
      }
    }
  }

  /** Unpacking the in-place buffer after packing (the 31 packed bytes then
      whatever byte `x` follows them) restores storage bytes 1..30 and the
      high nibble of byte 31, which together hold all 244 speech bits. */
  lemma UnpackAfterPack(s: Storage, x: byte)
    ensures Unpacked(Packed(s) + [x])[1..PACKED_LEN] == s[1..PACKED_LEN]
    ensures Hi(Unpacked(Packed(s) + [x])[PACKED_LEN]) == Hi(s[PACKED_LEN])
  {
    var p := Packed(s);
    var d: Storage := p + [x];
    var u := Unpacked(d);
    forall i | 1 <= i < PACKED_LEN ensures u[i] == s[i] {
      UnpackedAt(d, i);
      assert d[i - 1] == p[i - 1] && d[i] == p[i];
      PackedAt(s, i - 1);
      PackedAt(s, i);
      if i == 1 {
        UnpackOfPackBytes(s[1], s[1], s[2]);
      } else {
        UnpackOfPackBytes(s[i - 1], s[i], s[i + 1]);
      }
    }
    assert Hi(u[PACKED_LEN]) == Hi(s[PACKED_LEN]) by {
      UnpackedAt(d, PACKED_LEN);
      assert d[30] == p[30] && d[31] == x;
      PackedAt(s, 30);
      UnpackByteNibbles(p[30], x);
      PackByteNibbles(s[30], s[31]);
    }
  }

  /** Lines 102-104: the engine's 32-byte storage frame in out[0..32) is
      repacked in place, front to back, each step reading out[i + 1] before
      it is rewritten; the emitted length is 31. */
  method Pack(out: array<byte>) returns (len: int)
    requires out.Length >= STORAGE_LEN
    modifies out
    ensures len == PACKED_LEN
    ensures out[..PACKED_LEN] == Packed(old(out[..STORAGE_LEN]))
    ensures out[PACKED_LEN..] == old(out[PACKED_LEN..])
  {
    ghost var s: Storage := out[..STORAGE_LEN];
    out[0] := SignatureByte(out[1]);
    var i := 1;
    len := STORAGE_LEN - 1;
    while i < len
      invariant 1 <= i <= PACKED_LEN
      invariant out[0] == SignatureByte(s[1])
      invariant forall k :: 1 <= k < i ==> out[k] == PackByte(s[k], s[k + 1])
      invariant forall k :: i <= k < out.Length ==> out[k] == old(out[k])
    {
      out[i] := PackByte(out[i], out[i + 1]);
      i := i + 1;
    }
    forall k | 0 <= k < PACKED_LEN ensures out[k] == Packed(s)[k] {
      PackedAt(s, k);
    }
  }

  /** Lines 142-145: in[] is filled from the top down out of data[0..32),
      then given the synthetic header. data is the frame's payload pointer;
      the loop reads one byte past a 31-byte payload. */
  method Unpack(data: seq<byte>) returns (frame: Storage)
    requires |data| >= STORAGE_LEN
    ensures frame == Unpacked(data[..STORAGE_LEN])
  {
    var buf := new byte[STORAGE_LEN];
    var i := STORAGE_LEN - 1;
    while i >= 1
      invariant 0 <= i <= STORAGE_LEN - 1
      invariant forall k :: i < k < STORAGE_LEN ==> buf[k] == UnpackByte(data[k - 1], data[k])
    {
      buf[i] := UnpackByte(data[i - 1], data[i]);
      i := i - 1;
    }
    buf[0] := STORAGE_HEADER;
    frame := buf[..];
    forall k | 0 <= k < STORAGE_LEN ensures frame[k] == Unpacked(data[..STORAGE_LEN])[k] {
      UnpackedAt(data[..STORAGE_LEN], k);
    }
  }
}
