/**
 Stamping a firmware image: padding, header, stored length and trailing CRC.
 */
module Firmware {
  import opened Crc32
  import opened LittleEndian

  const FLAG_FW_CHECK: byte := 0x5D
  const FW_CHECK_AGTHM2: byte := 0x02
  const INPUT_BIN_SIZE_MAX: nat := 4 * 1024 * 1024
  const CRC_INIT: bv32 := 0xFFFF_FFFF

  /** The file is left alone if it is too large (an error) or too small (not an error). */
  datatype Outcome = TooLarge | TooSmall | Stamped(image: seq<byte>)

  /** The next multiple of 16. */
  function Padded(n: nat): nat
  {
    if n % 16 == 0 then n else n + 16 - n % 16
  }

  /** Bytes that the stamp overwrites: flag, algorithm, and four bytes of length. */
  predicate Header(i: nat)
  {
    i == 6 || i == 7 || 24 <= i < 28
  }

  /** What a stamped image is. */
  ghost predicate IsStampOf(image: seq<byte>, data: seq<byte>)
  {
    // the data padded to the next multiple of 16, and four bytes more
    && 32 <= |data| <= |image| - 4 < |data| + 16 && |image| % 16 == 4
    // nothing but the header changes, and padding is 0xFF
    && (forall i :: 0 <= i < |data| && i != 6 && i != 7 && !(24 <= i < 28) ==> image[i] == data[i])
    && (forall i :: |data| <= i < |image| - 4 ==> image[i] == 0xFF)
    && image[6] == 0x5D && image[7] == 0x02
    // the four bytes at offset 24 are the image's own length
    && Number(image[24], image[25], image[26], image[27]) == |image|
    // the image checks itself: the last four bytes make its CRC zero
    && image[|image| - 4..] == Bytes(Crc(0xFFFF_FFFF, image[..|image| - 4]))
    && Crc(0xFFFF_FFFF, image) == 0
  }

  method CheckFirmware(data: seq<byte>) returns (r: Outcome)
    ensures r == TooLarge <==> |data| > INPUT_BIN_SIZE_MAX
    ensures r == TooSmall <==> |data| < 32
    ensures r.Stamped? ==> IsStampOf(r.image, data)
  {
    hide Crc, BitSerial, Bytes, SizeBytes, IsStampOf;
    var size := |data|;
    if size > INPUT_BIN_SIZE_MAX {
      return TooLarge;
    }
    var buffer := new byte[INPUT_BIN_SIZE_MAX + 20](_ => 0);
    forall i | 0 <= i < size {
      buffer[i] := data[i];
    }
    var replenish, packets := size % 16, size / 16;
    if packets < 2 {
      return TooSmall;
    }
    if replenish > 0 {
      replenish := 16 - replenish;
      Pad(buffer, size, replenish);
    }
    var final := size + 4 + replenish;
    var image := Stamp(buffer, final, data);
    r := Stamped(image);
  }

  /** Header and CRC, over the padded image in the buffer. */
  method Stamp(buffer: array<byte>, final: nat, ghost data: seq<byte>) returns (image: seq<byte>)
    requires 32 <= |data| <= INPUT_BIN_SIZE_MAX && final == Padded(|data|) + 4 <= buffer.Length
    requires final < 0x1_0000_0000
    requires forall i :: 0 <= i < final - 4 ==> buffer[i] == if i < |data| then data[i] else 0xFF
    modifies buffer
    ensures IsStampOf(image, data)
  {
    hide Crc, BitSerial, Bytes, SizeBytes, IsStampOf, Number;
    WriteHeader(buffer, final);
    ghost var body := buffer[..final - 4];
    assert body[24..28] == buffer[24..28];
    AppendCrc(buffer, final);
    image := buffer[..final];
    StampIsGood(data, body, image);
  }

  /** Append `n` bytes of padding. */
  method Pad(buffer: array<byte>, size: nat, n: nat)
    requires size + n <= buffer.Length
    modifies buffer
    ensures forall j :: 0 <= j < buffer.Length ==>
              buffer[j] == if size <= j < size + n then 0xFF else old(buffer[j])
  {
    for i := 0 to n
      invariant forall j :: 0 <= j < buffer.Length ==>
                  buffer[j] == if size <= j < size + i then 0xFF else old(buffer[j])
    {
      buffer[size + i] := 0xFF;
    }
  }

  /** The CRC of everything before the last four bytes goes into them. */
  method AppendCrc(buffer: array<byte>, final: nat)
    requires 4 <= final <= buffer.Length
    modifies buffer
    ensures buffer[..final] == old(buffer[..final - 4]) + Bytes(Crc(CRC_INIT, old(buffer[..final - 4])))
  {
    hide Crc, BitSerial, Bytes;
    ghost var body := buffer[..final - 4];
    var crc := Crc32Cal(CRC_INIT, buffer[..final - 4]);
    BytesAreFour(crc);
    PutBytes(buffer, final - 4, Bytes(crc));
    ghost var image, want := buffer[..final], body + Bytes(crc);
    assert forall j :: 0 <= j < final ==> image[j] == want[j];
  }

  /** Store four bytes. */
  method PutBytes(buffer: array<byte>, at: nat, four: seq<byte>)
    requires |four| == 4 && at + 4 <= buffer.Length
    modifies buffer
    ensures forall j :: 0 <= j < buffer.Length ==>
              buffer[j] == if at <= j < at + 4 then four[j - at] else old(buffer[j])
  {
    buffer[at] := four[0];
    buffer[at + 1] := four[1];
    buffer[at + 2] := four[2];
    buffer[at + 3] := four[3];
  }

  method WriteHeader(buffer: array<byte>, final: nat)
    requires 28 <= buffer.Length && final < 0x1_0000_0000
    modifies buffer
    ensures forall j :: 0 <= j < buffer.Length && !Header(j) ==> buffer[j] == old(buffer[j])
    ensures buffer[6] == FLAG_FW_CHECK && buffer[7] == FW_CHECK_AGTHM2 && buffer[24..28] == SizeBytes(final)
  {
    hide SizeBytes;
    buffer[6] := FLAG_FW_CHECK;
    buffer[7] := FW_CHECK_AGTHM2;
    PutBytes(buffer, 24, SizeBytes(final));
  }

  lemma StampIsGood(data: seq<byte>, body: seq<byte>, image: seq<byte>)
    requires 32 <= |data| <= INPUT_BIN_SIZE_MAX && |body| == Padded(|data|)
    requires forall i :: 0 <= i < |data| && !Header(i) ==> body[i] == data[i]
    requires forall i :: |data| <= i < |body| ==> body[i] == 0xFF
    requires body[6] == FLAG_FW_CHECK && body[7] == FW_CHECK_AGTHM2
    requires |body| + 4 < 0x1_0000_0000 && body[24..28] == SizeBytes(|body| + 4)
    requires image == body + Bytes(Crc(CRC_INIT, body))
    ensures IsStampOf(image, data)
  {
    hide Crc, Bytes, SizeBytes, Number;
    BytesAreFour(Crc(CRC_INIT, body));
    assert image[..|image| - 4] == body;
    var size := body[24..28];
    assert size[0] == image[24] && size[1] == image[25] && size[2] == image[26] && size[3] == image[27];
    SizeRoundTrip(|image|);
    SelfCheck(CRC_INIT, body);
  }

  /** Stamping is not idempotent: an image that is stamped again grows by one block. */
  lemma RestampGrows(first: seq<byte>, second: seq<byte>, data: seq<byte>)
    requires IsStampOf(first, data) && IsStampOf(second, first)
    ensures |second| == |first| + 16
  {
    hide Crc, Bytes, Number;
  }
}
