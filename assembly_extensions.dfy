/**
 * The null checks of AssemblyExtensions.cs and the decode inside
 * `GetLinkerTime`: the first 2048 bytes of the image, the header offset
 * `e_lfanew` at byte 60 (PE Format specification, section "MS-DOS Stub
 * (Image Only)"), and the `TimeDateStamp` 8 bytes into the header, after
 * the 4-byte signature and the `Machine` and `NumberOfSections` fields
 * (section "COFF File Header"). Reading the file is an input; the link
 * time is the number of seconds after 1970-01-01 00:00:00 UTC.
 */
module AssemblyExtensions {
  import opened Wrappers

  newtype byte = x: int | 0 <= x < 256

  const BufferSize: int := 2048
  const PeHeaderOffset: int := 60
  const LinkerTimestampOffset: int := 8

  const TwoTo31: int := 0x8000_0000
  const TwoTo32: int := 0x1_0000_0000

  predicate IsInt32(x: int) {
    -TwoTo31 <= x < TwoTo31
  }

  /** C#'s unchecked `int` addition: the exact sum wrapped into 32 bits. */
  function Wrap32(x: int): (r: int)
    ensures IsInt32(r) && (r - x) % TwoTo32 == 0
    ensures IsInt32(x) ==> r == x
  {
    (x + TwoTo31) % TwoTo32 - TwoTo31
  }

  datatype Error =
    | ArgumentNull(paramName: string)         // ArgumentNullException
    | Argument(paramName: string)             // ArgumentException
    | ArgumentOutOfRange(paramName: string)   // ArgumentOutOfRangeException

  /** What the model knows of an `Assembly`: where its image is. */
  datatype Assembly = Assembly(location: string)

  /** `GetAssemblyDirectory`: a null assembly is refused with `ArgumentException`. */
  function AssemblyDirectory(assembly: Option<Assembly>): (r: Result<string, Error>)
    ensures assembly.None? <==> r == Failure(Argument("assembly"))
    ensures assembly.Some? ==> r == Success(assembly.value.location)
  {
    if assembly.None? then Failure(Argument("assembly")) else Success(assembly.value.location)
  }

  /** Four bytes, least significant first, as a two's-complement `int` (`BitConverter` on a little-endian machine). */
  function Int32FromBytes(b0: byte, b1: byte, b2: byte, b3: byte): (x: int)
    ensures IsInt32(x)
  {
    var u := b0 as int + 0x100 * b1 as int + 0x1_0000 * b2 as int + 0x100_0000 * b3 as int;
    if u >= TwoTo31 then u - TwoTo32 else u
  }

  /** The four little-endian bytes of an `int`. */
  function Int32ToBytes(x: int): (bs: seq<byte>)
    requires IsInt32(x)
    ensures |bs| == 4
  {
    var u := if x < 0 then x + TwoTo32 else x;
    var u1 := u / 0x100;
    var u2 := u1 / 0x100;
    [(u % 0x100) as byte, (u1 % 0x100) as byte, (u2 % 0x100) as byte, (u2 / 0x100) as byte]
  }

  /** Encoding then decoding gives back the `int`. */
  lemma Int32RoundTrip(x: int)
    requires IsInt32(x)
    ensures var bs := Int32ToBytes(x); Int32FromBytes(bs[0], bs[1], bs[2], bs[3]) == x
  {
    var u := if x < 0 then x + TwoTo32 else x;
    var u1 := u / 0x100;
    var u2 := u1 / 0x100;
    assert u == u % 0x100 + 0x100 * u1;
    assert u1 == u1 % 0x100 + 0x100 * u2;
    assert u2 == u2 % 0x100 + 0x100 * (u2 / 0x100);
  }

  /** Decoding then encoding gives back the bytes. */
  lemma BytesRoundTrip(b0: byte, b1: byte, b2: byte, b3: byte)
    ensures Int32ToBytes(Int32FromBytes(b0, b1, b2, b3)) == [b0, b1, b2, b3]
  {
    var u := b0 as int + 0x100 * b1 as int + 0x1_0000 * b2 as int + 0x100_0000 * b3 as int;
    var x := Int32FromBytes(b0, b1, b2, b3);
    assert (if x < 0 then x + TwoTo32 else x) == u;
    var u1 := b1 as int + 0x100 * b2 as int + 0x1_0000 * b3 as int;
    var u2 := b2 as int + 0x100 * b3 as int;
    assert u == b0 as int + 0x100 * u1;
    assert u / 0x100 == u1 && u % 0x100 == b0 as int;
    assert u1 == b1 as int + 0x100 * u2;
    assert u1 / 0x100 == u2 && u1 % 0x100 == b1 as int;
    assert u2 / 0x100 == b3 as int && u2 % 0x100 == b2 as int;
  }

  /**
   * `BitConverter.ToInt32(value, startIndex)`: an index outside the array
   * is out of range; one with fewer than four bytes after it is an
   * argument error on the array.
   */
  function ToInt32(value: seq<byte>, startIndex: int): (r: Result<int, Error>)
    ensures r.Success? <==> 0 <= startIndex && startIndex + 4 <= |value|
    ensures (startIndex < 0 || startIndex >= |value|) <==> r == Failure(ArgumentOutOfRange("startIndex"))
    ensures 0 <= startIndex < |value| < startIndex + 4 <==> r == Failure(Argument("value"))
    ensures r.Success? ==> r.value == Int32FromBytes(value[startIndex], value[startIndex + 1], value[startIndex + 2], value[startIndex + 3])
  {
    if startIndex < 0 || startIndex >= |value| then Failure(ArgumentOutOfRange("startIndex"))
    else if startIndex > |value| - 4 then Failure(Argument("value"))
    else Success(Int32FromBytes(value[startIndex], value[startIndex + 1], value[startIndex + 2], value[startIndex + 3]))
  }

  function Zeros(n: nat): (z: seq<byte>)
    ensures |z| == n && forall i :: 0 <= i < n ==> z[i] == 0
  {
    seq(n, _ => 0)
  }

  /**
   * `new byte[2048]`, then `stream.Read(buffer, 0, 2048)`: the image's
   * first bytes, up to 2048, and zeros after a shorter image.
   */
  function ReadBuffer(image: seq<byte>): (buffer: seq<byte>)
    ensures |buffer| == BufferSize
    ensures forall i :: 0 <= i < BufferSize ==> buffer[i] == if i < |image| then image[i] else 0
  {
    if |image| >= BufferSize then image[..BufferSize] else image + Zeros(BufferSize - |image|)
  }

  /**
   * `GetLinkerTime` up to the UTC link time: refuse a null assembly, read
   * the header offset, then the timestamp at the wrapped sum of the
   * offset and 8.
   */
  function LinkerTime(assembly: Option<Assembly>, image: seq<byte>): (r: Result<int, Error>)
    ensures assembly.None? <==> r == Failure(ArgumentNull("assembly"))
    ensures r.Failure? && assembly.Some? ==> r.error.ArgumentOutOfRange? || r.error == Argument("value")
  {
    if assembly.None? then Failure(ArgumentNull("assembly"))
    else
      var buffer := ReadBuffer(image);
      match ToInt32(buffer, PeHeaderOffset)
      case Failure(e) => Failure(e)
      case Success(offset) =>
        ToInt32(buffer, Wrap32(offset + LinkerTimestampOffset))
  }

  /** The header offset: the `int` at bytes 60 to 63 of the buffer, always readable. */
  lemma HeaderOffsetRead(image: seq<byte>)
    ensures var buffer := ReadBuffer(image);
      ToInt32(buffer, PeHeaderOffset) == Success(Int32FromBytes(buffer[60], buffer[61], buffer[62], buffer[63]))
  {
  }

  /** A null assembly is refused before the image is consulted. */
  lemma NullAssemblyRefused(image: seq<byte>)
    ensures LinkerTime(None, image) == Failure(ArgumentNull("assembly"))
  {
  }

  /**
   * The link time is found exactly when the timestamp lies inside the
   * buffer: `0 <= offset + 8 <= 2044`. An offset whose sum with 8
   * overflows wraps to a negative index and is out of range too.
   */
  lemma LinkerTimeFound(assembly: Assembly, image: seq<byte>)
    ensures var buffer := ReadBuffer(image);
      var offset := Int32FromBytes(buffer[60], buffer[61], buffer[62], buffer[63]);
      var r := LinkerTime(Some(assembly), image);
      && (r.Success? <==> 0 <= offset + LinkerTimestampOffset <= BufferSize - 4)
      && (r.Success? ==> r.value == Int32FromBytes(buffer[offset + 8], buffer[offset + 9], buffer[offset + 10], buffer[offset + 11]))
      && (offset + LinkerTimestampOffset < 0 || offset + LinkerTimestampOffset >= BufferSize ==> r == Failure(ArgumentOutOfRange("startIndex")))
      && (BufferSize - 4 < offset + LinkerTimestampOffset < BufferSize ==> r == Failure(Argument("value")))
  {
    var buffer := ReadBuffer(image);
    var offset := Int32FromBytes(buffer[60], buffer[61], buffer[62], buffer[63]);
    HeaderOffsetRead(image);
    var index := Wrap32(offset + LinkerTimestampOffset);
    if offset + LinkerTimestampOffset < TwoTo31 {
      assert index == offset + LinkerTimestampOffset;
    } else {
      assert index == offset + LinkerTimestampOffset - TwoTo32;
    }
  }

  /**
   * An image whose header offset and timestamp are written where the PE
   * format puts them, within the first 2048 bytes, yields that timestamp.
   */
  lemma LinkerTimeOfImage(assembly: Assembly, image: seq<byte>, offset: int, timestamp: int)
    requires IsInt32(timestamp) && 0 <= offset && offset + 12 <= BufferSize && offset + 12 <= |image|
    requires 64 <= |image| && image[60..64] == Int32ToBytes(offset)
    requires image[offset + 8..offset + 12] == Int32ToBytes(timestamp)
    ensures LinkerTime(Some(assembly), image) == Success(timestamp)
  {
    var buffer := ReadBuffer(image);
    assert buffer[60..64] == image[60..64];
    assert buffer[offset + 8..offset + 12] == image[offset + 8..offset + 12];
    Int32RoundTrip(offset);
    Int32RoundTrip(timestamp);
    LinkerTimeFound(assembly, image);
  }

  /**
   * An image shorter than 61 bytes reads a zero header offset from the
   * padding, so the timestamp comes from bytes 8 to 11 of the buffer.
   */
  lemma ShortImage(assembly: Assembly, image: seq<byte>)
    requires |image| <= PeHeaderOffset
    ensures var buffer := ReadBuffer(image);
      LinkerTime(Some(assembly), image) == Success(Int32FromBytes(buffer[8], buffer[9], buffer[10], buffer[11]))
  {
    var buffer := ReadBuffer(image);
    assert buffer[60] == 0 && buffer[61] == 0 && buffer[62] == 0 && buffer[63] == 0;
    assert Int32FromBytes(0, 0, 0, 0) == 0;
    HeaderOffsetRead(image);
    assert ToInt32(buffer, PeHeaderOffset) == Success(0);
    assert Wrap32(0 + LinkerTimestampOffset) == 8;
  }
}
