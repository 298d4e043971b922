/**
  The two conversion helpers of the I2C device class, between a 16-bit word and a pair of bytes.
  As written, both go through a java.nio.ByteBuffer of two bytes with the four-byte getInt and
  putInt, so every call that passes the argument check throws; `BytesToWord` and `WordToBytes`
  are what the helpers are meant to do (most significant byte first, a ByteBuffer's default order).
*/
module WordHelpers {
  import opened Base

  /** What the helpers throw. */
  datatype ConversionError =
    | IllegalArgument  // wrong array length, or a word outside 0..65535
    | BufferUnderflow  // a read past the end of the buffer
    | BufferOverflow   // a write past the end of the buffer

  /** The width, in bytes, of the int that ByteBuffer.getInt reads and ByteBuffer.putInt writes. */
  const IntBytes := 4

  /** The 32-bit two's-complement value of an unsigned 32-bit pattern. */
  function Signed32(u: int): (x: Int32)
    requires 0 <= u < 0x1_0000_0000
    ensures x % 0x1_0000_0000 == u
  {
    if u < 0x8000_0000 then u else u - 0x1_0000_0000
  }

  /** ByteBuffer.getInt at the start of a buffer wrapping `buf`: four bytes, most significant first. */
  function GetInt(buf: seq<JByte>): (r: Result<Int32, ConversionError>)
    ensures r.Failure? <==> |buf| < IntBytes
    ensures r.Failure? ==> r.error == BufferUnderflow
    ensures r.Success? ==>
      r.value % 0x1_0000_0000 ==
        ((Unsigned(buf[0]) * 256 + Unsigned(buf[1])) * 256 + Unsigned(buf[2])) * 256 + Unsigned(buf[3])
  {
    if |buf| < IntBytes then Failure(BufferUnderflow)
    else
      var u := ((Unsigned(buf[0]) * 256 + Unsigned(buf[1])) * 256 + Unsigned(buf[2])) * 256 + Unsigned(buf[3]);
      Success(Signed32(u))
  }

  /** The four bytes of a 32-bit pattern, most significant first. */
  function BigEndian4(u: int): (bs: seq<JByte>)
    requires 0 <= u < 0x1_0000_0000
    ensures |bs| == 4
    ensures ((Unsigned(bs[0]) * 256 + Unsigned(bs[1])) * 256 + Unsigned(bs[2])) * 256 + Unsigned(bs[3]) == u
  {
    var q1 := u / 256;
    var q2 := q1 / 256;
    [ToJByte(q2 / 256), ToJByte(q2 % 256), ToJByte(q1 % 256), ToJByte(u % 256)]
  }

  /** Two ints that agree modulo 2^32 are the same int. */
  lemma Int32Injective(x: Int32, y: Int32)
    requires x % 0x1_0000_0000 == y % 0x1_0000_0000
    ensures x == y
  {
  }

  /**
    ByteBuffer.putInt into a fresh buffer of `capacity` bytes, then its backing array: four bytes,
    most significant first, followed by the untouched zero bytes.
  */
  function PutInt(capacity: nat, word: Int32): (r: Result<seq<JByte>, ConversionError>)
    ensures r.Failure? <==> capacity < IntBytes
    ensures r.Failure? ==> r.error == BufferOverflow
    ensures r.Success? ==>
      && |r.value| == capacity
      && GetInt(r.value) == Success(word)
      && forall i | IntBytes <= i < capacity :: r.value[i] == 0
  {
    if capacity < IntBytes then Failure(BufferOverflow)
    else
      var bytes := BigEndian4(word % 0x1_0000_0000) + seq(capacity - IntBytes, _ => 0);
      Int32Injective(GetInt(bytes).value, word);
      Success(bytes)
  }

  /** byteArrayToWord as written: the length check, then a four-byte read from a two-byte buffer. */
  function ByteArrayToWord(bytes: seq<JByte>): (r: Result<Int32, ConversionError>)
    ensures r.Failure?
    ensures r.error == IllegalArgument <==> |bytes| != 2
  {
    if |bytes| != 2 then Failure(IllegalArgument) else GetInt(bytes)
  }

  /** wordToByteArray as written: the range check, then a four-byte write into a two-byte buffer. */
  function WordToByteArray(word: Int32): (r: Result<seq<JByte>, ConversionError>)
    ensures r.Failure?
    ensures r.error == IllegalArgument <==> !(0 <= word <= 65535)
  {
    if word > 65535 || word < 0 then Failure(IllegalArgument) else PutInt(2, word)
  }

  /** byteArrayToWord as intended: the word whose high byte is `bytes[0]` and low byte `bytes[1]`. */
  function BytesToWord(bytes: seq<JByte>): (r: Result<Int32, ConversionError>)
    ensures r.Success? <==> |bytes| == 2
    ensures r.Failure? ==> r.error == IllegalArgument
    ensures r.Success? ==>
      0 <= r.value <= 65535 && r.value / 256 == Unsigned(bytes[0]) && r.value % 256 == Unsigned(bytes[1])
  {
    if |bytes| != 2 then Failure(IllegalArgument) else Success(Unsigned(bytes[0]) * 256 + Unsigned(bytes[1]))
  }

  /** wordToByteArray as intended: the high byte of the word, then its low byte. */
  function WordToBytes(word: Int32): (r: Result<seq<JByte>, ConversionError>)
    ensures r.Success? <==> 0 <= word <= 65535
    ensures r.Failure? ==> r.error == IllegalArgument
    ensures r.Success? ==> |r.value| == 2 && Unsigned(r.value[0]) == word / 256 && Unsigned(r.value[1]) == word % 256
  {
    if word > 65535 || word < 0 then Failure(IllegalArgument) else Success([ToJByte(word / 256), ToJByte(word % 256)])
  }

  /** Every word in range comes back from its two bytes. */
  lemma WordRoundTrip(word: Int32)
    requires 0 <= word <= 65535
    ensures WordToBytes(word).Success? && BytesToWord(WordToBytes(word).value) == Success(word)
  {
    var bytes := WordToBytes(word).value;
    assert Unsigned(bytes[0]) * 256 + Unsigned(bytes[1]) == word / 256 * 256 + word % 256;
  }

  /** Every pair of bytes comes back from its word. */
  lemma BytesRoundTrip(bytes: seq<JByte>)
    requires |bytes| == 2
    ensures BytesToWord(bytes).Success? && WordToBytes(BytesToWord(bytes).value) == Success(bytes)
  {
    var word := BytesToWord(bytes).value;
    var back := WordToBytes(word).value;
    UnsignedInjective(back[0], bytes[0]);
    UnsignedInjective(back[1], bytes[1]);
    assert back == bytes;
  }

  /** Two Java bytes with the same unsigned value are the same byte. */
  lemma UnsignedInjective(a: JByte, b: JByte)
    requires Unsigned(a) == Unsigned(b)
    ensures a == b
  {
  }

  /** The pair 0x12, 0x34: the helper as written throws where the word 0x1234 is meant. */
  lemma ByteArrayToWordFailsOnValidPair()
    ensures ByteArrayToWord([0x12, 0x34]) == Failure(BufferUnderflow)
    ensures BytesToWord([0x12, 0x34]) == Success(0x1234)
  {
  }

  /** The word 0x1234: the helper as written throws where the bytes 0x12, 0x34 are meant. */
  lemma WordToByteArrayFailsOnValidWord()
    ensures WordToByteArray(0x1234) == Failure(BufferOverflow)
    ensures WordToBytes(0x1234) == Success([0x12, 0x34])
  {
  }
}
