/** The big-endian reader the cmap decoder consumes: a byte sequence read forward from a cursor. */
module BigEndian {
  import opened Primitives

  /** What a read yields: the value and the cursor just past the bytes it consumed. */
  datatype Read<+T> = Read(value: T, next: nat)

  /** The unsigned 16-bit value stored big-endian at byte position `p`. */
  function U16At(data: seq<byte>, p: nat): u16
    requires p + 2 <= |data|
  {
    data[p] as int * 0x100 + data[p + 1] as int
  }

  /** The signed (two's complement) 16-bit value stored big-endian at byte position `p`. */
  function I16At(data: seq<byte>, p: nat): i16
    requires p + 2 <= |data|
  {
    var u := U16At(data, p);
    if u < 0x8000 then u else u - 0x1_0000
  }

  /** Reads one `u16` at the cursor. */
  function ReadUInt16(data: seq<byte>, pos: nat): Result<Read<u16>> {
    if pos + 2 <= |data| then Ok(Read(U16At(data, pos), pos + 2)) else Err(EndOfStream)
  }

  /** Reads `count` consecutive `u16`s; a negative count fails before any byte is read. */
  function ReadUInt16Array(data: seq<byte>, pos: nat, count: int): Result<Read<seq<u16>>> {
    if count < 0 then Err(NegativeArrayLength(count))
    else if pos + 2 * count > |data| then Err(EndOfStream)
    else Ok(Read(seq(count, k requires 0 <= k < count => U16At(data, pos + 2 * k)), pos + 2 * count))
  }

  /** Reads `count` consecutive `i16`s; a negative count fails before any byte is read. */
  function ReadInt16Array(data: seq<byte>, pos: nat, count: int): Result<Read<seq<i16>>> {
    if count < 0 then Err(NegativeArrayLength(count))
    else if pos + 2 * count > |data| then Err(EndOfStream)
    else Ok(Read(seq(count, k requires 0 <= k < count => I16At(data, pos + 2 * k)), pos + 2 * count))
  }

  /** Two's complement: the signed reading agrees with the unsigned one modulo 65536 and is negative exactly when the top bit is set. */
  lemma I16AtIsTwosComplement(data: seq<byte>, p: nat)
    requires p + 2 <= |data|
    ensures I16At(data, p) % 0x1_0000 == U16At(data, p)
    ensures I16At(data, p) < 0 <==> data[p] >= 0x80
  {
  }

  /**
   * An array read of `count + 1` words is one word read followed by an array
   * read of `count` words from the cursor it leaves: same outcome, same
   * error, same values, same final cursor.
   */
  lemma ReadUInt16ArrayIsRepeatedRead(data: seq<byte>, pos: nat, count: nat)
    ensures ReadUInt16Array(data, pos, count + 1) ==
            match ReadUInt16(data, pos)
            case Err(e) => Err(e)
            case Ok(w) =>
              match ReadUInt16Array(data, w.next, count)
              case Err(e) => Err(e)
              case Ok(rest) => Ok(Read([w.value] + rest.value, rest.next))
  {
    if pos + 2 * (count + 1) <= |data| {
      var whole := ReadUInt16Array(data, pos, count + 1).value.value;
      var rest := ReadUInt16Array(data, pos + 2, count).value.value;
      assert whole == [U16At(data, pos)] + rest;
    }
  }

  /**
   * The signed array read succeeds exactly when the unsigned one does, fails
   * with the same error, ends at the same cursor, and each signed element is
   * the unsigned element reduced modulo 65536 into the signed range.
   */
  lemma ReadInt16ArrayMatchesUnsigned(data: seq<byte>, pos: nat, count: int)
    ensures ReadInt16Array(data, pos, count).Ok? <==> ReadUInt16Array(data, pos, count).Ok?
    ensures ReadInt16Array(data, pos, count).Err? ==>
              ReadInt16Array(data, pos, count).error == ReadUInt16Array(data, pos, count).error
    ensures ReadInt16Array(data, pos, count).Ok? ==>
              var s := ReadInt16Array(data, pos, count).value;
              var u := ReadUInt16Array(data, pos, count).value;
              && s.next == u.next && |s.value| == |u.value|
              && forall k :: 0 <= k < |s.value| ==>
                   (s.value[k] as int) % 0x1_0000 == u.value[k] && (s.value[k] < 0 <==> u.value[k] >= 0x8000)
  {
    if ReadInt16Array(data, pos, count).Ok? {
      var s := ReadInt16Array(data, pos, count).value;
      var u := ReadUInt16Array(data, pos, count).value;
      forall k | 0 <= k < |s.value|
        ensures (s.value[k] as int) % 0x1_0000 == u.value[k] && (s.value[k] < 0 <==> u.value[k] >= 0x8000)
      {
        I16AtIsTwosComplement(data, pos + 2 * k);
      }
    }
  }
}
