/** Bytes, results and the big-endian 16-bit fields shared by every frame format. */
module Bytes {

  newtype byte = x: int | 0 <= x < 0x100

  datatype Option<+T> = None | Some(value: T)

  datatype Result<+T, +E> = Ok(value: T) | Err(error: E) {
    predicate IsFailure() {
      Err?
    }

    function PropagateFailure<U>(): Result<U, E>
      requires Err?
    {
      Err(error)
    }

    function Extract(): T
      requires Ok?
    {
      value
    }
  }

  /** True iff `v` fits an unsigned 16-bit field. */
  predicate IsU16(v: int) {
    0 <= v < 0x1_0000
  }

  type Word = v: int | IsU16(v)

  /** The two bytes of a 16-bit field, high byte first. */
  function BigEndian(v: int): (s: seq<byte>)
    requires IsU16(v)
    ensures |s| == 2
  {
    [(v / 0x100) as byte, (v % 0x100) as byte]
  }

  /** The value of a two-byte field, high byte first. */
  function FromBigEndian(s: seq<byte>): (v: int)
    requires |s| == 2
    ensures IsU16(v)
  {
    s[0] as int * 0x100 + s[1] as int
  }

  lemma BigEndianRoundTrip(v: int)
    requires IsU16(v)
    ensures FromBigEndian(BigEndian(v)) == v
  {
  }

  lemma FromBigEndianRoundTrip(s: seq<byte>)
    requires |s| == 2
    ensures BigEndian(FromBigEndian(s)) == s
  {
  }
}
