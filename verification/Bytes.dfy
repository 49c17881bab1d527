/** Byte strings and the sequence helpers that the other modules share. */
module Bytes {
  /** One octet. */
  type byte = x: int | 0 <= x < 256

  /** A Fortran `character(len=n)` or a C buffer, as the octets it holds. */
  type Text = seq<byte>

  const SPACE: byte := 0x20

  /** A string of ASCII characters, as octets. */
  function Ascii(text: string): (octets: Text)
    requires forall i | 0 <= i < |text| :: text[i] as int < 128
    ensures |octets| == |text| && forall i | 0 <= i < |octets| :: octets[i] < 128
  {
    seq(|text|, i requires 0 <= i < |text| => text[i] as int)
  }

  /** An optional argument: absent, or present with a value. */
  datatype Option<T> = None | Some(value: T) {
    function Or(default: T): T {
      if Some? then value else default
    }
  }

  /** The concatenation of `parts`, in order. */
  function Flatten<T>(parts: seq<seq<T>>): seq<T> {
    if parts == [] then [] else parts[0] + Flatten(parts[1..])
  }
}
