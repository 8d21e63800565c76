/** Vocabulary shared by every part of the model. */
module Common {
  datatype Option<+T> = None | Some(value: T)

  datatype Result<+T, +E> = Ok(value: T) | Err(error: E)

  /** One octet. Text is modelled by its UTF-8 octets throughout. */
  type byte = x: int | 0 <= x < 256

  type Bytes = seq<byte>

  const LF: byte := 0x0A
  const CR: byte := 0x0D
  const QUOTE: byte := 0x22
  const ZERO: byte := 0x30
  const BACKSLASH: byte := 0x5C

  /** The octets of an ASCII literal. */
  function Ascii(s: string): (b: Bytes)
    ensures |b| == |s|
    ensures forall i :: 0 <= i < |s| ==> b[i] == s[i] as int % 256
  {
    seq(|s|, i requires 0 <= i < |s| => s[i] as int % 256)
  }

  lemma Reassociate(a: Bytes, b: Bytes, c: Bytes)
    ensures a + b + c == a + (b + c)
  {
  }

  lemma ThreeParts(b: Bytes, i: nat, j: nat)
    requires i <= j <= |b|
    ensures b[..i] + b[i..j] + b[j..] == b
  {
  }
}
