/** Machine words shared by the modules of the stack. */
module Words {

  const U16_SIZE := 0x1_0000
  const U32_SIZE := 0x1_0000_0000

  type byte = b: int | 0 <= b < 256
  type u16 = x: int | 0 <= x < U16_SIZE
  type u32 = x: int | 0 <= x < U32_SIZE

  datatype Option<+T> = None | Some(value: T)

  /** The receive window of a new TCP socket. */
  const DEFAULT_WINDOW: u32 := 4096

  function Min(a: int, b: int): int {
    if a < b then a else b
  }

  /** `unsigned int` arithmetic keeps the low 32 bits. */
  function Wrap32(x: int): u32 {
    x % U32_SIZE
  }

  lemma WrapAdd(x: nat, n: nat)
    ensures Wrap32(Wrap32(x) + n) == Wrap32(x + n)
  {
  }

  /** `_htons` and `_ntohs` on a little-endian host. */
  function Swap16(x: u16): u16 {
    (x % 256) * 256 + x / 256
  }

  /** Takes an element out of a list; a list without it stays as it is. */
  function Unlink<T(==)>(s: seq<T>, x: T): seq<T> {
    if s == [] then [] else if s[0] == x then s[1..] else [s[0]] + Unlink(s[1..], x)
  }

  /** Passing the entry at `i` while walking a list. */
  lemma SliceStep<T>(s: seq<T>, i: nat, rest: seq<T>)
    requires i < |s|
    ensures s[i..][0] == s[i] && s[i..][1..] == s[i + 1..]
    ensures s[..i] + ([s[i]] + rest) == s[..i + 1] + rest
  {
  }
}
