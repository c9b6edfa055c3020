/** Primitive types shared by every module of the model. */
module Common {

  /** An octet, as stored in files, read buffers and file names. */
  newtype byte = x: int | 0 <= x < 256

  /** Rust `u64`, the width of file sizes and of the Payload-Oxum sum. */
  type u64 = x: int | 0 <= x < 0x1_0000_0000_0000_0000

  const U64_MODULUS: int := 0x1_0000_0000_0000_0000

  datatype Option<T> = None | Some(value: T)

  /** A file-name component as the operating system stores it (an `OsStr`). */
  type OsStr = seq<byte>

  /** A relative or absolute path (`PathBuf`) as its sequence of components. */
  type Path = seq<OsStr>

  const CR_B: byte := 13
  const LF_B: byte := 10

  /** True if the byte sequence holds neither a CR nor an LF byte. */
  predicate NoCrLfBytes(b: seq<byte>)
  {
    forall i | 0 <= i < |b| :: b[i] != CR_B && b[i] != LF_B
  }

  /** True if the text holds neither a CR nor an LF character. */
  predicate NoCrLf(s: string)
  {
    forall i | 0 <= i < |s| :: s[i] != '\r' && s[i] != '\n'
  }

  /** Number of occurrences of `x` in `s`. */
  function Count<T(==)>(s: seq<T>, x: T): (n: nat)
    ensures n <= |s|
    ensures n == 0 <==> x !in s
  {
    if s == [] then 0 else (if s[0] == x then 1 else 0) + Count(s[1..], x)
  }
}
