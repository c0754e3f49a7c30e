/** What several modules share: optional values, error numbers, a conversion and two operations on
    sequences. */
module Common {
  datatype Option<T> = None | Some(value: T)

  const ENOENT := 2
  const EIO := 5
  const EBUSY := 16
  const EINVAL := 22

  /** An integer converted to `int`. */
  function ToInt32(x: int): int {
    (x + 0x8000_0000) % 0x1_0000_0000 - 0x8000_0000
  }

  /** `b` with `data` written over it at `at`. */
  function Splice<T>(b: seq<T>, at: nat, data: seq<T>): (r: seq<T>)
    requires at + |data| <= |b|
    ensures |r| == |b|
  {
    b[..at] + data + b[at + |data|..]
  }

  lemma SpliceAt<T>(b: seq<T>, at: nat, data: seq<T>, i: nat)
    requires at + |data| <= |b| && i < |b|
    ensures Splice(b, at, data)[i] == if at <= i < at + |data| then data[i - at] else b[i]
  {
  }

  /** A C string: everything before the first `nul`. */
  function CString<T(==)>(s: seq<T>, nul: T): (r: seq<T>)
    ensures nul !in r && r <= s && (|r| < |s| ==> s[|r|] == nul) && (nul !in s ==> r == s)
  {
    if s == [] || s[0] == nul then [] else [s[0]] + CString(s[1..], nul)
  }
}
