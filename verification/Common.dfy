/** What several models share. */
module Common {
  datatype Option<+T> = None | Some(value: T)

  /** What a C string keeps of a character sequence. */
  function CStr(s: string): (t: string)
    ensures '\0' !in t
  {
    if s == [] || s[0] == '\0' then [] else [s[0]] + CStr(s[1..])
  }

  lemma {:induction false} CStrWhole(s: string)
    requires '\0' !in s
    ensures CStr(s) == s
  {
    if s != [] {
      CStrWhole(s[1..]);
      assert s == [s[0]] + s[1..];
    }
  }

  ghost predicate Distinct<T>(q: seq<T>) {
    forall i, j | 0 <= i < j < |q| :: q[i] != q[j]
  }

  /** The number that a word with `m` values stands for when it is taken for a signed one. */
  function Signed(m: int, w: int): int {
    if w < m / 2 then w else w - m
  }

  function HexDigit(n: nat): char
    requires n < 16
  {
    "0123456789ABCDEF"[n]
  }
}
