/** Unsigned bytes as bounded integers, and byte sums. A mask-and-shift of the C code is
    written as the division or remainder it computes on an unsigned byte. */
module Bytes {

  type byte = x: int | 0 <= x < 256

  datatype Option<+T> = None | Some(value: T)

  /** Truncation to an unsigned char. */
  function LowByte(x: int): byte {
    x % 256
  }

  /** The plain sum, without the carry-less truncation of the check sum. */
  function Sum(s: seq<byte>): nat {
    if s == [] then 0 else Sum(s[..|s| - 1]) + s[|s| - 1]
  }

  lemma SumOne(b: byte)
    ensures Sum([b]) == b
  {
    assert [b][..0] == [];
  }

  lemma {:induction false} SumAppend(a: seq<byte>, b: seq<byte>)
    ensures Sum(a + b) == Sum(a) + Sum(b)
  {
    if b == [] {
      assert a + b == a;
    } else {
      SumAppend(a, b[..|b| - 1]);
      assert (a + b)[..|a + b| - 1] == a + b[..|b| - 1];
    }
  }

  /** Replacing one byte moves the sum by exactly the difference. */
  lemma {:induction false} SumUpdate(s: seq<byte>, i: nat, b: byte)
    requires i < |s|
    ensures Sum(s[i := b]) == Sum(s) - s[i] + b
  {
    var n := |s| - 1;
    if i == n {
      assert s[i := b][..n] == s[..n];
    } else {
      assert s[i := b][..n] == s[..n][i := b];
      SumUpdate(s[..n], i, b);
    }
  }

  function Reversed(s: seq<byte>): (r: seq<byte>)
    ensures |r| == |s|
  {
    if s == [] then [] else [s[|s| - 1]] + Reversed(s[..|s| - 1])
  }

  lemma {:induction false} ReversedFromFront(s: seq<byte>)
    requires s != []
    ensures Reversed(s) == Reversed(s[1..]) + [s[0]]
  {
    var n := |s| - 1;
    if n > 0 {
      ReversedFromFront(s[..n]);
      assert s[1..][..n - 1] == s[..n][1..];
    }
  }
}
