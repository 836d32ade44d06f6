/** Facts about sequences of bytes that several modules use. */
module Sequences {
  import opened Bytes

  function Concat(parts: seq<seq<byte>>): seq<byte> {
    if parts == [] then [] else Concat(parts[..|parts| - 1]) + parts[|parts| - 1]
  }

  lemma ConcatNone()
    ensures forall parts: seq<seq<byte>> :: Concat(parts[..0]) == []
  {
  }

  lemma ConcatMore(parts: seq<seq<byte>>, i: nat)
    requires i < |parts|
    ensures Concat(parts[..i + 1]) == Concat(parts[..i]) + parts[i]
  {
    assert parts[..i + 1][..i] == parts[..i];
  }

  lemma {:induction false} ConcatPrefix(parts: seq<seq<byte>>, i: nat)
    requires i <= |parts|
    ensures |Concat(parts[..i])| <= |Concat(parts)|
    decreases |parts| - i
  {
    if i < |parts| {
      ConcatMore(parts, i);
      ConcatPrefix(parts, i + 1);
    } else {
      assert parts[..i] == parts;
    }
  }

  lemma TwoParts(s: seq<byte>, i: nat, j: nat, k: nat)
    requires i <= j <= k <= |s|
    ensures s[i..k] == s[i..j] + s[j..k]
  {
  }

  lemma Appended(x: seq<byte>, y: seq<byte>, z: seq<byte>)
    ensures x + y + z == x + (y + z)
  {
  }

  /** The bytes from `a` up to `b`. */
  function Counting(a: nat, b: nat): seq<byte>
    requires a <= b <= 256
  {
    seq(b - a, i requires 0 <= i < b - a => a + i)
  }
}
