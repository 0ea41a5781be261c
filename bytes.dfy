/** Byte-sequence helpers shared by the Xbus message model: the mod-256 byte sum used
    by the checksum, splicing, zero runs, byte reversal and little-endian integer images. */
module Bytes {

  newtype byte = x: int | 0 <= x < 256

  /** Unsigned 8-bit wrap-around of an integer (a store into a uint8_t). */
  function Wrap(x: int): byte
  {
    (x % 256) as byte
  }

  /** Unsigned integer sum of the byte values, without wrap-around. */
  function Total(s: seq<byte>): nat
  {
    if |s| == 0 then 0 else Total(s[..|s| - 1]) + s[|s| - 1] as nat
  }

  /** Sum of the byte values modulo 256: what byteSum (xsmessage.c:78-83) returns. */
  function ByteSum(s: seq<byte>): byte
  {
    Wrap(Total(s))
  }

  /** The byte that brings the byte sum of `s` to zero: minus ByteSum(s), modulo 256. */
  function NegByteSum(s: seq<byte>): byte
  {
    Wrap(-(Total(s) as int))
  }

  /** A byte completes `s` to a zero sum exactly when it is NegByteSum(s). */
  lemma NegByteSumUnique(s: seq<byte>, c: byte)
    ensures Wrap(Total(s) + c as int) == 0 <==> c == NegByteSum(s)
  {
  }

  lemma {:induction false} TotalAppend(a: seq<byte>, b: seq<byte>)
    ensures Total(a + b) == Total(a) + Total(b)
  {
    if |b| == 0 {
      assert a + b == a;
    } else {
      var init := b[..|b| - 1];
      assert (a + b)[..|a + b| - 1] == a + init;
      assert (a + b)[|a + b| - 1] == b[|b| - 1];
      TotalAppend(a, init);
    }
  }

  lemma ByteSumAppend(a: seq<byte>, b: seq<byte>)
    ensures ByteSum(a + b) == Wrap(ByteSum(a) as int + ByteSum(b) as int)
  {
    TotalAppend(a, b);
  }

  /** Replacing one byte changes the sum by the difference of the two bytes. */
  lemma TotalUpdate(s: seq<byte>, i: nat, v: byte)
    requires i < |s|
    ensures Total(s[i := v]) == Total(s) - s[i] as int + v as int
  {
    assert s == s[..i] + [s[i]] + s[i + 1..];
    assert s[i := v] == s[..i] + [v] + s[i + 1..];
    TotalAppend(s[..i] + [s[i]], s[i + 1..]);
    TotalAppend(s[..i], [s[i]]);
    TotalAppend(s[..i] + [v], s[i + 1..]);
    TotalAppend(s[..i], [v]);
    assert [v][..0] == [] && [s[i]][..0] == [];
  }

  /** Wrapping an intermediate result does not change a later wrap. */
  lemma WrapShift(x: int, y: int)
    ensures Wrap(Wrap(x) as int + y) == Wrap(x + y)
  {
  }

  /** Subtracting a wrapped value wraps like subtracting the value itself. */
  lemma WrapMinus(x: int, y: int)
    ensures Wrap(x - Wrap(y) as int) == Wrap(x - y)
  {
  }

  /** The two-step checksum patch of the setters: adding the wrapped sum of the old bytes
      and subtracting the wrapped sum of the new ones wraps like the unwrapped difference. */
  lemma PatchArithmetic(c: int, prior: int, next: int)
    ensures Wrap(Wrap(c + Wrap(prior) as int) as int - Wrap(next) as int) == Wrap(c + prior - next)
  {
    WrapShift(c + Wrap(prior) as int, -(Wrap(next) as int));
    WrapShift(prior, c - Wrap(next) as int);
    WrapMinus(c + prior, next);
  }

  /** Two integers wrap to the same byte exactly when they differ by a multiple of 256. */
  lemma WrapEq(x: int, y: int)
    ensures Wrap(x) == Wrap(y) <==> (x - y) % 256 == 0
  {
  }

  /** Overwriting a run of bytes changes the sum by the difference of the runs' sums. */
  lemma TotalSplice(s: seq<byte>, at: nat, piece: seq<byte>)
    requires at + |piece| <= |s|
    ensures Total(Splice(s, at, piece)) == Total(s) - Total(s[at..at + |piece|]) + Total(piece)
  {
    var e := at + |piece|;
    assert s == s[..at] + s[at..e] + s[e..];
    TotalAppend(s[..at] + s[at..e], s[e..]);
    TotalAppend(s[..at], s[at..e]);
    TotalAppend(s[..at] + piece, s[e..]);
    TotalAppend(s[..at], piece);
  }

  /** `r` holds the bytes of `s` in the opposite order. */
  predicate IsReversal(s: seq<byte>, r: seq<byte>)
  {
    |r| == |s| && forall i :: 0 <= i < |s| ==> r[i] == s[|s| - 1 - i]
  }

  /** Reversing the byte order leaves the byte sum unchanged. */
  lemma {:induction false} TotalReversal(s: seq<byte>, r: seq<byte>)
    requires IsReversal(s, r)
    ensures Total(r) == Total(s)
  {
    if |s| > 0 {
      var n := |s|;
      assert IsReversal(s[..n - 1], r[1..]) by {
        forall i | 0 <= i < n - 1
          ensures r[1..][i] == s[..n - 1][n - 2 - i]
        {
        }
      }
      TotalReversal(s[..n - 1], r[1..]);
      assert r == [s[n - 1]] + r[1..];
      TotalAppend([s[n - 1]], r[1..]);
      assert [s[n - 1]][..0] == [];
    }
  }

  function Zeros(n: nat): (z: seq<byte>)
    ensures |z| == n && forall i :: 0 <= i < n ==> z[i] == 0
  {
    seq(n, _ => 0)
  }

  lemma {:induction false} TotalZeros(n: nat)
    ensures Total(Zeros(n)) == 0
  {
    if n > 0 {
      assert Zeros(n)[..n - 1] == Zeros(n - 1);
      TotalZeros(n - 1);
    }
  }

  /** `s` with the bytes starting at `at` overwritten by `piece` (a memcpy into `s`). */
  function Splice(s: seq<byte>, at: nat, piece: seq<byte>): (r: seq<byte>)
    requires at + |piece| <= |s|
    ensures |r| == |s|
    ensures forall i :: 0 <= i < |s| ==> r[i] == if at <= i < at + |piece| then piece[i - at] else s[i]
  {
    s[..at] + piece + s[at + |piece|..]
  }

  /** memmove within `s`: `len` bytes from `from` copied to `to`, read before written. */
  function Move(s: seq<byte>, from: nat, to: nat, len: nat): (r: seq<byte>)
    requires from + len <= |s| && to + len <= |s|
    ensures |r| == |s|
  {
    Splice(s, to, s[from..from + len])
  }

  /** Big-endian 16-bit value of two bytes, as the header readers assemble it. */
  function Be16(hi: byte, lo: byte): nat
  {
    hi as nat * 256 + lo as nat
  }

  /** Splitting a big-endian pair back into its high and low bytes gives the bytes. */
  lemma Be16Split(hi: byte, lo: byte, n: nat)
    requires n == Be16(hi, lo)
    ensures n / 256 == hi as nat && Wrap(n / 256) == hi && Wrap(n) == lo
  {
  }

  function Pow256(n: nat): (p: nat)
    ensures p >= 1
  {
    if n == 0 then 1 else 256 * Pow256(n - 1)
  }

  /** The in-memory image of an unsigned `n`-byte integer on the little-endian host. */
  function LeBytes(v: nat, n: nat): (s: seq<byte>)
    requires v < Pow256(n)
    ensures |s| == n
  {
    if n == 0 then [] else [(v % 256) as byte] + LeBytes(v / 256, n - 1)
  }

  /** The unsigned integer whose little-endian image is `s`. */
  function LeValue(s: seq<byte>): nat
  {
    if |s| == 0 then 0 else s[0] as nat + 256 * LeValue(s[1..])
  }

  lemma {:induction false} LeValueBound(s: seq<byte>)
    ensures LeValue(s) < Pow256(|s|)
  {
    if |s| > 0 {
      LeValueBound(s[1..]);
    }
  }

  /** Decoding an encoded integer gives it back. */
  lemma {:induction false} LeValueOfLeBytes(v: nat, n: nat)
    requires v < Pow256(n)
    ensures LeValue(LeBytes(v, n)) == v
  {
    if n > 0 {
      LeValueOfLeBytes(v / 256, n - 1);
      assert LeBytes(v, n)[1..] == LeBytes(v / 256, n - 1);
    }
  }

  /** Encoding a decoded byte image gives it back. */
  lemma {:induction false} LeBytesOfLeValue(s: seq<byte>)
    ensures LeValue(s) < Pow256(|s|) && LeBytes(LeValue(s), |s|) == s
  {
    LeValueBound(s);
    if |s| > 0 {
      LeBytesOfLeValue(s[1..]);
      var v := s[0] as nat + 256 * LeValue(s[1..]);
      assert v / 256 == LeValue(s[1..]);
      assert v % 256 == s[0] as nat;
    }
  }

  /** The unsigned integer whose big-endian image is `s`. */
  function BeValue(s: seq<byte>): nat
  {
    if |s| == 0 then 0 else BeValue(s[..|s| - 1]) * 256 + s[|s| - 1] as nat
  }

  /** Reading the reversed bytes little-endian gives the big-endian value of the original. */
  lemma {:induction false} LeValueOfReversal(s: seq<byte>, r: seq<byte>)
    requires IsReversal(s, r)
    ensures LeValue(r) == BeValue(s)
  {
    if |s| > 0 {
      var n := |s|;
      assert IsReversal(s[..n - 1], r[1..]) by {
        forall i | 0 <= i < n - 1
          ensures r[1..][i] == s[..n - 1][n - 2 - i]
        {
        }
      }
      LeValueOfReversal(s[..n - 1], r[1..]);
    }
  }

  /** swapEndian (xsmessage.c:249-282) applied to a value's bytes: the identity for one
      byte, a full reversal for 2, 4 and 8 bytes; other sizes are a contract failure. */
  function SwapEndian(s: seq<byte>): (r: seq<byte>)
    requires |s| in {1, 2, 4, 8}
    ensures |r| == |s|
  {
    match |s|
    case 1 => s
    case 2 => [s[1], s[0]]
    case 4 => [s[3], s[2], s[1], s[0]]
    case 8 => [s[7], s[6], s[5], s[4], s[3], s[2], s[1], s[0]]
  }

  /** swapEndian reverses the byte order. */
  lemma SwapEndianReverses(s: seq<byte>)
    requires |s| in {1, 2, 4, 8}
    ensures IsReversal(s, SwapEndian(s))
  {
  }

  lemma SwapEndianInvolution(s: seq<byte>)
    requires |s| in {1, 2, 4, 8}
    ensures SwapEndian(SwapEndian(s)) == s
  {
    var r := SwapEndian(SwapEndian(s));
    assert forall i :: 0 <= i < |s| ==> r[i] == s[i];
  }

  /** An integer on the little-endian host, stored byte-swapped, reads back big-endian
      from the wire as the same integer. */
  lemma WireIsBigEndian(v: nat, n: nat)
    requires n in {1, 2, 4, 8} && v < Pow256(n)
    ensures BeValue(SwapEndian(LeBytes(v, n))) == v
  {
    var w := LeBytes(v, n);
    var r := SwapEndian(w);
    assert IsReversal(r, w) by {
      forall i | 0 <= i < n
        ensures w[i] == r[n - 1 - i]
      {
      }
    }
    LeValueOfReversal(r, w);
    LeValueOfLeBytes(v, n);
  }

  /** byteSum (xsmessage.c:78-83): the loop adds the first `count` bytes one by one into
      an 8-bit accumulator, which wraps at every step. */
  method ByteSumOf(buffer: seq<byte>, count: nat) returns (sum: byte)
    requires count <= |buffer|
    ensures sum as int == Total(buffer[..count]) % 256
  {
    sum := 0;
    var i := 0;
    while i < count
      invariant 0 <= i <= count
      invariant sum as int == Total(buffer[..i]) % 256
    {
      assert buffer[..i + 1][..i] == buffer[..i];
      assert Total(buffer[..i + 1]) == Total(buffer[..i]) + buffer[i] as int;
      WrapShift(Total(buffer[..i]), buffer[i] as int);
      sum := Wrap(sum as int + buffer[i] as int);
      i := i + 1;
    }
  }
}
