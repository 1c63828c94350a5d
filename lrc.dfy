/** The longitudinal redundancy check: every frame carries the exclusive-or
    of a span of its own bytes, computed by `calculateLRC`. */
module Lrc {
  import opened Wrappers
  import opened Bits

  /** Exclusive-or of all bytes, folded from the left starting at 0, in the
      order `calculateLRC` visits them. The empty sequence folds to 0. */
  function XorFold(s: seq<Byte>): Byte
  {
    if s == [] then 0 else XorByte(XorFold(s[..|s| - 1]), s[|s| - 1])
  }

  /** `n` zero bytes. */
  function Zeros(n: nat): (z: seq<Byte>)
    ensures |z| == n && forall i :: 0 <= i < n ==> z[i] == 0
  {
    seq(n, _ => 0)
  }

  /** `calculateLRC`: no checksum when there is no input; otherwise the
      accumulator starts at 0 and each byte is xor-ed into it in turn. */
  method CalculateLRC(data: Option<seq<Byte>>) returns (lrc: Option<Byte>)
    ensures lrc.None? <==> data.None?
    ensures data.Some? ==> lrc == Some(XorFold(data.value))
  {
    if data.None? {
      return None;
    }
    var s := data.value;
    var acc: Byte := 0;
    var i := 0;
    while i < |s|
      invariant 0 <= i <= |s|
      invariant acc == XorFold(s[..i])
    {
      assert s[..i + 1][..i] == s[..i];
      acc := XorByte(acc, s[i]);
      i := i + 1;
    }
    assert s[..i] == s;
    lrc := Some(acc);
  }

  /** The checksum of one byte is that byte. */
  lemma XorFoldSingle(b: Byte)
    ensures XorFold([b]) == b
  {
    assert [b][..0] == [];
    XorZero(b);
  }

  /** The checksum of a concatenation is the exclusive-or of the checksums
      of its parts: the checksum can be computed piecewise. */
  lemma {:induction false} XorFoldAppend(a: seq<Byte>, b: seq<Byte>)
    ensures XorFold(a + b) == XorByte(XorFold(a), XorFold(b))
    decreases |b|
  {
    if b == [] {
      assert a + b == a;
      XorZero(XorFold(a));
    } else {
      var b', x := b[..|b| - 1], b[|b| - 1];
      assert (a + b)[..|a + b| - 1] == a + b';
      XorFoldAppend(a, b');
      XorAssociates(XorFold(a), XorFold(b'), x);
    }
  }

  /** Trailing zero bytes do not change the checksum (so `[0x31, 0x00]`
      checks to `0x31`). */
  lemma XorFoldZeros(s: seq<Byte>, n: nat)
    ensures XorFold(s + Zeros(n)) == XorFold(s)
  {
    XorFoldAppend(s, Zeros(n));
    XorFoldOfZeros(n);
    XorZero(XorFold(s));
  }

  /** A run of zero bytes checks to 0. */
  lemma {:induction false} XorFoldOfZeros(n: nat)
    ensures XorFold(Zeros(n)) == 0
  {
    if n > 0 {
      assert Zeros(n)[..n - 1] == Zeros(n - 1);
      XorFoldOfZeros(n - 1);
    }
  }

  /** What a receiver checks: a span followed by its own checksum xors to
      0; the checksum xor-ed with itself is 0. */
  lemma ChecksumCancels(s: seq<Byte>)
    ensures XorByte(XorFold(s), XorFold(s)) == 0
    ensures XorFold(s + [XorFold(s)]) == 0
  {
    XorSelf(XorFold(s));
    assert (s + [XorFold(s)])[..|s|] == s;
  }

  /** The checksum does not depend on the order of the bytes. */
  lemma {:induction false} XorFoldSwap(a: seq<Byte>, b: seq<Byte>)
    ensures XorFold(a + b) == XorFold(b + a)
  {
    XorFoldAppend(a, b);
    XorFoldAppend(b, a);
    XorCommutes(XorFold(a), XorFold(b));
  }
}
