/** Fixed-width big-endian integers and byte strings (crypto/params.py). */
module Bytes {
  import opened Field

  type byte = x: int | 0 <= x < 256
  type bytes = seq<byte>

  function Pow256(n: nat): (p: nat)
    ensures p >= 1
  {
    if n == 0 then 1 else 256 * Pow256(n - 1)
  }

  /** int.to_bytes(n, "big") for a value that fits; higher digits are dropped otherwise. */
  function ToBE(v: nat, n: nat): (b: bytes)
    ensures |b| == n
  {
    if n == 0 then [] else ToBE(v / 256, n - 1) + [v % 256]
  }

  /** int.from_bytes(b, "big"). */
  function FromBE(b: bytes): nat
  {
    if b == [] then 0 else FromBE(b[..|b| - 1]) * 256 + b[|b| - 1]
  }

  lemma {:induction false} FromTo(v: nat, n: nat)
    requires v < Pow256(n)
    ensures FromBE(ToBE(v, n)) == v
  {
    if n > 0 {
      FromTo(v / 256, n - 1);
      var b := ToBE(v, n);
      assert b[..|b| - 1] == ToBE(v / 256, n - 1);
    }
  }

  lemma {:induction false} ToFrom(b: bytes)
    ensures FromBE(b) < Pow256(|b|)
    ensures ToBE(FromBE(b), |b|) == b
  {
    if b != [] {
      var n := |b| - 1;
      ToFrom(b[..n]);
      assert FromBE(b) / 256 == FromBE(b[..n]) && FromBE(b) % 256 == b[n];
      assert b == b[..n] + [b[n]];
    }
  }

  lemma ToBEInjective(v: nat, w: nat, n: nat)
    requires v < Pow256(n) && w < Pow256(n) && ToBE(v, n) == ToBE(w, n)
    ensures v == w
  {
    FromTo(v, n);
    FromTo(w, n);
  }

  function U16(n: nat): (b: bytes)
    ensures |b| == 2
  {
    ToBE(n, 2)
  }

  function U32(n: nat): (b: bytes)
    ensures |b| == 4
  {
    ToBE(n, 4)
  }

  lemma Pow256Values()
    ensures Pow256(2) == 0x1_0000 && Pow256(4) == 0x1_0000_0000
  {
    assert Pow256(1) == 256 && Pow256(3) == 0x100_0000;
  }

  /** Python slicing clamps at the end of the buffer. */
  function Slice(b: bytes, start: nat, len: nat): (r: bytes)
    ensures |r| <= len
    ensures |r| == len <==> start + len <= |b| || len == 0
  {
    if start >= |b| then []
    else if start + len > |b| then b[start..]
    else b[start..start + len]
  }

  /** ASCII text as UTF-8 bytes. */
  function Ascii(t: string): (b: bytes)
    ensures |b| == |t|
  {
    seq(|t|, i requires 0 <= i < |t| => (t[i] as int) % 256)
  }

  /** Decimal digits of an index, as Python formats it. */
  function Decimal(n: nat): string
  {
    if n < 10 then [Digit(n)] else Decimal(n / 10) + [Digit(n % 10)]
  }

  function Digit(n: nat): char
    requires n < 10
  {
    "0123456789"[n]
  }

  /** Equal concatenations whose first parts have one length split at the same place. */
  lemma SplitEqual(a: bytes, b: bytes, c: bytes, d: bytes)
    requires |a| == |c| && a + b == c + d
    ensures a == c && b == d
  {
    assert a == (a + b)[..|a|] == (c + d)[..|c|] == c;
    assert b == (a + b)[|a|..] == (c + d)[|c|..] == d;
  }

  /** A length prefix makes a variable field self-delimiting. */
  lemma PrefixedEqual(a: bytes, rest: bytes, b: bytes, rest': bytes)
    requires |a| < Pow256(4) && |b| < Pow256(4)
    requires U32(|a|) + a + rest == U32(|b|) + b + rest'
    ensures a == b && rest == rest'
  {
    hide Pow256, ToBE;
    var x, y := a + rest, b + rest';
    assert U32(|a|) + a + rest == U32(|a|) + x && U32(|b|) + b + rest' == U32(|b|) + y;
    SplitEqual(U32(|a|), x, U32(|b|), y);
    ToBEInjective(|a|, |b|, 4);
    SplitEqual(a, rest, b, rest');
  }

  // ----- scalars -----

  /** scalar_to_bytes. */
  function ScalarToBytes(s: int, q: int): (b: bytes)
    requires q > 0
    ensures |b| == 32
  {
    ToBE(s % q, 32)
  }

  /** scalar_from_bytes: canonical encodings only. */
  function ScalarFromBytes(b: bytes, q: int): (r: Option<int>)
    requires q > 0
    ensures r.Some? ==> 0 <= r.value < q
  {
    if |b| != 32 || FromBE(b) >= q then None else Some(FromBE(b))
  }

  /** Decoding inverts encoding on every scalar, up to reduction. */
  lemma ScalarRoundTrip(s: int, q: int)
    requires 0 < q <= Pow256(32)
    ensures ScalarFromBytes(ScalarToBytes(s, q), q) == Some(s % q)
  {
    FromTo(s % q, 32);
  }

  /** Every accepted encoding is the one its value encodes to. */
  lemma ScalarCanonical(b: bytes, q: int)
    requires q > 0 && ScalarFromBytes(b, q).Some?
    ensures ScalarToBytes(ScalarFromBytes(b, q).value, q) == b
  {
    ToFrom(b);
    ModUnique(FromBE(b), 0, FromBE(b), q);
  }
}
