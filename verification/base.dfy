/** Bytes, fixed-width little-endian integers and the result types shared by every module. */
module Base {

  type Byte = x: int | 0 <= x < 256
  type Bytes = seq<Byte>

  type U16 = x: int | 0 <= x < 0x1_0000
  type U32 = x: int | 0 <= x < 0x1_0000_0000
  type U64 = x: int | 0 <= x < 0x1_0000_0000_0000_0000

  const TWO32: int := 0x1_0000_0000
  const TWO64: int := 0x1_0000_0000_0000_0000

  /** A 32-byte digest: page hashes, snapshot refs and log ids. */
  type Digest = d: Bytes | |d| == 32 witness Zeros(32)

  /** BLAKE3 is a parameter of every definition that hashes: each result holds for every digest function. */
  type Blake3 = Bytes -> Digest

  datatype Option<+T> = None | Some(value: T)

  datatype Result<+T, +E> = Ok(value: T) | Err(error: E)

  function Zeros(n: nat): (z: Bytes)
    ensures |z| == n && forall i :: 0 <= i < n ==> z[i] == 0
  {
    seq(n, i => 0)
  }

  // ── Little-endian integers ─────────────────────────────────────────────

  function Pow256(w: nat): (p: nat)
    ensures p >= 1
  {
    if w == 0 then 1 else 256 * Pow256(w - 1)
  }

  /** `n.to_le_bytes()` at width `w`: only the low `w` bytes of `n` survive. */
  function LE(n: nat, w: nat): (b: Bytes)
    ensures |b| == w
  {
    if w == 0 then [] else [n % 256] + LE(n / 256, w - 1)
  }

  function UnLE(b: Bytes): nat {
    if b == [] then 0 else b[0] + 256 * UnLE(b[1..])
  }

  lemma {:induction false} DivMod256(n: nat, p: nat)
    requires p >= 1
    ensures n % 256 + 256 * ((n / 256) % p) == n % (256 * p)
  {
    var q, r := n / 256, n % 256;
    var a, s := q / p, q % p;
    assert q == p * a + s;
    assert n == (256 * p) * a + (256 * s + r) by { assert n == 256 * (p * a + s) + r; assert 256 * (p * a) == (256 * p) * a; }
    assert 0 <= 256 * s + r < 256 * p by { assert s <= p - 1; }
    ModUnique(n, 256 * p, a, 256 * s + r);
  }

  lemma ModUnique(n: int, d: int, q: int, r: int)
    requires d > 0 && n == d * q + r && 0 <= r < d
    ensures n % d == r
  {
    var q', r' := n / d, n % d;
    assert n == d * q' + r';
    assert d * (q - q') == r' - r by { assert d * (q - q') == d * q - d * q'; }
    assert q - q' >= 1 ==> d * (q - q') >= d;
    assert q - q' <= -1 ==> d * (q - q') <= -d;
  }

  /** Decoding an encoded integer gives its low `w` bytes. */
  lemma {:induction false} UnLEOfLE(n: nat, w: nat)
    ensures UnLE(LE(n, w)) == n % Pow256(w)
  {
    if w > 0 {
      UnLEOfLE(n / 256, w - 1);
      assert LE(n, w)[1..] == LE(n / 256, w - 1);
      DivMod256(n, Pow256(w - 1));
    }
  }

  /** Encoding a decoded byte string gives it back. */
  lemma {:induction false} LEOfUnLE(b: Bytes)
    ensures LE(UnLE(b), |b|) == b
    ensures UnLE(b) < Pow256(|b|)
  {
    if b != [] {
      LEOfUnLE(b[1..]);
      var t := UnLE(b[1..]);
      assert UnLE(b) % 256 == b[0] && UnLE(b) / 256 == t;
      assert b == [b[0]] + b[1..];
    }
  }

  lemma PowerValues()
    ensures Pow256(2) == 0x1_0000 && Pow256(4) == TWO32 && Pow256(8) == TWO64
  {
    assert Pow256(3) == 0x100_0000;
    assert Pow256(5) == 0x100_0000_0000;
    assert Pow256(6) == 0x1_0000_0000_0000;
    assert Pow256(7) == 0x100_0000_0000_0000;
  }

  /** The widths the formats use, both directions. */
  lemma RoundTrip16(n: U16)
    ensures UnLE(LE(n, 2)) == n
  {
    PowerValues();
    UnLEOfLE(n, 2);
  }

  lemma RoundTrip32(n: U32)
    ensures UnLE(LE(n, 4)) == n
  {
    PowerValues();
    UnLEOfLE(n, 4);
  }

  lemma RoundTrip64(n: U64)
    ensures UnLE(LE(n, 8)) == n
  {
    PowerValues();
    UnLEOfLE(n, 8);
  }

  function U16At(b: Bytes, off: nat): (n: U16)
    requires off + 2 <= |b|
  {
    LEOfUnLE(b[off..off + 2]); PowerValues();
    UnLE(b[off..off + 2])
  }

  function U32At(b: Bytes, off: nat): (n: U32)
    requires off + 4 <= |b|
  {
    var b0: int, b1: int, b2: int, b3: int := b[off], b[off + 1], b[off + 2], b[off + 3];
    b0 + 0x100 * b1 + 0x1_0000 * b2 + 0x100_0000 * b3
  }

  lemma U32AtIsUnLE(b: Bytes, off: nat)
    requires off + 4 <= |b|
    ensures U32At(b, off) == UnLE(b[off..off + 4])
  {
    var w := b[off..off + 4];
    assert UnLE(w[3..]) == w[3] + 256 * UnLE(w[4..]) && w[4..] == [];
    assert w[2..][1..] == w[3..] && w[1..][1..] == w[2..];
    assert UnLE(w[2..]) == w[2] + 256 * UnLE(w[3..]);
    assert UnLE(w[1..]) == w[1] + 256 * UnLE(w[2..]);
  }

  function U64At(b: Bytes, off: nat): (n: U64)
    requires off + 8 <= |b|
  {
    LEOfUnLE(b[off..off + 8]); PowerValues();
    UnLE(b[off..off + 8])
  }
}
