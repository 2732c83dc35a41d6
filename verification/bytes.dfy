/** Byte strings and little-endian words. */
module Bytes {
  import opened Bits

  type byte = x: int | 0 <= x < 256

  function Pow256(k: nat): (r: nat)
    ensures r > 0
  {
    if k == 0 then 1 else 256 * Pow256(k - 1)
  }

  /** The word that a little-endian byte string denotes. */
  function FromLittleEndian(s: seq<byte>): (n: nat)
    ensures n < Pow256(|s|)
  {
    if s == [] then 0 else s[0] + 256 * FromLittleEndian(s[1..])
  }

  /** The k low bytes of n, least significant first. */
  function ToLittleEndian(n: nat, k: nat): (s: seq<byte>)
    ensures |s| == k
  {
    if k == 0 then [] else [n % 256] + ToLittleEndian(n / 256, k - 1)
  }

  lemma {:induction false} DecodeEncode(n: nat, k: nat)
    requires n < Pow256(k)
    ensures FromLittleEndian(ToLittleEndian(n, k)) == n
  {
    if k == 0 {
    } else {
      DecodeEncode(n / 256, k - 1);
      assert ToLittleEndian(n, k)[1..] == ToLittleEndian(n / 256, k - 1);
    }
  }

  lemma {:induction false} EncodeDecode(s: seq<byte>)
    ensures ToLittleEndian(FromLittleEndian(s), |s|) == s
  {
    if s == [] {
    } else {
      EncodeDecode(s[1..]);
      assert FromLittleEndian(s) % 256 == s[0] && FromLittleEndian(s) / 256 == FromLittleEndian(s[1..]);
      assert s == [s[0]] + s[1..];
    }
  }

  lemma TwoHalves(s: seq<byte>)
    requires |s| == 4
    ensures FromLittleEndian(s) == FromLittleEndian(s[..2]) + U16_LIMIT * FromLittleEndian(s[2..])
  {
    assert s[1..][1..] == s[2..] && s[..2][1..] == s[1..2] && s[1..2][1..] == [];
    assert FromLittleEndian(s[1..]) == s[1] + 256 * FromLittleEndian(s[2..]);
    assert FromLittleEndian(s[1..2]) == s[1] + 256 * FromLittleEndian([]);
    assert FromLittleEndian(s[..2]) == s[0] + 256 * FromLittleEndian(s[1..2]);
  }

  function U16At(s: seq<byte>, at: nat): u16
    requires at + 2 <= |s|
  {
    assert Pow256(2) == U16_LIMIT;
    FromLittleEndian(s[at..at + 2])
  }

  function U32At(s: seq<byte>, at: nat): u32
    requires at + 4 <= |s|
  {
    assert Pow256(4) == U32_LIMIT;
    FromLittleEndian(s[at..at + 4])
  }

  function U64At(s: seq<byte>, at: nat): u64
    requires at + 8 <= |s|
  {
    assert Pow256(8) == U64_LIMIT;
    FromLittleEndian(s[at..at + 8])
  }

  function U16(n: u16): (s: seq<byte>)
    ensures |s| == 2
  {
    ToLittleEndian(n, 2)
  }

  function U32(n: u32): (s: seq<byte>)
    ensures |s| == 4
  {
    ToLittleEndian(n, 4)
  }

  function U64(n: u64): (s: seq<byte>)
    ensures |s| == 8
  {
    ToLittleEndian(n, 8)
  }

  function Zeros(n: nat): (s: seq<byte>)
    ensures |s| == n
  {
    seq(n, _ => 0)
  }

  lemma MiddleOf(a: seq<byte>, b: seq<byte>, c: seq<byte>)
    ensures (a + b + c)[|a|..|a| + |b|] == b
  {
  }

  /** Reading a 16-bit word back from where it was written. */
  lemma ReadU16(a: seq<byte>, n: u16, c: seq<byte>)
    ensures U16At(a + U16(n) + c, |a|) == n
  {
    MiddleOf(a, U16(n), c);
    assert Pow256(2) == U16_LIMIT;
    DecodeEncode(n, 2);
  }

  lemma ReadU64(a: seq<byte>, n: u64, c: seq<byte>)
    ensures U64At(a + U64(n) + c, |a|) == n
  {
    MiddleOf(a, U64(n), c);
    assert Pow256(8) == U64_LIMIT;
    DecodeEncode(n, 8);
  }

  /** Little-endian serialisation of 64-bit words is injective, and onto the 8-byte strings. */
  lemma U64Bijection(s: seq<byte>, n: u64)
    requires |s| == 8
    ensures s == U64(n) <==> U64At(s, 0) == n
  {
    assert s[0..8] == s;
    assert Pow256(8) == U64_LIMIT;
    DecodeEncode(n, 8);
    EncodeDecode(s);
  }

  /** A string with its first bytes replaced. */
  function Overwrite(s: seq<byte>, t: seq<byte>): (r: seq<byte>)
    requires |t| <= |s|
    ensures |r| == |s| && r[..|t|] == t && r[|t|..] == s[|t|..]
  {
    t + s[|t|..]
  }

  lemma OverwriteNothing(s: seq<byte>)
    ensures Overwrite(s, []) == s
  {
  }

  // ---------- Pieces of a larger string ----------

  /** The piece lies in s at the given place. */
  predicate Holds(s: seq<byte>, at: nat, piece: seq<byte>)
  {
    at + |piece| <= |s| && s[at..at + |piece|] == piece
  }

  lemma HoldsEnd(s: seq<byte>, piece: seq<byte>)
    ensures Holds(s + piece, |s|, piece)
  {
  }

  lemma HoldsAppend(s: seq<byte>, more: seq<byte>, at: nat, piece: seq<byte>)
    requires Holds(s, at, piece)
    ensures Holds(s + more, at, piece)
  {
    assert (s + more)[at..at + |piece|] == s[at..at + |piece|];
  }

  lemma HoldsPrepend(lead: seq<byte>, s: seq<byte>, at: nat, piece: seq<byte>)
    requires Holds(s, at, piece)
    ensures Holds(lead + s, |lead| + at, piece)
  {
    assert (lead + s)[|lead| + at..|lead| + at + |piece|] == s[at..at + |piece|];
  }

  /** A piece of a piece. */
  lemma HoldsInside(s: seq<byte>, at: nat, piece: seq<byte>, inner: nat, part: seq<byte>)
    requires Holds(s, at, piece) && Holds(piece, inner, part)
    ensures Holds(s, at + inner, part)
  {
    forall k | 0 <= k < |part| ensures s[at + inner + k] == part[k] {
      assert piece[inner..inner + |part|][k] == piece[inner + k];
      assert s[at..at + |piece|][inner + k] == s[at + inner + k];
    }
  }

  lemma HoldsFrontPair(x: seq<byte>, y: seq<byte>, rest: seq<byte>)
    ensures Holds(x + y + rest, 0, x) && Holds(x + y + rest, |x|, y)
  {
    HoldsAppend(x + y, rest, 0, x);
    HoldsEnd(x, y);
    HoldsAppend(x + y, rest, |x|, y);
  }

  /** Each piece of a concatenation lies behind the pieces before it. */
  lemma HoldsMiddlePieces(s: seq<byte>, h: seq<byte>, a: seq<byte>, b: seq<byte>, c: seq<byte>, d: seq<byte>,
                          rest: seq<byte>)
    requires s == h + a + b + c + d + rest
    ensures && Holds(s, |h|, a) && Holds(s, |h| + |a|, b)
            && Holds(s, |h| + |a| + |b|, c) && Holds(s, |h| + |a| + |b| + |c|, d)
  {
    HoldsEnd(h, a);
    HoldsAppend(h + a, b, |h|, a);
    HoldsEnd(h + a, b);
    HoldsThrough(h + a + b, c, d, rest, |h|, a);
    HoldsThrough(h + a + b, c, d, rest, |h + a|, b);
    HoldsEnd(h + a + b, c);
    HoldsAppend(h + a + b + c, d, |h + a + b|, c);
    HoldsAppend(h + a + b + c + d, rest, |h + a + b|, c);
    HoldsEnd(h + a + b + c, d);
    HoldsAppend(h + a + b + c + d, rest, |h + a + b + c|, d);
  }

  lemma HoldsAtPlaces(s: seq<byte>, h: seq<byte>, a: seq<byte>, b: seq<byte>, c: seq<byte>, d: seq<byte>,
                      rest: seq<byte>, atB: nat, atC: nat, atD: nat)
    requires s == h + a + b + c + d + rest
    requires atB == |h| + |a| && atC == atB + |b| && atD == atC + |c|
    ensures Holds(s, |h|, a) && Holds(s, atB, b) && Holds(s, atC, c) && Holds(s, atD, d)
  {
    HoldsMiddlePieces(s, h, a, b, c, d, rest);
  }

  lemma HoldsThrough(s: seq<byte>, x: seq<byte>, y: seq<byte>, z: seq<byte>, at: nat, piece: seq<byte>)
    requires Holds(s, at, piece)
    ensures Holds(s + x + y + z, at, piece)
  {
    HoldsAppend(s, x, at, piece);
    HoldsAppend(s + x, y, at, piece);
    HoldsAppend(s + x + y, z, at, piece);
  }

  lemma HoldsU16(s: seq<byte>, at: nat, n: u16)
    requires Holds(s, at, U16(n))
    ensures U16At(s, at) == n
  {
    assert Pow256(2) == U16_LIMIT;
    DecodeEncode(n, 2);
  }

  lemma HoldsU32(s: seq<byte>, at: nat, n: u32)
    requires Holds(s, at, U32(n))
    ensures U32At(s, at) == n
  {
    assert Pow256(4) == U32_LIMIT;
    DecodeEncode(n, 4);
  }

  lemma HoldsU64(s: seq<byte>, at: nat, n: u64)
    requires Holds(s, at, U64(n))
    ensures U64At(s, at) == n
  {
    assert Pow256(8) == U64_LIMIT;
    DecodeEncode(n, 8);
  }
}
