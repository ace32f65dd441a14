/** Fixed-width little-endian integers, as the nonce and the packet header carry them. */
module LittleEndian {
  import opened Common

  function Pow256(w: nat): nat {
    if w == 0 then 1 else 256 * Pow256(w - 1)
  }

  /** The low w bytes of n, least significant first. */
  function ToLE(n: nat, w: nat): (s: seq<Byte>)
    ensures |s| == w
    decreases w, n
  {
    if w == 0 then [] else [n % 256] + ToLE(n / 256, w - 1)
  }

  function FromLE(s: seq<Byte>): nat {
    if s == [] then 0 else s[0] as int + 256 * FromLE(s[1..])
  }

  lemma LowByteFirst(n: nat, w: nat)
    requires w > 0
    ensures ToLE(n, w) == [n % 256] + ToLE(n / 256, w - 1)
  {
  }

  lemma {:induction false} FromLEBound(s: seq<Byte>)
    ensures FromLE(s) < Pow256(|s|)
  {
    if s != [] {
      FromLEBound(s[1..]);
    }
  }

  /** Reading back what was written gives the number, when it fits the width. */
  lemma {:induction false} FromToLE(n: nat, w: nat)
    requires n < Pow256(w)
    ensures FromLE(ToLE(n, w)) == n
    decreases w, n
  {
    if w > 0 {
      FromToLE(n / 256, w - 1);
    }
  }

  /** A byte more at the high end. */
  lemma {:induction false} FromLESnoc(s: seq<Byte>, b: Byte)
    ensures FromLE(s + [b]) == FromLE(s) + b as int * Pow256(|s|)
  {
    if s == [] {
      assert s + [b] == [b] && [b][1..] == [];
    } else {
      assert (s + [b])[1..] == s[1..] + [b] && (s + [b])[0] == s[0];
      FromLESnoc(s[1..], b);
      var d: int, p := b as int, Pow256(|s| - 1);
      assert 256 * (d * p) == d * (256 * p);
    }
  }

  lemma Pow256Values()
    ensures Pow256(4) == TwoTo32 && Pow256(8) == TwoTo64
  {
    assert Pow256(2) == 0x1_0000;
    assert Pow256(4) == 256 * (256 * Pow256(2));
    assert Pow256(6) == 256 * (256 * Pow256(4));
    assert Pow256(8) == 256 * (256 * Pow256(6));
  }

  // ----- the same, byte by byte -----

  /** The 32-bit number at the given offset. */
  function U32(s: seq<Byte>, at: nat): nat
    requires at + 4 <= |s|
  {
    s[at] as int + 0x100 * s[at + 1] as int + 0x1_0000 * s[at + 2] as int + 0x100_0000 * s[at + 3] as int
  }

  /** The 64-bit number at the given offset. */
  function U64(s: seq<Byte>, at: nat): nat
    requires at + 8 <= |s|
  {
    U32(s, at) + 0x1_0000_0000 * U32(s, at + 4)
  }

  lemma FromLECons(s: seq<Byte>)
    requires s != []
    ensures FromLE(s) == s[0] as int + 256 * FromLE(s[1..])
  {
  }

  lemma FourBytes(s: seq<Byte>, at: nat)
    requires at + 4 <= |s|
    ensures FromLE(s[at..at + 4]) == U32(s, at)
  {
    hide FromLE;
    var t := s[at..at + 4];
    assert t[1..][1..] == t[2..] && t[2..][1..] == t[3..] && t[3..][1..] == [];
    FromLECons(t);
    FromLECons(t[1..]);
    FromLECons(t[2..]);
    FromLECons(t[3..]);
    NothingIsZero();
  }

  lemma NothingIsZero()
    ensures FromLE([]) == 0
  {
  }

  lemma Regroup(a: int, p: int, q: int)
    ensures 256 * (a + p * q) == 256 * a + (256 * p) * q
  {
  }

  lemma {:induction false} FromLEAppend(s: seq<Byte>, t: seq<Byte>)
    ensures FromLE(s + t) == FromLE(s) + Pow256(|s|) * FromLE(t)
  {
    hide FromLE;
    if s == [] {
      assert s + t == t;
      NothingIsZero();
    } else {
      assert (s + t)[0] == s[0] && (s + t)[1..] == s[1..] + t;
      FromLECons(s + t);
      FromLECons(s);
      FromLEAppend(s[1..], t);
      Regroup(FromLE(s[1..]), Pow256(|s| - 1), FromLE(t));
    }
  }

  lemma EightBytes(s: seq<Byte>, at: nat)
    requires at + 8 <= |s|
    ensures FromLE(s[at..at + 8]) == U64(s, at)
  {
    hide FromLE, Pow256, U32;
    assert s[at..at + 8] == s[at..at + 4] + s[at + 4..at + 8];
    FromLEAppend(s[at..at + 4], s[at + 4..at + 8]);
    FourBytes(s, at);
    FourBytes(s, at + 4);
    Pow256Values();
  }
}
