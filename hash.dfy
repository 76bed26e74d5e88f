/** `StringHash::hash`, the hash the city map is built with: 32-bit FNV-1a
    over the characters of the name, in `unsigned` arithmetic. */
module Hashing {
  import opened Bytes

  const PRIME: bv32 := 0x0100_0193
  const OFFSET: bv32 := 0x811C_9DC5

  function BitOf(n: int, p: int, b: bv32): bv32
    requires p > 0
  {
    if n / p % 2 == 1 then b else 0
  }

  /** The byte as a 32-bit word with the 24 high bits clear, put together
      from its eight bits. */
  function ZeroExtend(c: Byte): bv32
  {
    var n := c as int;
    BitOf(n, 0x1, 0x1) | BitOf(n, 0x2, 0x2) | BitOf(n, 0x4, 0x4) | BitOf(n, 0x8, 0x8)
    | BitOf(n, 0x10, 0x10) | BitOf(n, 0x20, 0x20) | BitOf(n, 0x40, 0x40) | BitOf(n, 0x80, 0x80)
  }

  /** `static_cast<unsigned>(c)` for a signed `char`: a byte below 0x80 is
      its own value; a byte from 0x80 up is negative and is sign-extended,
      which sets the 24 high bits. */
  function Widen(c: Byte): bv32
  {
    if c as int < 128 then ZeroExtend(c) else ZeroExtend(c) | 0xFFFF_FF00
  }

  /** One round with the widened character `w`: `hash ^= w; hash *= prime`,
      the product wrapping modulo 2^32. */
  function Round(h: bv32, w: bv32): bv32
  {
    (h ^ w) * PRIME
  }

  /** The state after one round per character of `s`, from state `h`. */
  function HashFrom(h: bv32, s: seq<Byte>): bv32
  {
    if s == [] then h else Round(HashFrom(h, s[..|s| - 1]), Widen(s[|s| - 1]))
  }

  function Fnv1a(s: seq<Byte>): bv32
  {
    HashFrom(OFFSET, s)
  }

  /** `hash(arg)`: start from the offset basis and run one round per
      character, in order; the 32-bit result is returned as a `size_t`. */
  method Hash(s: seq<Byte>) returns (h: nat)
    ensures h == Fnv1a(s) as int
    ensures h < 0x1_0000_0000
  {
    var state := OFFSET;
    for i := 0 to |s|
      invariant state == HashFrom(OFFSET, s[..i])
    {
      assert s[..i + 1][..i] == s[..i];
      state := Round(state, Widen(s[i]));
    }
    assert s[..|s|] == s;
    h := state as int;
  }

  /** The empty name hashes to the offset basis, and one more character is
      one more round, with that character widened, on the hash of what
      precedes it. */
  lemma Fnv1aSnoc(s: seq<Byte>, c: Byte)
    ensures Fnv1a([]) == 0x811C_9DC5
    ensures Fnv1a(s + [c]) == Round(Fnv1a(s), Widen(c))
  {
    assert (s + [c])[..|s|] == s;
  }

  /** Hashing a concatenation resumes from the state after the first part. */
  lemma {:induction false} HashFromAppend(h: bv32, a: seq<Byte>, b: seq<Byte>)
    ensures HashFrom(h, a + b) == HashFrom(HashFrom(h, a), b)
    decreases |b|
  {
    if b == [] {
      assert a + b == a;
    } else {
      assert (a + b)[..|a + b| - 1] == a + b[..|b| - 1];
      HashFromAppend(h, a, b[..|b| - 1]);
    }
  }

  /** Standard FNV-1a over octets: each octet is zero-extended before the
      xor. */
  function StandardFnv1a(s: seq<Byte>): bv32
  {
    if s == [] then OFFSET else Round(StandardFnv1a(s[..|s| - 1]), ZeroExtend(s[|s| - 1]))
  }

  lemma WidenBelow128(c: Byte)
    requires c as int < 128
    ensures Widen(c) == ZeroExtend(c)
  {
  }

  /** On names made of bytes below 0x80 the program's hash is standard
      FNV-1a. */
  lemma {:induction false} AsciiIsStandard(s: seq<Byte>)
    requires forall i :: 0 <= i < |s| ==> s[i] as int < 128
    ensures Fnv1a(s) == StandardFnv1a(s)
  {
    if s != [] {
      AsciiIsStandard(s[..|s| - 1]);
      WidenBelow128(s[|s| - 1]);
    }
  }

  lemma HashOfSnoc(s: seq<Byte>, c: Byte, w: bv32, h: bv32, r: bv32)
    requires Fnv1a(s) == h && Widen(c) == w && Round(h, w) == r
    ensures Fnv1a(s + [c]) == r
  {
    assert (s + [c])[..|s|] == s;
  }

  /** A byte from 0x80 up is sign-extended before the xor, so the hash of a
      name holding one is not the standard FNV-1a of its octets: for the
      one-byte name 0xE9 the program computes 0xEBF38B44 where the standard
      gives 0x6C0B6C44. */
  lemma HighByteDiffers()
    ensures Fnv1a(['é']) == 0xEBF3_8B44
    ensures StandardFnv1a(['é']) == 0x6C0B_6C44
  {
    var s: seq<Byte> := ['é'];
    assert s == [] + s && s[..0] == [];
    assert ZeroExtend('é') == 0xE9;
    assert Widen('é') == 0xFFFF_FFE9;
    assert Round(OFFSET, 0xFFFF_FFE9) == 0xEBF3_8B44;
    HashOfSnoc([], 'é', 0xFFFF_FFE9, OFFSET, 0xEBF3_8B44);
    assert Round(OFFSET, 0xE9) == 0x6C0B_6C44;
  }

  /** The published FNV-1a test vector for "a". */
  lemma VectorA()
    ensures Fnv1a("a") == 0xE40C_292C
  {
    assert Widen('a') == 0x61;
    assert Round(OFFSET, 0x61) == 0xE40C_292C;
    HashOfSnoc([], 'a', 0x61, OFFSET, 0xE40C_292C);
    assert "a" == [] + ['a'];
  }

  /** The published FNV-1a test vector for "foobar", one round per lemma. */
  lemma VectorFoobar()
    ensures Fnv1a("foobar") == 0xBF9C_F968
  {
    VectorFooba();
    assert Widen('r') == 0x72;
    assert Round(0x39AA_A18A, 0x72) == 0xBF9C_F968;
    HashOfSnoc("fooba", 'r', 0x72, 0x39AA_A18A, 0xBF9C_F968);
    assert "foobar" == "fooba" + ['r'];
  }

  lemma VectorFooba()
    ensures Fnv1a("fooba") == 0x39AA_A18A
  {
    VectorFoob();
    assert Widen('a') == 0x61;
    assert Round(0x3F50_76EF, 0x61) == 0x39AA_A18A;
    HashOfSnoc("foob", 'a', 0x61, 0x3F50_76EF, 0x39AA_A18A);
    assert "fooba" == "foob" + ['a'];
  }

  lemma VectorFoob()
    ensures Fnv1a("foob") == 0x3F50_76EF
  {
    VectorFoo();
    assert Widen('b') == 0x62;
    assert Round(0xA9F3_7ED7, 0x62) == 0x3F50_76EF;
    HashOfSnoc("foo", 'b', 0x62, 0xA9F3_7ED7, 0x3F50_76EF);
    assert "foob" == "foo" + ['b'];
  }

  lemma VectorFoo()
    ensures Fnv1a("foo") == 0xA9F3_7ED7
  {
    VectorFo();
    assert Widen('o') == 0x6F;
    assert Round(0x6222_E842, 0x6F) == 0xA9F3_7ED7;
    HashOfSnoc("fo", 'o', 0x6F, 0x6222_E842, 0xA9F3_7ED7);
    assert "foo" == "fo" + ['o'];
  }

  lemma VectorFo()
    ensures Fnv1a("fo") == 0x6222_E842
  {
    VectorF();
    assert Widen('o') == 0x6F;
    assert Round(0xE30C_2799, 0x6F) == 0x6222_E842;
    HashOfSnoc("f", 'o', 0x6F, 0xE30C_2799, 0x6222_E842);
    assert "fo" == "f" + ['o'];
  }

  lemma VectorF()
    ensures Fnv1a("f") == 0xE30C_2799
  {
    assert Widen('f') == 0x66;
    assert Round(OFFSET, 0x66) == 0xE30C_2799;
    HashOfSnoc([], 'f', 0x66, OFFSET, 0xE30C_2799);
    assert "f" == [] + ['f'];
  }
}
