/** Byte-addressed memory and the little-endian loads and stores the C code performs on it. */
module Memory {
  import opened Common

  type byte = x: int | 0 <= x < 256

  function Get16(m: seq<byte>, a: nat): (v: nat)
    requires a + 2 <= |m|
    ensures v < 0x1_0000
  {
    m[a] as int + 0x100 * (m[a + 1] as int)
  }

  function Put16(m: seq<byte>, a: nat, v: nat): (r: seq<byte>)
    requires a + 2 <= |m| && v < 0x1_0000
    ensures |r| == |m|
    ensures forall k | 0 <= k < |m| && !(a <= k < a + 2) :: r[k] == m[k]
  {
    m[a := v % 0x100][a + 1 := v / 0x100]
  }

  function Get32(m: seq<byte>, a: nat): (v: nat)
    requires a + 4 <= |m|
    ensures v < WORD
  {
    m[a] as int + 0x100 * (m[a + 1] as int) + 0x1_0000 * (m[a + 2] as int) + 0x100_0000 * (m[a + 3] as int)
  }

  function Put32(m: seq<byte>, a: nat, v: nat): (r: seq<byte>)
    requires a + 4 <= |m| && v < WORD
    ensures |r| == |m|
    ensures forall k | 0 <= k < |m| && !(a <= k < a + 4) :: r[k] == m[k]
  {
    m[a := v % 0x100][a + 1 := v / 0x100 % 0x100][a + 2 := v / 0x1_0000 % 0x100][a + 3 := v / 0x100_0000]
  }

  lemma GetPut16(m: seq<byte>, a: nat, v: nat)
    requires a + 2 <= |m| && v < 0x1_0000
    ensures Get16(Put16(m, a, v), a) == v
  {
  }

  lemma Bytes32(v: nat)
    ensures v == v % 0x100 + 0x100 * (v / 0x100 % 0x100) + 0x1_0000 * (v / 0x1_0000 % 0x100)
                 + 0x100_0000 * (v / 0x100_0000)
  {
    assert v / 0x1_0000 == v / 0x100 / 0x100;
    assert v / 0x100_0000 == v / 0x1_0000 / 0x100;
  }

  lemma GetPut32(m: seq<byte>, a: nat, v: nat)
    requires a + 4 <= |m| && v < WORD
    ensures Get32(Put32(m, a, v), a) == v
  {
    var r := Put32(m, a, v);
    assert r[a] == v % 0x100 && r[a + 1] == v / 0x100 % 0x100;
    assert r[a + 2] == v / 0x1_0000 % 0x100 && r[a + 3] == v / 0x100_0000;
    Bytes32(v);
  }

  /** The n bytes from a on are the same in both memories. */
  ghost predicate Same(m: seq<byte>, m': seq<byte>, a: nat, n: nat) {
    |m| == |m'| && a + n <= |m| && m[a..a + n] == m'[a..a + n]
  }
}
