/** Byte strings, the C integer conversions the code performs on them, and C strings. */
module Bytes {

  newtype byte = i: int | 0 <= i < 0x100

  type bytes = seq<byte>

  const U32_LIMIT := 0x1_0000_0000
  const INT_MAX := 0x7FFF_FFFF

  /** A buffer whose size fits a C `int`. */
  type Blob = b: bytes | |b| <= INT_MAX witness []

  datatype Option<+T> = None | Some(value: T)

  function Zeros(n: nat): (z: bytes)
    ensures |z| == n && forall i | 0 <= i < n :: z[i] == 0
  {
    seq(n, i => 0)
  }

  /** The C conversion of a `uint32_t` to `int32_t`. */
  function ToInt32(n: nat): (r: int)
    requires n < U32_LIMIT
    ensures -INT_MAX - 1 <= r <= INT_MAX && (r == n || r == n - U32_LIMIT)
  {
    if n <= INT_MAX then n else n - U32_LIMIT
  }

  /** A `uint32_t` as it lies in memory on a little-endian host. */
  function Le32(n: nat): (b: bytes)
    requires n < U32_LIMIT
    ensures |b| == 4 && FromLe32(b, 0) == n
  {
    var lo, hi := n % 0x1_0000, n / 0x1_0000;
    [(lo % 0x100) as byte, (lo / 0x100) as byte, (hi % 0x100) as byte, (hi / 0x100) as byte]
  }

  function FromLe32(b: bytes, at: nat): (n: nat)
    requires at + 4 <= |b|
    ensures n < U32_LIMIT
  {
    b[at] as int + 0x100 * b[at + 1] as int + 0x1_0000 * b[at + 2] as int + 0x100_0000 * b[at + 3] as int
  }

  /** The byte at the lowest address is the least significant one. */
  lemma LowestIsLeast(b: bytes, at: nat)
    requires at + 4 <= |b|
    ensures var n := FromLe32(b, at);
            && b[at] as int == n % 0x100 && b[at + 1] as int == n / 0x100 % 0x100
            && b[at + 2] as int == n / 0x1_0000 % 0x100 && b[at + 3] as int == n / 0x100_0000
  {
    var low := b[at] as int + 0x100 * b[at + 1] as int;
    var high := b[at + 2] as int + 0x100 * b[at + 3] as int;
    assert FromLe32(b, at) == low + 0x1_0000 * high;
  }

  /** `b` contains `part` at offset `at`. */
  predicate Has(b: bytes, at: nat, part: bytes) {
    at + |part| <= |b| && b[at..at + |part|] == part
  }

  lemma HasSplit(b: bytes, at: nat, p: bytes, q: bytes)
    ensures Has(b, at, p + q) <==> Has(b, at, p) && Has(b, at + |p|, q)
  {
    if at + |p| + |q| <= |b| {
      assert b[at..at + |p + q|] == b[at..at + |p|] + b[at + |p|..at + |p| + |q|];
      if Has(b, at, p + q) {
        assert (p + q)[..|p|] == p && (p + q)[|p|..] == q;
      }
    }
  }

  lemma HasLe32(b: bytes, at: nat, n: nat)
    requires n < U32_LIMIT && Has(b, at, Le32(n))
    ensures FromLe32(b, at) == n
  {
    forall i | 0 <= i < 4 ensures b[at + i] == Le32(n)[i] {
      assert b[at..at + 4][i] == b[at + i];
    }
  }

  /** The C string at the start of a buffer: its bytes before the first NUL. */
  function CStr(b: bytes): (s: bytes)
    ensures |s| <= |b| && s == b[..|s|] && 0 !in s
    ensures |s| < |b| ==> b[|s|] == 0
  {
    if b == [] || b[0] == 0 then [] else [b[0]] + CStr(b[1..])
  }

  /** The C string `name` with its terminator, as keys are stored. */
  function Terminated(name: bytes): (r: bytes) { name + [0] }

  lemma CStrOfTerminated(name: bytes)
    requires 0 !in name
    ensures CStr(Terminated(name)) == name
  {
    var t := Terminated(name);
    assert t[|name|] == 0 && t[..|name|] == name;
    assert forall i | 0 <= i < |name| :: t[i] == name[i];
  }
}
