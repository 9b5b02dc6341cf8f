/** Constants of the storage engine, the result types shared by all modules,
    and 32-bit little-endian reads and writes over a page of bytes. */
module Config {

  const PAGE_SIZE := 4096

  /** One past the largest `uint32_t`; every 32-bit field is a natural below it. */
  const U32_LIMIT := 0x1_0000_0000

  const INVALID_PAGE_ID := 0xFFFF_FFFF

  datatype Option<+T> = None | Some(value: T)

  datatype Result<+T, +E> = Success(value: T) | Failure(error: E)

  /** Address of a tuple: its page and its slot on that page. */
  datatype RecordId = RecordId(pageId: nat, slotNum: nat)
}

module Bytes {
  import opened Config

  type byte = b: int | 0 <= b < 256

  /** The little-endian 32-bit number stored at `at`. */
  function U32(s: seq<byte>, at: nat): (v: nat)
    requires at + 4 <= |s|
    ensures v < U32_LIMIT
  {
    s[at] as int + 0x100 * s[at + 1] as int + 0x1_0000 * s[at + 2] as int + 0x100_0000 * s[at + 3] as int
  }

  function LE32(v: nat): (s: seq<byte>)
    requires v < U32_LIMIT
    ensures |s| == 4 && U32(s, 0) == v
  {
    var v1 := v / 0x100;
    var v2 := v1 / 0x100;
    [v % 0x100, v1 % 0x100, v2 % 0x100, v2 / 0x100]
  }

  /** `s` with the bytes from `at` on replaced by `bs`. */
  function Splice(s: seq<byte>, at: nat, bs: seq<byte>): (r: seq<byte>)
    requires at + |bs| <= |s|
    ensures |r| == |s|
    ensures forall k :: 0 <= k < |s| ==> r[k] == if at <= k < at + |bs| then bs[k - at] else s[k]
  {
    s[..at] + bs + s[at + |bs|..]
  }
}

module Arithmetic {
  function Abs(a: int): int { if a >= 0 then a else -a }

  /** A multiple of `m` smaller than `m` is zero. */
  lemma SmallMultiple(k: int, m: int)
    ensures -Abs(m) < k * m < Abs(m) ==> k == 0
  {
    if k >= 1 {
      assert k * Abs(m) >= Abs(m);
    } else if k <= -1 {
      assert k * Abs(m) <= -Abs(m);
    }
  }

  /** Quotient and remainder. */
  function Split(n: nat, m: nat): (r: (nat, nat))
    requires m > 0
  {
    (n / m, n % m)
  }

  lemma SplitOfSum(a: nat, m: nat, b: nat)
    requires b < m
    ensures Split(a * m + b, m) == (a, b)
  {
    var (q, r) := Split(a * m + b, m);
    assert (a - q) * m == a * m - q * m == r - b;
    SmallMultiple(a - q, m);
  }
}
