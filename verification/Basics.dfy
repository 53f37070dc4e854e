/** Machine-level vocabulary shared by every model: bytes, words, pages and the little-endian encoding. */
module Basics {

  datatype Option<+T> = None | Some(value: T)

  datatype Result<+T, +E> = Success(value: T) | Failure(error: E)

  type byte = x: int | 0 <= x < 256

  type Bytes = seq<byte>

  type u64 = x: int | 0 <= x < 0x1_0000_0000_0000_0000

  const TWO64: nat := 0x1_0000_0000_0000_0000

  /** Size4KiB::SIZE */
  const PAGE: nat := 4096

  /** Two's complement errno results, as the syscalls return them in a u64. */
  const ENOENT: u64 := 0x1_0000_0000_0000_0000 - 2
  const ENOEXEC: u64 := 0x1_0000_0000_0000_0000 - 8
  const EAGAIN: u64 := 0x1_0000_0000_0000_0000 - 11
  const ENOMEM: u64 := 0x1_0000_0000_0000_0000 - 12
  const EFAULT: u64 := 0x1_0000_0000_0000_0000 - 14
  const EINVAL: u64 := 0x1_0000_0000_0000_0000 - 22

  function Min(a: int, b: int): int {
    if a <= b then a else b
  }

  function Max(a: int, b: int): int {
    if a >= b then a else b
  }

  /** What `VirtAddr::new` accepts. */
  predicate Canonical(va: nat) {
    va < 0x8000_0000_0000 || 0xFFFF_8000_0000_0000 <= va < TWO64
  }

  function PageOf(addr: nat): nat {
    addr / PAGE
  }

  function UpTo8(x: nat): (r: nat)
    ensures x <= r < x + 8 && r % 8 == 0
  {
    (x + 7) / 8 * 8
  }

  function UpTo16(x: nat): (r: nat)
    ensures x <= r < x + 16 && r % 16 == 0
  {
    (x + 15) / 16 * 16
  }

  function UpToPage(x: nat): (r: nat)
    ensures x <= r < x + PAGE && r % PAGE == 0
  {
    (x + 4095) / 4096 * 4096
  }

  /** `(x + a - 1) & !(a - 1)` for the three alignments in use. */
  function AlignUp(x: nat, a: nat): (r: nat)
    requires a == 8 || a == 16 || a == PAGE
    ensures x <= r < x + a
    ensures (a == 8 ==> r % 8 == 0) && (a == 16 ==> r % 16 == 0) && (a == PAGE ==> r % PAGE == 0)
  {
    if a == 8 then UpTo8(x) else if a == 16 then UpTo16(x) else UpToPage(x)
  }

  ghost predicate IsLeast(s: set<nat>, r: nat) {
    r in s && forall x | x in s :: r <= x
  }

  /** The least element of a nonempty set of indices. */
  ghost function Lowest(s: set<nat>): (r: nat)
    requires s != {}
    ensures r in s && forall x | x in s :: r <= x
  {
    LowestExists(s);
    var r :| IsLeast(s, r);
    r
  }

  lemma {:induction false} LowestExists(s: set<nat>)
    requires s != {}
    ensures exists r :: IsLeast(s, r)
    decreases |s|
  {
    var e :| e in s;
    var rest := s - {e};
    if rest == {} {
      assert s == {e};
      assert IsLeast(s, e);
    } else {
      LowestExists(rest);
      var r :| IsLeast(rest, r);
      var low := if e < r then e else r;
      forall x | x in s ensures low <= x {
        assert x == e || x in rest;
      }
      assert IsLeast(s, low);
    }
  }

  // ----- little-endian words -----

  function Pow256(n: nat): nat {
    if n == 0 then 1 else 256 * Pow256(n - 1)
  }

  /** `to_le_bytes`, least significant byte first, truncated to n bytes. */
  function LeBytes(x: nat, n: nat): (s: seq<byte>)
    ensures |s| == n
    decreases n
  {
    if n == 0 then [] else [x % 256] + LeBytes(x / 256, n - 1)
  }

  /** `from_le_bytes` */
  function FromLe(s: seq<byte>): (x: nat)
    ensures x < Pow256(|s|)
  {
    if s == [] then 0 else s[0] + 256 * FromLe(s[1..])
  }

  lemma {:induction false} LeRoundTrip(x: nat, n: nat)
    requires x < Pow256(n)
    ensures FromLe(LeBytes(x, n)) == x
    decreases n
  {
    if n > 0 {
      LeRoundTrip(x / 256, n - 1);
      assert LeBytes(x, n)[1..] == LeBytes(x / 256, n - 1);
    }
  }

  /** The words the formats use, digit by digit: the least significant byte comes first. */
  lemma WordsAre(s: seq<byte>)
    ensures |s| == 2 ==> FromLe(s) == (s[0] as int) + 0x100 * (s[1] as int)
    ensures |s| == 4 ==>
              FromLe(s) == (s[0] as int) + 0x100 * (s[1] as int) + 0x1_0000 * (s[2] as int) + 0x100_0000 * (s[3] as int)
    ensures |s| == 8 ==>
              FromLe(s) == (s[0] as int) + 0x100 * (s[1] as int) + 0x1_0000 * (s[2] as int) + 0x100_0000 * (s[3] as int)
                           + 0x1_0000_0000 * (s[4] as int) + 0x100_0000_0000 * (s[5] as int)
                           + 0x1_0000_0000_0000 * (s[6] as int) + 0x100_0000_0000_0000 * (s[7] as int)
  {
    if |s| == 2 {
      TwoBytes(s);
    } else if |s| == 4 {
      TwoBytes(s[2..]);
      assert s[1..][1..] == s[2..];
      assert FromLe(s) == s[0] + 256 * (s[1] + 256 * FromLe(s[2..]));
    } else if |s| == 8 {
      TwoBytes(s[6..]);
      assert s[1..][1..] == s[2..] && s[2..][1..] == s[3..] && s[3..][1..] == s[4..];
      assert s[4..][1..] == s[5..] && s[5..][1..] == s[6..];
      assert FromLe(s[4..]) == s[4] + 256 * (s[5] + 256 * FromLe(s[6..]));
      assert FromLe(s[2..]) == s[2] + 256 * (s[3] + 256 * FromLe(s[4..]));
      assert FromLe(s) == s[0] + 256 * (s[1] + 256 * FromLe(s[2..]));
    }
  }

  lemma TwoBytes(s: seq<byte>)
    requires |s| == 2
    ensures FromLe(s) == (s[0] as int) + 256 * (s[1] as int)
  {
    assert s[1..][1..] == [];
    assert FromLe(s[1..]) == s[1];
  }

  /** Decoding and encoding again gives the bytes back. */
  lemma {:induction false} LeRoundTripBack(s: seq<byte>)
    ensures LeBytes(FromLe(s), |s|) == s
    decreases |s|
  {
    if s != [] {
      LeRoundTripBack(s[1..]);
      LastDigit(s[0], FromLe(s[1..]));
      assert s == [s[0]] + s[1..];
    }
  }

  lemma LastDigit(b: nat, y: nat)
    requires b < 256
    ensures (b + 256 * y) % 256 == b && (b + 256 * y) / 256 == y
  {
  }

  /** Bit 1 and bit 2 of a number, as quotient and as remainder. */
  lemma SecondBit(x: nat)
    ensures x / 2 % 2 == 1 <==> x % 4 >= 2
  {
    var q, r := x / 4, x % 4;
    assert x == 4 * q + r;
    assert x / 2 == 2 * q + (if r >= 2 then 1 else 0);
  }

  lemma ThirdBit(x: nat)
    ensures x / 4 % 2 == 1 <==> x % 8 >= 4
  {
    var q, r := x / 8, x % 8;
    assert x == 8 * q + r;
    assert x / 4 == 2 * q + (if r >= 4 then 1 else 0);
  }
}
