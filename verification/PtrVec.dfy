/**
 `parse_user_ptrvec` and `read_user_cstring` of src/process.rs, and the round trip with the exec stack builder:
 which argument and environment vectors the kernel reads back from a stack it wrote.
 */
module PtrVec {
  import opened Basics
  import opened Paging
  import opened UserMemory
  import opened AddressSpace
  import opened ElfLoader
  import opened ExecStack

  /** The kernel halts on a read that the access check admits but that hits no mapping, and, in a build with checks, on
      an address sum that overflows and on a word read from an address that is not a multiple of 8. */
  datatype Parsed<+T> = Ok(value: T) | Errno(code: u64) | Halt

  /** What the parser reads through: the page table, physical memory and the access-check bounds. */
  datatype Sight = Sight(pt: map<nat, Pte>, ram: map<nat, byte>, bounds: Bounds)

  // ----- UTF-8 well-formedness, as String::from_utf8 demands -----

  predicate Cont(s: Bytes, i: nat, lo: nat, hi: nat) {
    i < |s| && lo <= s[i] <= hi
  }

  /** Length of the well-formed sequence at the front of s, or 0. */
  function FirstScalar(s: Bytes): (n: nat)
    requires s != []
    ensures n <= 4 && n <= |s|
  {
    var b := s[0];
    if b < 0x80 then 1
    else if 0xC2 <= b <= 0xDF then (if Cont(s, 1, 0x80, 0xBF) then 2 else 0)
    else if 0xE0 <= b <= 0xEF then
      var lo := if b == 0xE0 then 0xA0 else 0x80;
      var hi := if b == 0xED then 0x9F else 0xBF;
      if Cont(s, 1, lo, hi) && Cont(s, 2, 0x80, 0xBF) then 3 else 0
    else if 0xF0 <= b <= 0xF4 then
      var lo := if b == 0xF0 then 0x90 else 0x80;
      var hi := if b == 0xF4 then 0x8F else 0xBF;
      if Cont(s, 1, lo, hi) && Cont(s, 2, 0x80, 0xBF) && Cont(s, 3, 0x80, 0xBF) then 4 else 0
    else 0
  }

  predicate IsUtf8(s: Bytes) {
    s != [] ==> FirstScalar(s) > 0 && IsUtf8(s[FirstScalar(s)..])
  }

  // ----- the parser -----

  function ReadBytes(g: Sight, p: nat, n: nat): Option<Bytes>
    decreases n
  {
    if n == 0 then Some([])
    else
      match (ReadVirt(g.pt, g.ram, p), ReadBytes(g, p + 1, n - 1))
      case (Some(b), Some(rest)) => Some([b] + rest)
      case _ => None
  }

  function ReadWord(g: Sight, p: nat): Option<nat> {
    match ReadBytes(g, p, 8)
    case Some(s) => Some(FromLe(s))
    case None => None
  }

  /** The byte loop of `read_user_cstring` from the state in which `v` has been read. */
  function ScanString(g: Sight, ptr: nat, cap: nat, v: Bytes): Parsed<Bytes>
    requires |v| <= cap
    decreases cap - |v|
  {
    if |v| == cap then Ok(v)
    else if ptr + |v| >= TWO64 then Halt
    else if !ReadableRange(g.bounds, ptr + |v|, 1) then Errno(EFAULT)
    else
      match ReadVirt(g.pt, g.ram, ptr + |v|)
      case None => Halt
      case Some(c) => if c == 0 then Ok(v) else ScanString(g, ptr, cap, v + [c])
  }

  function CString(g: Sight, ptr: nat, cap: nat): Parsed<Bytes> {
    match ScanString(g, ptr, cap, [])
    case Ok(v) => if IsUtf8(v) then Ok(v) else Errno(EINVAL)
    case e => e
  }

  /** The pointer loop of `parse_user_ptrvec` from index i, with `out` collected so far. */
  function ScanPointers(g: Sight, base: nat, maxPtrs: nat, maxStr: nat, i: nat, out: seq<Bytes>): Parsed<seq<Bytes>>
    requires i <= maxPtrs
    decreases maxPtrs - i
  {
    if i == maxPtrs then Ok(out)
    else if base + 8 * i >= TWO64 then Halt
    else if !ReadableRange(g.bounds, base + 8 * i, 8) then Errno(EFAULT)
    else if (base + 8 * i) % 8 != 0 then Halt
    else
      match ReadWord(g, base + 8 * i)
      case None => Halt
      case Some(ptr) =>
        if ptr == 0 then Ok(out)
        else
          match CString(g, ptr, maxStr)
          case Ok(s) => ScanPointers(g, base, maxPtrs, maxStr, i + 1, out + [s])
          case Errno(e) => Errno(e)
          case Halt => Halt
  }

  function PtrVector(g: Sight, base: nat, maxPtrs: nat, maxStr: nat): Parsed<seq<Bytes>> {
    if base == 0 then Ok([]) else ScanPointers(g, base, maxPtrs, maxStr, 0, [])
  }

  method ReadUserCString(g: Sight, ptr: nat, cap: nat) returns (r: Parsed<Bytes>)
    ensures r == CString(g, ptr, cap)
  {
    var v: Bytes := [];
    for i := 0 to cap
      invariant |v| == i && ScanString(g, ptr, cap, []) == ScanString(g, ptr, cap, v)
    {
      if ptr + |v| >= TWO64 {
        return Halt;
      }
      if !ReadableRange(g.bounds, ptr + |v|, 1) {
        return Errno(EFAULT);
      }
      var c := ReadVirt(g.pt, g.ram, ptr + |v|);
      if c == None {
        return Halt;
      }
      if c.value == 0 {
        break;
      }
      v := v + [c.value];
    }
    r := if IsUtf8(v) then Ok(v) else Errno(EINVAL);
  }

  method ParseUserPtrvec(g: Sight, base: nat, maxPtrs: nat, maxStr: nat) returns (r: Parsed<seq<Bytes>>)
    ensures r == PtrVector(g, base, maxPtrs, maxStr)
  {
    if base == 0 {
      return Ok([]);
    }
    var out: seq<Bytes> := [];
    for i := 0 to maxPtrs
      invariant PtrVector(g, base, maxPtrs, maxStr) == ScanPointers(g, base, maxPtrs, maxStr, i, out)
    {
      if base + 8 * i >= TWO64 {
        return Halt;
      }
      if !ReadableRange(g.bounds, base + 8 * i, 8) {
        return Errno(EFAULT);
      }
      if (base + 8 * i) % 8 != 0 {
        return Halt;
      }
      var ptr := ReadWord(g, base + 8 * i);
      if ptr == None {
        return Halt;
      }
      if ptr.value == 0 {
        return Ok(out);
      }
      var s := ReadUserCString(g, ptr.value, maxStr);
      if !s.Ok? {
        return if s.Errno? then Errno(s.code) else Halt;
      }
      out := out + [s.value];
    }
    r := Ok(out);
  }

  // ----- reading back what the builder wrote -----

  /** What survives of a string: up to the first NUL, at most `cap` bytes. */
  function Truncated(s: Bytes, cap: nat): (t: Bytes)
    ensures |t| <= |s| && t == s[..|t|] && |t| <= cap && 0 !in t
    ensures |t| < |s| && |t| < cap ==> s[|t|] == 0
    decreases cap
  {
    if s == [] || cap == 0 || s[0] == 0 then [] else [s[0]] + Truncated(s[1..], cap - 1)
  }

  lemma InStackReadable(b: Bounds, addr: nat, len: nat)
    requires InStack(addr, addr + len)
    ensures ReadableRange(b, addr, len) && addr + len < TWO64
  {
  }

  lemma {:induction false} ScanBuilt(g: Sight, v: Bytes, o: nat, s: Bytes, cap: nat, n: nat)
    requires StackBytes(g.pt, g.ram, v) && StringAt(v, o, s)
    requires n <= |Truncated(s, cap)|
    ensures ScanString(g, STACK_LO + o, cap, s[..n]) == Ok(Truncated(s, cap))
    decreases cap - n
  {
    hide ReadVirt, ReadableRange, Truncated;
    var t := Truncated(s, cap);
    if n < cap {
      var a := STACK_LO + o + n;
      InStackReadable(g.bounds, a, 1);
      ByteOfString(v, o, s, n);
      assert ReadVirt(g.pt, g.ram, a) == Some(v[o + n]);
      if n < |t| {
        assert s[n] == t[n] && t[n] in t;
        assert s[..n + 1] == s[..n] + [s[n]];
        ScanBuilt(g, v, o, s, cap, n + 1);
      } else {
        assert v[o + n] == 0;
      }
    }
  }

  lemma ByteOfString(v: Bytes, o: nat, s: Bytes, n: nat)
    requires StringAt(v, o, s) && n <= |s|
    ensures o + n < |v| && v[o + n] == if n < |s| then s[n] else 0
  {
    assert n < |s| ==> v[o + n] == v[o..o + |s|][n];
  }

  lemma {:induction false} BytesBuilt(g: Sight, v: Bytes, o: nat, n: nat)
    requires StackBytes(g.pt, g.ram, v) && o + n <= |v|
    ensures ReadBytes(g, STACK_LO + o, n) == Some(v[o..o + n])
    decreases n
  {
    if n > 0 {
      BytesBuilt(g, v, o + 1, n - 1);
      assert v[o..o + n] == [v[o]] + v[o + 1..o + n];
    } else {
      assert v[o..o + n] == [];
    }
  }

  lemma WordBuilt(g: Sight, v: Bytes, tab: nat, words: seq<nat>, i: nat)
    requires StackBytes(g.pt, g.ram, v) && TableAt(v, tab, words) && i < |words|
    ensures ReadWord(g, STACK_LO + tab + 8 * i) == Some(words[i])
    ensures InStack(STACK_LO + tab + 8 * i, STACK_LO + tab + 8 * i + 8)
  {
    assert TableWord(v, tab, i) == words[i];
    BytesBuilt(g, v, tab + 8 * i, 8);
  }

  /** What the parser makes of a table of strings, in terms of the strings alone. */
  function Collected(strs: seq<Bytes>, maxPtrs: nat, maxStr: nat, i: nat, out: seq<Bytes>): Parsed<seq<Bytes>>
    requires i <= |strs|
    decreases |strs| - i
  {
    if i == |strs| || i >= maxPtrs then Ok(out)
    else if !IsUtf8(Truncated(strs[i], maxStr)) then Errno(EINVAL)
    else Collected(strs, maxPtrs, maxStr, i + 1, out + [Truncated(strs[i], maxStr)])
  }

  /** A pointer table with its NULL, and the strings it points at, as they lie in the built vector. */
  ghost predicate VectorAt(v: Bytes, tab: nat, base: nat, strs: seq<Bytes>, from: nat, part: seq<Bytes>) {
    && tab % 8 == 0 && from + |part| <= |strs| && part == strs[from..from + |part|]
    && TableAt(v, tab, Pointers(base, strs, from, |part|) + [0])
    && StringsAt(v, base, strs, |strs|)
  }

  lemma {:induction false} ParseBuilt(g: Sight, v: Bytes, tab: nat, base: nat, strs: seq<Bytes>, from: nat,
                                      part: seq<Bytes>, maxPtrs: nat, maxStr: nat, i: nat, out: seq<Bytes>)
    requires StackBytes(g.pt, g.ram, v) && VectorAt(v, tab, base, strs, from, part) && i <= |part| && i <= maxPtrs
    ensures ScanPointers(g, STACK_LO + tab, maxPtrs, maxStr, i, out) == Collected(part, maxPtrs, maxStr, i, out)
    decreases maxPtrs - i
  {
    hide StackBytes, TableAt, ReadWord, ReadableRange, StringOff, StringAt, Truncated, ScanString, InStack;
    if i < maxPtrs {
      var words := Pointers(base, strs, from, |part|) + [0];
      WordBuilt(g, v, tab, words, i);
      InStackReadable(g.bounds, STACK_LO + tab + 8 * i, 8);
      assert (STACK_LO + tab + 8 * i) % 8 == 0;
      if i < |part| {
        var o := StringOff(base, strs, from + i);
        assert words[i] == STACK_LO + o;
        assert strs[from + i] == part[i];
        ScanBuilt(g, v, o, part[i], maxStr, 0);
        assert part[i][..0] == [];
        if IsUtf8(Truncated(part[i], maxStr)) {
          ParseBuilt(g, v, tab, base, strs, from, part, maxPtrs, maxStr, i + 1, out + [Truncated(part[i], maxStr)]);
        }
      }
    }
  }

  /** A vector survives the trip exactly when it is short enough and every string is NUL-free and short enough. */
  predicate Survives(part: seq<Bytes>, maxPtrs: nat, maxStr: nat) {
    |part| <= maxPtrs && forall s | s in part :: |s| <= maxStr && 0 !in s
  }

  lemma {:induction false} TruncatedId(s: Bytes, cap: nat)
    ensures Truncated(s, cap) == s <==> |s| <= cap && 0 !in s
  {
    var t := Truncated(s, cap);
    assert |t| < |s| ==> s[|t|] in s;
  }

  lemma {:induction false} CollectedAll(strs: seq<Bytes>, maxPtrs: nat, maxStr: nat, i: nat, out: seq<Bytes>)
    requires i <= |strs| && i <= maxPtrs && (forall s | s in strs :: IsUtf8(s))
    requires Survives(strs, maxPtrs, maxStr)
    ensures Collected(strs, maxPtrs, maxStr, i, out) == Ok(out + strs[i..])
    decreases |strs| - i
  {
    hide Truncated, IsUtf8;
    if i < |strs| {
      assert strs[i] in strs;
      TruncatedId(strs[i], maxStr);
      CollectedAll(strs, maxPtrs, maxStr, i + 1, out + [strs[i]]);
      assert out + [strs[i]] + strs[i + 1..] == out + strs[i..];
    } else {
      assert out + strs[i..] == out;
    }
  }

  /** Whatever is collected is an extension by truncated strings, at most maxPtrs of them in all. */
  lemma {:induction false} CollectedShape(strs: seq<Bytes>, maxPtrs: nat, maxStr: nat, i: nat, out: seq<Bytes>)
    requires i <= |strs| && i <= maxPtrs && |out| == i && Collected(strs, maxPtrs, maxStr, i, out).Ok?
    ensures var r := Collected(strs, maxPtrs, maxStr, i, out).value;
            && |r| == Min(|strs|, maxPtrs) && out <= r
            && forall k | i <= k < |r| :: r[k] == Truncated(strs[k], maxStr)
    decreases |strs| - i
  {
    hide Truncated, IsUtf8;
    if i < |strs| && i < maxPtrs {
      CollectedShape(strs, maxPtrs, maxStr, i + 1, out + [Truncated(strs[i], maxStr)]);
    }
  }

  lemma CollectedExactly(strs: seq<Bytes>, maxPtrs: nat, maxStr: nat)
    requires forall s | s in strs :: IsUtf8(s)
    ensures Collected(strs, maxPtrs, maxStr, 0, []) == Ok(strs) <==> Survives(strs, maxPtrs, maxStr)
  {
    hide Truncated, IsUtf8;
    if Survives(strs, maxPtrs, maxStr) {
      CollectedAll(strs, maxPtrs, maxStr, 0, []);
      assert [] + strs[0..] == strs;
    } else if Collected(strs, maxPtrs, maxStr, 0, []) == Ok(strs) {
      CollectedShape(strs, maxPtrs, maxStr, 0, []);
      forall k | 0 <= k < |strs| ensures |strs[k]| <= maxStr && 0 !in strs[k] {
        TruncatedId(strs[k], maxStr);
      }
      assert false;
    }
  }

  /** The round trip: parsing the argv and envp tables of a freshly built stack returns argv and envp exactly when
      there are at most 32 arguments and 16 environment strings, each NUL-free and at most 256 bytes; for longer
      input the parser returns the truncation described by `Collected`. */
  lemma ExecStackRoundTrip(g: Sight, v: Bytes, meta: ElfLoadedMeta, argv: seq<Bytes>, envp: seq<Bytes>)
    requires InitialStack(v, meta, argv, envp) && StackBytes(g.pt, g.ram, v)
    requires (forall s | s in argv :: IsUtf8(s)) && (forall s | s in envp :: IsUtf8(s))
    ensures var args := PtrVector(g, STACK_LO + ARGV_TAB, 32, 256);
            var envs := PtrVector(g, STACK_LO + EnvTab(|argv|), 16, 256);
            && args == Collected(argv, 32, 256, 0, []) && (args == Ok(argv) <==> Survives(argv, 32, 256))
            && envs == Collected(envp, 16, 256, 0, []) && (envs == Ok(envp) <==> Survives(envp, 16, 256))
    ensures ReadWord(g, STACK_LO) == Some(|argv|)
  {
    hide InitialStack, VectorAt, StackBytes, TableAt, IsUtf8, PtrVector, Collected, Survives, ReadWord;
    var strs := envp + argv;
    var base := StringBase(|argv|, |envp|);
    BuiltVectors(v, meta, argv, envp);
    VectorRoundTrip(g, v, ARGV_TAB, base, strs, |envp|, argv, 32, 256);
    VectorRoundTrip(g, v, EnvTab(|argv|), base, strs, 0, envp, 16, 256);
    WordBuilt(g, v, 0, [|argv|], 0);
  }

  // ----- what exec passes on -----

  lemma {:induction false} ScannedClean(g: Sight, ptr: nat, cap: nat, v: Bytes)
    requires |v| <= cap && 0 !in v
    ensures var r := ScanString(g, ptr, cap, v); r.Ok? ==> |r.value| <= cap && 0 !in r.value
    decreases cap - |v|
  {
    hide ReadVirt, ReadableRange;
    if |v| < cap {
      var c := ReadVirt(g.pt, g.ram, ptr + |v|);
      if c.Some? && c.value != 0 {
        ScannedClean(g, ptr, cap, v + [c.value]);
      }
    }
  }

  lemma {:induction false} ScannedSurvive(g: Sight, base: nat, maxPtrs: nat, maxStr: nat, i: nat, out: seq<Bytes>)
    requires i <= maxPtrs && |out| == i && Survives(out, maxPtrs, maxStr) && forall s | s in out :: IsUtf8(s)
    ensures var r := ScanPointers(g, base, maxPtrs, maxStr, i, out);
            r.Ok? ==> Survives(r.value, maxPtrs, maxStr) && forall s | s in r.value :: IsUtf8(s)
    decreases maxPtrs - i
  {
    hide ReadWord, ReadableRange, IsUtf8, ScanString;
    if i < maxPtrs {
      var ptr := ReadWord(g, base + 8 * i);
      if ptr.Some? && ptr.value != 0 {
        ScannedClean(g, ptr.value, maxStr, []);
        var s := CString(g, ptr.value, maxStr);
        if s.Ok? {
          ScannedSurvive(g, base, maxPtrs, maxStr, i + 1, out + [s.value]);
        }
      }
    }
  }

  /** Whatever the parser accepts, from any memory, is within the limits of the round trip. */
  lemma ParsedSurvives(g: Sight, base: nat, maxPtrs: nat, maxStr: nat)
    ensures var r := PtrVector(g, base, maxPtrs, maxStr);
            r.Ok? ==> Survives(r.value, maxPtrs, maxStr) && forall s | s in r.value :: IsUtf8(s)
  {
    hide IsUtf8, ScanPointers;
    if base != 0 {
      ScannedSurvive(g, base, maxPtrs, maxStr, 0, []);
    }
  }

  /** Exec passes its arguments on unchanged: for every memory and every pair of pointers, parsing the vectors, building
      the stack from them and parsing the new stack returns what was parsed first. */
  lemma ExecPassesArguments(g: Sight, argvPtr: nat, envpPtr: nat, g': Sight, v: Bytes, meta: ElfLoadedMeta)
    requires PtrVector(g, argvPtr, 32, 256).Ok? && PtrVector(g, envpPtr, 16, 256).Ok? && StackBytes(g'.pt, g'.ram, v)
    requires InitialStack(v, meta, PtrVector(g, argvPtr, 32, 256).value, PtrVector(g, envpPtr, 16, 256).value)
    ensures var argv := PtrVector(g, argvPtr, 32, 256);
            && PtrVector(g', STACK_LO + ARGV_TAB, 32, 256) == argv
            && PtrVector(g', STACK_LO + EnvTab(|argv.value|), 16, 256) == PtrVector(g, envpPtr, 16, 256)
            && ReadWord(g', STACK_LO) == Some(|argv.value|)
  {
    hide InitialStack, StackBytes, IsUtf8, PtrVector, Survives, ReadWord, EnvTab;
    ParsedSurvives(g, argvPtr, 32, 256);
    ParsedSurvives(g, envpPtr, 16, 256);
    ExecStackRoundTrip(g', v, meta, PtrVector(g, argvPtr, 32, 256).value, PtrVector(g, envpPtr, 16, 256).value);
  }

  /** Build a stack in memory and parse it back: the builder's output meets every premise of the round trip. */
  method BuildAndReadBack(s: Space, meta: ElfLoadedMeta, argv: seq<Bytes>, envp: seq<Bytes>, bounds: Bounds)
      returns (built: bool, args: Parsed<seq<Bytes>>, envs: Parsed<seq<Bytes>>)
    requires s.Valid() && Owned(s.View()) && MetaFits(meta) && |argv| < Pow256(8)
    requires (forall a | a in argv :: IsUtf8(a)) && (forall a | a in envp :: IsUtf8(a))
    modifies s`ram
    ensures s.Valid()
    ensures built <==> StackSize(argv, envp) <= PAGE && PageOf(STACK_LO) in s.pt
    ensures built ==> (args == Ok(argv) <==> Survives(argv, 32, 256)) && (envs == Ok(envp) <==> Survives(envp, 16, 256))
  {
    hide Owned, InitialStack, IsUtf8, Survives, PtrVector, StackSize, StackBytes, ReadVirt, EnvTab;
    args, envs := Halt, Halt;
    var r, v := BuildExecStack(s, meta, argv, envp);
    built := r.Success?;
    assert r.Failure? ==> r.error == StackOverflow || r.error == NoMap;
    if built {
      var g := Sight(s.pt, s.ram, bounds);
      ExecStackRoundTrip(g, v, meta, argv, envp);
      args := ParseUserPtrvec(g, r.value + ARGV_TAB, 32, 256);
      envs := ParseUserPtrvec(g, r.value + EnvTab(|argv|), 16, 256);
    }
  }

  lemma VectorRoundTrip(g: Sight, v: Bytes, tab: nat, base: nat, strs: seq<Bytes>, from: nat, part: seq<Bytes>,
                        maxPtrs: nat, maxStr: nat)
    requires StackBytes(g.pt, g.ram, v) && VectorAt(v, tab, base, strs, from, part)
    requires forall s | s in part :: IsUtf8(s)
    ensures var r := PtrVector(g, STACK_LO + tab, maxPtrs, maxStr);
            r == Collected(part, maxPtrs, maxStr, 0, []) && (r == Ok(part) <==> Survives(part, maxPtrs, maxStr))
  {
    hide StackBytes, VectorAt, ScanPointers, Collected, Survives, IsUtf8;
    ParseBuilt(g, v, tab, base, strs, from, part, maxPtrs, maxStr, 0, []);
    CollectedExactly(part, maxPtrs, maxStr);
  }

  lemma BuiltVectors(v: Bytes, meta: ElfLoadedMeta, argv: seq<Bytes>, envp: seq<Bytes>)
    requires InitialStack(v, meta, argv, envp)
    ensures VectorAt(v, ARGV_TAB, StringBase(|argv|, |envp|), envp + argv, |envp|, argv)
    ensures VectorAt(v, EnvTab(|argv|), StringBase(|argv|, |envp|), envp + argv, 0, envp)
    ensures TableAt(v, 0, [|argv|])
  {
    hide TableAt, StringsAt, Pointers, StackSize, AuxWords, StringBase;
    assert (envp + argv)[|envp|..|envp| + |argv|] == argv;
    assert (envp + argv)[0..|envp|] == envp;
  }
}
