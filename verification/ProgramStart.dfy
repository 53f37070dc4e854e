/** What a program finds when it starts, read off memory the way section 3.4.1 of the AMD64 psABI tells it to, and what
    the kernel's own readers make of user memory. Addresses, tags and sizes are written out. */
module ProgramStart {
  import opened Basics
  import opened UserMemory
  import opened AddressSpace
  import opened ElfLoader
  import opened ExecStack
  import opened PtrVec

  // ----- words and bytes -----

  /** Reading n bytes gives s exactly when s has n bytes and each is mapped in its place. */
  lemma {:induction false} ReadBytesMean(g: Sight, p: nat, n: nat, s: Bytes)
    ensures ReadBytes(g, p, n) == Some(s) <==>
            |s| == n && forall a: nat | p <= a < p + n :: ReadVirt(g.pt, g.ram, a) == Some(s[a - p])
    decreases n
  {
    hide ReadVirt;
    if n > 0 && s != [] {
      ReadBytesMean(g, p + 1, n - 1, s[1..]);
      var rest := ReadBytes(g, p + 1, n - 1);
      assert s == [s[0]] + s[1..];
      if ReadBytes(g, p, n) == Some(s) {
        assert s[1..] == rest.value;
      }
    }
  }

  /** Eight bytes lie at p, and they spell x, the byte at p being the least significant. */
  ghost predicate WordAt(g: Sight, p: nat, x: nat) {
    exists b: Bytes ::
      && |b| == 8 && x == Value(b)
      && forall a: nat | p <= a < p + 8 :: ReadVirt(g.pt, g.ram, a) == Some(b[a - p])
  }

  /** The number that eight bytes spell. */
  function Value(b: Bytes): nat
    requires |b| == 8
  {
    (b[0] as int) + 0x100 * (b[1] as int) + 0x1_0000 * (b[2] as int) + 0x100_0000 * (b[3] as int)
    + 0x1_0000_0000 * (b[4] as int) + 0x100_0000_0000 * (b[5] as int) + 0x1_0000_0000_0000 * (b[6] as int)
    + 0x100_0000_0000_0000 * (b[7] as int)
  }

  /** Reading a word gives what its eight bytes spell, wherever they lie, and nothing exactly when one of them is not
      mapped. */
  lemma ReadWordMeans(g: Sight, p: nat, x: nat)
    ensures ReadWord(g, p) == Some(x) <==> WordAt(g, p, x)
    ensures ReadWord(g, p) == None <==> exists a: nat :: p <= a < p + 8 && ReadVirt(g.pt, g.ram, a) == None
  {
    hide ReadBytes, ReadVirt, FromLe;
    forall s: Bytes | |s| == 8 ensures FromLe(s) == Value(s) {
      WordsAre(s);
    }
    forall s: Bytes
      ensures ReadBytes(g, p, 8) == Some(s) <==>
              |s| == 8 && forall a: nat | p <= a < p + 8 :: ReadVirt(g.pt, g.ram, a) == Some(s[a - p])
    {
      ReadBytesMean(g, p, 8, s);
    }
    if forall a: nat | p <= a < p + 8 :: ReadVirt(g.pt, g.ram, a).Some? {
      var s := seq(8, i requires 0 <= i < 8 => ReadVirt(g.pt, g.ram, p + i).value);
      assert ReadBytes(g, p, 8) == Some(s);
    }
  }

  // ----- the auxiliary vector -----

  /** The tag and value pairs from p up to the pair with tag 0, which is not part of the result. */
  function AuxVector(g: Sight, p: nat): Option<seq<(nat, nat)>>
    decreases 0x402000 - p
  {
    if p + 16 > 0x402000 then None
    else
      match (ReadWord(g, p), ReadWord(g, p + 8))
      case (Some(tag), Some(value)) =>
        if tag == 0 then Some([])
        else
          (match AuxVector(g, p + 16)
           case Some(rest) => Some([(tag, value)] + rest)
           case None => None)
      case _ => None
  }

  lemma AuxStep(g: Sight, p: nat, pairs: seq<(nat, nat)>)
    requires p + 16 <= 0x402000 && pairs != [] && pairs[0].0 != 0
    requires ReadWord(g, p) == Some(pairs[0].0) && ReadWord(g, p + 8) == Some(pairs[0].1)
    requires AuxVector(g, p + 16) == Some(pairs[1..])
    ensures AuxVector(g, p) == Some(pairs)
  {
    hide ReadWord;
    assert pairs == [pairs[0]] + pairs[1..];
  }

  lemma FivePairs(g: Sight, p: nat, a: nat, b: nat, c: nat, d: nat, e: nat)
    requires p + 96 <= 0x402000
    requires ReadWord(g, p) == Some(3) && ReadWord(g, p + 8) == Some(a)
    requires ReadWord(g, p + 16) == Some(4) && ReadWord(g, p + 24) == Some(b)
    requires ReadWord(g, p + 32) == Some(5) && ReadWord(g, p + 40) == Some(c)
    requires ReadWord(g, p + 48) == Some(6) && ReadWord(g, p + 56) == Some(d)
    requires ReadWord(g, p + 64) == Some(9) && ReadWord(g, p + 72) == Some(e)
    requires ReadWord(g, p + 80) == Some(0) && ReadWord(g, p + 88) == Some(0)
    ensures AuxVector(g, p) == Some([(3, a), (4, b), (5, c), (6, d), (9, e)])
  {
    hide ReadWord, AuxVector;
    var pairs: seq<(nat, nat)> := [(3, a), (4, b), (5, c), (6, d), (9, e)];
    AuxEnd(g, p + 80);
    assert pairs[4..][1..] == [] && pairs[3..][1..] == pairs[4..] && pairs[2..][1..] == pairs[3..];
    assert pairs[1..][1..] == pairs[2..];
    AuxStep(g, p + 64, pairs[4..]);
    AuxStep(g, p + 48, pairs[3..]);
    AuxStep(g, p + 32, pairs[2..]);
    AuxStep(g, p + 16, pairs[1..]);
    AuxStep(g, p, pairs);
  }

  lemma AuxWordAt(g: Sight, v: Bytes, meta: ElfLoadedMeta, argv: seq<Bytes>, envp: seq<Bytes>, i: nat)
    requires InitialStack(v, meta, argv, envp) && StackBytes(g.pt, g.ram, v) && i < 12
    ensures var p := 0x401000 + 8 * (|argv| + |envp| + 3);
            ReadWord(g, p + 8 * i) == Some(AuxWords(meta)[i]) && p + 8 * i + 8 <= 0x402000
  {
    hide ReadWord, TableAt, StringsAt, Pointers, StackSize, StackBytes;
    WordBuilt(g, v, AuxTab(|argv|, |envp|), AuxWords(meta), i);
  }

  /** On a freshly built stack, above argc, the argument pointers, the environment pointers and their two NULLs, the
      auxiliary vector names the program headers, their size and number, the page size and the entry point, and then
      ends. */
  lemma AuxBuilt(g: Sight, v: Bytes, meta: ElfLoadedMeta, argv: seq<Bytes>, envp: seq<Bytes>)
    requires InitialStack(v, meta, argv, envp) && StackBytes(g.pt, g.ram, v)
    ensures AuxVector(g, 0x401000 + 8 * (|argv| + |envp| + 3)) ==
            Some([(3, meta.phdr), (4, meta.phent), (5, meta.phnum), (6, 4096), (9, meta.entry)])
  {
    hide ReadWord, InitialStack, StackBytes, AuxVector;
    AuxWordAt(g, v, meta, argv, envp, 0);
    AuxWordAt(g, v, meta, argv, envp, 1);
    AuxWordAt(g, v, meta, argv, envp, 2);
    AuxWordAt(g, v, meta, argv, envp, 3);
    AuxWordAt(g, v, meta, argv, envp, 4);
    AuxWordAt(g, v, meta, argv, envp, 5);
    AuxWordAt(g, v, meta, argv, envp, 6);
    AuxWordAt(g, v, meta, argv, envp, 7);
    AuxWordAt(g, v, meta, argv, envp, 8);
    AuxWordAt(g, v, meta, argv, envp, 9);
    AuxWordAt(g, v, meta, argv, envp, 10);
    AuxWordAt(g, v, meta, argv, envp, 11);
    FivePairs(g, 0x401000 + 8 * (|argv| + |envp| + 3), meta.phdr, meta.phent, meta.phnum, 4096, meta.entry);
  }

  lemma AuxEnd(g: Sight, p: nat)
    requires p + 16 <= 0x402000 && ReadWord(g, p) == Some(0) && ReadWord(g, p + 8).Some?
    ensures AuxVector(g, p) == Some([])
  {
    hide ReadWord;
  }

  // ----- the size of the layout -----

  /** The strings with their NULs, each rounded up to 8 bytes. */
  function PaddedStrings(strs: seq<Bytes>): nat {
    if strs == [] then 0 else (|strs[0]| + 8) / 8 * 8 + PaddedStrings(strs[1..])
  }

  lemma {:induction false} PaddedSplit(a: seq<Bytes>, b: seq<Bytes>)
    ensures PaddedStrings(a + b) == PaddedStrings(a) + PaddedStrings(b)
    decreases |a|
  {
    if a == [] {
      assert a + b == b;
    } else {
      assert (a + b)[1..] == a[1..] + b;
      PaddedSplit(a[1..], b);
    }
  }

  lemma PaddedTo(x: nat, n: nat)
    requires x % 8 == 0
    ensures AlignUp(x + n + 1, 8) == x + (n + 8) / 8 * 8
  {
    var q := x / 8;
    assert x == 8 * q;
    assert (8 * q + n + 8) / 8 == q + (n + 8) / 8;
  }

  lemma {:induction false} StringOffIs(base: nat, strs: seq<Bytes>, k: nat)
    requires k <= |strs| && base % 8 == 0
    ensures StringOff(base, strs, k) == base + PaddedStrings(strs[..k]) && StringOff(base, strs, k) % 8 == 0
    decreases k
  {
    hide AlignUp;
    if k > 0 {
      StringOffIs(base, strs, k - 1);
      assert strs[..k] == strs[..k - 1] + [strs[k - 1]];
      PaddedSplit(strs[..k - 1], [strs[k - 1]]);
      PaddedOne(strs[k - 1]);
      PaddedTo(StringOff(base, strs, k - 1), |strs[k - 1]|);
    }
  }

  lemma PaddedOne(s: Bytes)
    ensures PaddedStrings([s]) == (|s| + 8) / 8 * 8 && PaddedStrings([s]) % 8 == 0
  {
  }

  /** A word for argc, one for each pointer and each NULL, twelve for the auxiliary vector, rounded up to 16 bytes. */
  function TableBytes(argc: nat, envc: nat): nat {
    (8 * (argc + envc + 3) + 96 + 15) / 16 * 16
  }

  /** A layout takes the tables and the padded strings. */
  lemma StackSizeIs(argv: seq<Bytes>, envp: seq<Bytes>)
    ensures StackSize(argv, envp) == TableBytes(|argv|, |envp|) + PaddedStrings(argv) + PaddedStrings(envp)
  {
    hide StringOff, PaddedStrings, StringBase, TableBytes;
    var strs := envp + argv;
    StringBaseIs(|argv|, |envp|);
    StringOffIs(StringBase(|argv|, |envp|), strs, |strs|);
    assert strs[..|strs|] == strs;
    PaddedSplit(envp, argv);
  }

  lemma StringBaseIs(n: nat, m: nat)
    ensures StringBase(n, m) == TableBytes(n, m) && StringBase(n, m) % 8 == 0
  {
    assert AuxTab(n, m) == 8 * (n + m + 3);
    var q := (AuxTab(n, m) + 96 + 15) / 16;
    assert StringBase(n, m) == q * 16 == 8 * (2 * q);
  }

  // ----- what the kernel's readers accept -----

  /** The byte at a is one the caller may read, and it is b. */
  predicate ByteAt(g: Sight, a: nat, b: byte) {
    a < 0x1_0000_0000_0000_0000 && ReadableRange(g.bounds, a, 1) && ReadVirt(g.pt, g.ram, a) == Some(b)
  }

  /** From byte n on, s lies at ptr: no NUL inside, a NUL behind it unless it takes all `cap` bytes. */
  ghost predicate TextFrom(g: Sight, ptr: nat, cap: nat, s: Bytes, n: nat) {
    && n <= |s| <= cap
    && (forall i | n <= i < |s| :: s[i] != 0 && ByteAt(g, ptr + i, s[i]))
    && (|s| < cap ==> ByteAt(g, ptr + |s|, 0))
  }

  lemma {:induction false} ScanMeans(g: Sight, ptr: nat, cap: nat, v: Bytes, s: Bytes)
    requires |v| <= cap
    ensures ScanString(g, ptr, cap, v) == Ok(s) <==> v <= s && TextFrom(g, ptr, cap, s, |v|)
    decreases cap - |v|
  {
    hide ReadVirt, ReadableRange;
    if |v| < cap {
      var a := ptr + |v|;
      var c := ReadVirt(g.pt, g.ram, a);
      if a < TWO64 && ReadableRange(g.bounds, a, 1) && c.Some? && c.value != 0 {
        var w := v + [c.value];
        ScanMeans(g, ptr, cap, w, s);
        if w <= s && TextFrom(g, ptr, cap, s, |w|) {
          assert s[|v|] == w[|v|];
          assert v <= s;
        }
        if v <= s && TextFrom(g, ptr, cap, s, |v|) {
          assert |v| < |s| && ByteAt(g, a, s[|v|]);
          assert s[..|w|] == w;
        }
      } else if v <= s && TextFrom(g, ptr, cap, s, |v|) {
        assert |v| < |s| ==> ByteAt(g, a, s[|v|]);
        assert s == v;
      }
    } else if v <= s && |s| <= cap {
      assert s == v;
    }
  }

  /** A string is read exactly when it lies there, at most `cap` bytes of well-formed UTF-8. */
  lemma CStringMeans(g: Sight, ptr: nat, cap: nat, s: Bytes)
    ensures CString(g, ptr, cap) == Ok(s) <==> TextFrom(g, ptr, cap, s, 0) && IsUtf8(s)
    ensures CString(g, ptr, cap) == Errno(0x1_0000_0000_0000_0000 - 22) <==>
            exists t :: TextFrom(g, ptr, cap, t, 0) && !IsUtf8(t)
  {
    hide ScanString, IsUtf8, TextFrom;
    ScanMeans(g, ptr, cap, [], s);
    forall t ensures ScanString(g, ptr, cap, []) == Ok(t) <==> TextFrom(g, ptr, cap, t, 0) {
      ScanMeans(g, ptr, cap, [], t);
    }
    ScanErrors(g, ptr, cap, []);
  }

  lemma {:induction false} ScanErrors(g: Sight, ptr: nat, cap: nat, v: Bytes)
    requires |v| <= cap
    ensures ScanString(g, ptr, cap, v).Errno? ==> ScanString(g, ptr, cap, v).code == 0x1_0000_0000_0000_0000 - 14
    decreases cap - |v|
  {
    hide ReadVirt, ReadableRange;
    if |v| < cap {
      var c := ReadVirt(g.pt, g.ram, ptr + |v|);
      if c.Some? && c.value != 0 {
        ScanErrors(g, ptr, cap, v + [c.value]);
      }
    }
  }

  /** The word at a is one the caller may read, and it is x. */
  ghost predicate PointerAt(g: Sight, a: nat, x: nat) {
    && a < 0x1_0000_0000_0000_0000 && a % 8 == 0 && ReadableRange(g.bounds, a, 8) && WordAt(g, a, x)
  }

  lemma WordIs(g: Sight, a: nat)
    ensures forall x: nat :: WordAt(g, a, x) <==> ReadWord(g, a) == Some(x)
  {
    forall x: nat ensures WordAt(g, a, x) <==> ReadWord(g, a) == Some(x) {
      ReadWordMeans(g, a, x);
    }
  }

  /** A pointer to the string s lies at a. */
  ghost predicate ArgumentAt(g: Sight, a: nat, maxStr: nat, s: Bytes) {
    IsUtf8(s) && exists ptr: nat :: ptr != 0 && PointerAt(g, a, ptr) && TextFrom(g, ptr, maxStr, s, 0)
  }

  /** From entry n on, the vector lies at base: pointers to its strings, and a NULL behind them unless there are
      `maxPtrs` of them. */
  ghost predicate ArgumentsFrom(g: Sight, base: nat, maxPtrs: nat, maxStr: nat, strs: seq<Bytes>, n: nat) {
    && n <= |strs| <= maxPtrs
    && (forall i | n <= i < |strs| :: ArgumentAt(g, base + 8 * i, maxStr, strs[i]))
    && (|strs| < maxPtrs ==> PointerAt(g, base + 8 * |strs|, 0))
  }

  lemma {:induction false} ScanPointersMeans(g: Sight, base: nat, maxPtrs: nat, maxStr: nat, out: seq<Bytes>,
                                             strs: seq<Bytes>)
    requires |out| <= maxPtrs
    ensures ScanPointers(g, base, maxPtrs, maxStr, |out|, out) == Ok(strs) <==>
            out <= strs && ArgumentsFrom(g, base, maxPtrs, maxStr, strs, |out|)
    decreases maxPtrs - |out|
  {
    hide ReadWord, WordAt, ReadableRange, CString, TextFrom, IsUtf8;
    var n := |out|;
    if n < maxPtrs {
      var a := base + 8 * n;
      WordIs(g, a);
      var x := ReadWord(g, a);
      if x.Some? && PointerAt(g, a, x.value) && x.value != 0 {
        var ptr := x.value;
        if n < |strs| {
          ReadsArgument(g, a, ptr, maxStr, strs[n]);
        }
        var c := CString(g, ptr, maxStr);
        if c.Ok? {
          var next := out + [c.value];
          ReadsArgument(g, a, ptr, maxStr, c.value);
          ScanPointersMeans(g, base, maxPtrs, maxStr, next, strs);
          if next <= strs {
            assert strs[n] == next[n];
          }
          if out <= strs && n < |strs| && strs[n] == c.value {
            assert strs[..n + 1] == next;
          }
        }
      } else if out <= strs && n < |strs| && ArgumentAt(g, a, maxStr, strs[n]) {
        assert false;
      } else if out <= strs && |strs| == n {
        assert strs == out;
      }
    } else if out <= strs && |strs| <= maxPtrs {
      assert strs == out;
    }
  }

  lemma ReadsArgument(g: Sight, a: nat, ptr: nat, maxStr: nat, s: Bytes)
    requires ptr != 0 && PointerAt(g, a, ptr)
    ensures ArgumentAt(g, a, maxStr, s) <==> CString(g, ptr, maxStr) == Ok(s)
  {
    hide ReadWord, WordAt, ReadableRange, CString, TextFrom, IsUtf8;
    WordIs(g, a);
    CStringMeans(g, ptr, maxStr, s);
  }

  /** A null vector is empty; any other is read exactly when it lies there. */
  lemma PtrVectorMeans(g: Sight, base: nat, maxPtrs: nat, maxStr: nat, strs: seq<Bytes>)
    ensures PtrVector(g, 0, maxPtrs, maxStr) == Ok([])
    ensures base != 0 ==>
              (PtrVector(g, base, maxPtrs, maxStr) == Ok(strs) <==> ArgumentsFrom(g, base, maxPtrs, maxStr, strs, 0))
  {
    hide ScanPointers, ArgumentsFrom;
    ScanPointersMeans(g, base, maxPtrs, maxStr, [], strs);
  }

  // ----- and how they fail -----

  /** The byte at a is one the caller may read, and not NUL. */
  predicate Letter(g: Sight, a: nat) {
    && a < 0x1_0000_0000_0000_0000 && ReadableRange(g.bounds, a, 1)
    && ReadVirt(g.pt, g.ram, a).Some? && ReadVirt(g.pt, g.ram, a).value != 0
  }

  /** The first n bytes at ptr are letters, and the byte behind them may not be read. */
  ghost predicate FaultAfter(g: Sight, ptr: nat, n: nat) {
    && (forall a: nat | ptr <= a < ptr + n :: Letter(g, a))
    && ptr + n < 0x1_0000_0000_0000_0000 && !ReadableRange(g.bounds, ptr + n, 1)
  }

  lemma {:induction false} ScanFaults(g: Sight, ptr: nat, cap: nat, v: Bytes)
    requires |v| <= cap && forall a: nat | ptr <= a < ptr + |v| :: Letter(g, a)
    ensures ScanString(g, ptr, cap, v).Errno? <==> exists n: nat :: |v| <= n < cap && FaultAfter(g, ptr, n)
    decreases cap - |v|
  {
    hide ReadVirt, ReadableRange;
    if |v| < cap {
      var a := ptr + |v|;
      var c := ReadVirt(g.pt, g.ram, a);
      if a < TWO64 && !ReadableRange(g.bounds, a, 1) {
        assert FaultAfter(g, ptr, |v|);
      } else if Letter(g, a) {
        ScanFaults(g, ptr, cap, v + [c.value]);
        assert !FaultAfter(g, ptr, |v|);
      } else {
        forall n: nat | |v| <= n < cap ensures !FaultAfter(g, ptr, n) {
          assert n > |v| ==> ptr <= a < ptr + n;
        }
      }
    }
  }

  /** EFAULT exactly when the reader meets an unreadable byte before a NUL and before `cap` bytes; the only other error
      is EINVAL. */
  lemma CStringFaults(g: Sight, ptr: nat, cap: nat)
    ensures CString(g, ptr, cap) == Errno(0x1_0000_0000_0000_0000 - 14) <==>
            exists n: nat :: n < cap && FaultAfter(g, ptr, n)
    ensures CString(g, ptr, cap).Errno? ==>
              CString(g, ptr, cap).code in {0x1_0000_0000_0000_0000 - 14, 0x1_0000_0000_0000_0000 - 22}
  {
    hide ScanString, IsUtf8, FaultAfter;
    ScanFaults(g, ptr, cap, []);
    ScanErrors(g, ptr, cap, []);
  }

  /** Entry a of a vector is refused with code e: it may not be read, or it points to a string that is refused. */
  ghost predicate EntryFails(g: Sight, a: nat, maxStr: nat, e: u64) {
    || (a < 0x1_0000_0000_0000_0000 && !ReadableRange(g.bounds, a, 8) && e == 0x1_0000_0000_0000_0000 - 14)
    || exists ptr: nat :: ptr != 0 && PointerAt(g, a, ptr) && CString(g, ptr, maxStr) == Errno(e)
  }

  /** The strings of `strs` from entry n on lie at base, and the entry behind them is refused with code e. */
  ghost predicate VectorFails(g: Sight, base: nat, maxPtrs: nat, maxStr: nat, strs: seq<Bytes>, n: nat, e: u64) {
    && n <= |strs| < maxPtrs
    && (forall i | n <= i < |strs| :: ArgumentAt(g, base + 8 * i, maxStr, strs[i]))
    && EntryFails(g, base + 8 * |strs|, maxStr, e)
  }

  lemma OneMore(g: Sight, base: nat, maxPtrs: nat, maxStr: nat, out: seq<Bytes>, ptr: nat, strs: seq<Bytes>, e: u64)
    requires |out| < maxPtrs && ptr != 0 && PointerAt(g, base + 8 * |out|, ptr) && CString(g, ptr, maxStr).Ok?
    ensures out <= strs && VectorFails(g, base, maxPtrs, maxStr, strs, |out|, e) <==>
            out + [CString(g, ptr, maxStr).value] <= strs && VectorFails(g, base, maxPtrs, maxStr, strs, |out| + 1, e)
  {
    hide ReadWord, ReadableRange, CString, TextFrom, IsUtf8, EntryFails, PointerAt, ArgumentAt;
    var n, s := |out|, CString(g, ptr, maxStr).value;
    var a, next := base + 8 * n, out + [s];
    ReadsArgument(g, a, ptr, maxStr, s);
    if out <= strs && VectorFails(g, base, maxPtrs, maxStr, strs, n, e) {
      GoodEntry(g, a, ptr, maxStr, e);
      assert n < |strs| && ArgumentAt(g, a, maxStr, strs[n]);
      ReadsArgument(g, a, ptr, maxStr, strs[n]);
      assert strs[..n + 1] == next;
    }
    if next <= strs {
      assert strs[n] == next[n];
    }
  }

  lemma {:induction false} ScanPointersFail(g: Sight, base: nat, maxPtrs: nat, maxStr: nat, out: seq<Bytes>, e: u64)
    requires |out| <= maxPtrs
    ensures ScanPointers(g, base, maxPtrs, maxStr, |out|, out) == Errno(e) <==>
            exists strs :: out <= strs && VectorFails(g, base, maxPtrs, maxStr, strs, |out|, e)
    decreases maxPtrs - |out|
  {
    hide ReadWord, WordAt, ReadableRange, CString, TextFrom, IsUtf8, EntryFails;
    var n := |out|;
    var a := base + 8 * n;
    WordIs(g, a);
    if n == maxPtrs {
      return;
    }
    var x := ReadWord(g, a);
    if x.Some? && PointerAt(g, a, x.value) && x.value != 0 && CString(g, x.value, maxStr).Ok? {
      var next := out + [CString(g, x.value, maxStr).value];
      ScanPointersFail(g, base, maxPtrs, maxStr, next, e);
      assert ScanPointers(g, base, maxPtrs, maxStr, n, out) == ScanPointers(g, base, maxPtrs, maxStr, n + 1, next);
      hide VectorFails, ScanPointers, PointerAt;
      forall strs {
        OneMore(g, base, maxPtrs, maxStr, out, x.value, strs, e);
      }
      if strs :| next <= strs && VectorFails(g, base, maxPtrs, maxStr, strs, |next|, e) {
        assert out <= strs && VectorFails(g, base, maxPtrs, maxStr, strs, n, e);
      }
    } else {
      forall strs | out <= strs && VectorFails(g, base, maxPtrs, maxStr, strs, n, e) ensures strs == out {
        if n < |strs| {
          assert ArgumentAt(g, a, maxStr, strs[n]);
          NoArgument(g, a, maxStr, strs[n]);
        }
      }
      LastEntry(g, base, maxPtrs, maxStr, out, e);
      assert VectorFails(g, base, maxPtrs, maxStr, out, n, e) <==> EntryFails(g, a, maxStr, e);
    }
  }

  lemma GoodEntry(g: Sight, a: nat, ptr: nat, maxStr: nat, e: u64)
    requires ptr != 0 && PointerAt(g, a, ptr) && CString(g, ptr, maxStr).Ok?
    ensures !EntryFails(g, a, maxStr, e)
  {
    hide ReadWord, WordAt, ReadableRange, CString;
    WordIs(g, a);
  }

  lemma NoArgument(g: Sight, a: nat, maxStr: nat, s: Bytes)
    requires ArgumentAt(g, a, maxStr, s)
    ensures var x := ReadWord(g, a);
            x.Some? && PointerAt(g, a, x.value) && x.value != 0 && CString(g, x.value, maxStr).Ok?
  {
    hide ReadWord, WordAt, ReadableRange, CString, TextFrom, IsUtf8;
    WordIs(g, a);
    ReadsArgument(g, a, ReadWord(g, a).value, maxStr, s);
  }

  lemma LastEntry(g: Sight, base: nat, maxPtrs: nat, maxStr: nat, out: seq<Bytes>, e: u64)
    requires |out| < maxPtrs
    requires var x := ReadWord(g, base + 8 * |out|);
             !(x.Some? && PointerAt(g, base + 8 * |out|, x.value) && x.value != 0 && CString(g, x.value, maxStr).Ok?)
    ensures ScanPointers(g, base, maxPtrs, maxStr, |out|, out) == Errno(e) <==>
            EntryFails(g, base + 8 * |out|, maxStr, e)
  {
    hide ReadWord, WordAt, ReadableRange, CString;
    var a := base + 8 * |out|;
    WordIs(g, a);
    var x := ReadWord(g, a);
    if a >= TWO64 || !ReadableRange(g.bounds, a, 8) || a % 8 != 0 || x == None || x.value == 0 {
      assert forall ptr: nat | ptr != 0 :: !PointerAt(g, a, ptr);
    } else {
      assert PointerAt(g, a, x.value);
    }
  }

  /** A vector is refused exactly when, behind entries that can be read, one cannot; the code is that entry's. */
  lemma PtrVectorFails(g: Sight, base: nat, maxPtrs: nat, maxStr: nat, e: u64)
    requires base != 0
    ensures PtrVector(g, base, maxPtrs, maxStr) == Errno(e) <==>
            exists strs :: VectorFails(g, base, maxPtrs, maxStr, strs, 0, e)
  {
    hide ScanPointers, VectorFails;
    ScanPointersFail(g, base, maxPtrs, maxStr, [], e);
  }
}
