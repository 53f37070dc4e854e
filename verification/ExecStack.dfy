/**
 `build_exec_stack` of src/elf.rs: the initial process stack of the System V ABI AMD64 Processor Supplement,
 section 3.4.1 (argc, argv, NULL, envp, NULL, auxiliary vector, then the strings), built as one byte vector whose
 pointer tables are patched in a second pass, and written to the stack page.
 */
module ExecStack {
  import opened Basics
  import opened Paging
  import opened UserMemory
  import opened AddressSpace
  import opened ElfLoader

  const STACK_LO: nat := USER_STACK_TOP - PAGE
  const AUX_PAIRS: nat := 6

  const AT_NULL: nat := 0
  const AT_PHDR: nat := 3
  const AT_PHENT: nat := 4
  const AT_PHNUM: nat := 5
  const AT_PAGESZ: nat := 6
  const AT_ENTRY: nat := 9

  datatype ExecError = StackOverflow | NoMap

  // ----- layout -----

  const ARGV_TAB: nat := 8

  function EnvTab(argc: nat): nat {
    ARGV_TAB + 8 * (argc + 1)
  }

  function AuxTab(argc: nat, envc: nat): nat {
    EnvTab(argc) + 8 * (envc + 1)
  }

  /** Where the strings start: the tables rounded up to 16. */
  function StringBase(argc: nat, envc: nat): nat {
    AlignUp(AuxTab(argc, envc) + 16 * AUX_PAIRS, 16)
  }

  /** Offset of the k-th string; each string is followed by a NUL and padded to 8 bytes. */
  function StringOff(base: nat, strs: seq<Bytes>, k: nat): (o: nat)
    requires k <= |strs|
    ensures base <= o
  {
    if k == 0 then base else AlignUp(StringOff(base, strs, k - 1) + |strs[k - 1]| + 1, 8)
  }

  function StackSize(argv: seq<Bytes>, envp: seq<Bytes>): nat {
    StringOff(StringBase(|argv|, |envp|), envp + argv, |envp + argv|)
  }

  /** The six auxiliary vector entries, tag and value in turn. */
  function AuxWords(meta: ElfLoadedMeta): seq<nat> {
    [AT_PHDR, meta.phdr, AT_PHENT, meta.phent, AT_PHNUM, meta.phnum, AT_PAGESZ, PAGE, AT_ENTRY, meta.entry, AT_NULL, 0]
  }

  /** The i-th 8-byte word of the table at offset `tab`. */
  function TableWord(v: Bytes, tab: nat, i: nat): nat
    requires tab + 8 * i + 8 <= |v|
  {
    FromLe(v[tab + 8 * i..tab + 8 * i + 8])
  }

  // ----- what the finished vector holds -----

  ghost predicate ZeroIn(v: Bytes, lo: nat, hi: nat) {
    hi <= |v| && forall j | lo <= j < hi :: v[j] == 0
  }

  /** The string with its NUL, and zeros up to the next multiple of 8. */
  ghost predicate StringAt(v: Bytes, o: nat, s: Bytes) {
    o + |s| + 1 <= |v| && v[o..o + |s|] == s && v[o + |s|] == 0 && ZeroIn(v, o + |s|, AlignUp(o + |s| + 1, 8))
  }

  /** The first k strings are in place. */
  ghost predicate StringsAt(v: Bytes, base: nat, strs: seq<Bytes>, k: nat)
    requires k <= |strs|
  {
    forall i: nat | i < k :: StringAt(v, StringOff(base, strs, i), strs[i])
  }

  /** The words of the table at `tab` are `words`. */
  ghost predicate TableAt(v: Bytes, tab: nat, words: seq<nat>) {
    tab + 8 * |words| <= |v| && forall i: nat | i < |words| :: TableWord(v, tab, i) == words[i]
  }

  /** The addresses of the strings `from`, ..., `from + n - 1`. */
  ghost function Pointers(base: nat, strs: seq<Bytes>, from: nat, n: nat): (ps: seq<nat>)
    requires from + n <= |strs|
    ensures |ps| == n && forall i: nat | i < n :: ps[i] == STACK_LO + StringOff(base, strs, from + i)
  {
    if n == 0 then [] else Pointers(base, strs, from, n - 1) + [STACK_LO + StringOff(base, strs, from + n - 1)]
  }

  /** The initial stack of section 3.4.1 of the AMD64 psABI, from its lowest address up: argc, the argv pointers
      and NULL, the envp pointers and NULL, the auxiliary vector; then the strings, environment first. All padding is
      zero. */
  ghost predicate InitialStack(v: Bytes, meta: ElfLoadedMeta, argv: seq<Bytes>, envp: seq<Bytes>) {
    var strs := envp + argv;
    var base := StringBase(|argv|, |envp|);
    && |v| == StackSize(argv, envp)
    && TableAt(v, 0, [|argv|])
    && TableAt(v, ARGV_TAB, Pointers(base, strs, |envp|, |argv|) + [0])
    && TableAt(v, EnvTab(|argv|), Pointers(base, strs, 0, |envp|) + [0])
    && TableAt(v, AuxTab(|argv|, |envp|), AuxWords(meta))
    && ZeroIn(v, AuxTab(|argv|, |envp|) + 16 * AUX_PAIRS, base)
    && StringsAt(v, base, strs, |strs|)
  }

  // ----- small facts about byte vectors -----

  ghost predicate ZeroFrom(v: Bytes, lo: nat) {
    forall j | lo <= j < |v| :: v[j] == 0
  }

  /** w is v followed by zeros. */
  ghost predicate ZeroExtended(v: Bytes, w: Bytes) {
    |v| <= |w| && (forall j | 0 <= j < |v| :: w[j] == v[j]) && ZeroFrom(w, |v|)
  }

  /** v and w differ at most inside [lo, hi). */
  ghost predicate SameOutside(v: Bytes, w: Bytes, lo: nat, hi: nat) {
    |v| == |w| && forall j | 0 <= j < |v| && !(lo <= j < hi) :: w[j] == v[j]
  }

  lemma {:induction false} FromLeZero(s: Bytes)
    requires forall j | 0 <= j < |s| :: s[j] == 0
    ensures FromLe(s) == 0
    decreases |s|
  {
    if s != [] {
      FromLeZero(s[1..]);
    }
  }

  lemma TableKept(v: Bytes, w: Bytes, lo: nat, hi: nat, tab: nat, words: seq<nat>)
    requires SameOutside(v, w, lo, hi) && TableAt(v, tab, words)
    requires tab + 8 * |words| <= lo || hi <= tab
    ensures TableAt(w, tab, words)
  {
    forall i: nat | i < |words| ensures TableWord(w, tab, i) == words[i] {
      var o := tab + 8 * i;
      assert o + 8 <= tab + 8 * |words|;
      assert w[o..o + 8] == v[o..o + 8];
      assert TableWord(v, tab, i) == words[i];
    }
  }

  lemma StringsKept(v: Bytes, w: Bytes, lo: nat, hi: nat, base: nat, strs: seq<Bytes>)
    requires SameOutside(v, w, lo, hi) && hi <= base && StringsAt(v, base, strs, |strs|)
    ensures StringsAt(w, base, strs, |strs|)
  {
    hide AlignUp, StringOff;
    forall i: nat | i < |strs| ensures StringAt(w, StringOff(base, strs, i), strs[i]) {
      StringKept(v, w, lo, hi, StringOff(base, strs, i), strs[i]);
    }
  }

  lemma StringKept(v: Bytes, w: Bytes, lo: nat, hi: nat, o: nat, s: Bytes)
    requires SameOutside(v, w, lo, hi) && hi <= o && StringAt(v, o, s)
    ensures StringAt(w, o, s)
  {
    hide AlignUp;
    assert w[o..o + |s|] == v[o..o + |s|];
  }

  /** A table followed by a zero word is the table with its NULL terminator. */
  lemma Terminated(v: Bytes, tab: nat, words: seq<nat>)
    requires TableAt(v, tab, words) && tab + 8 * |words| + 8 <= |v|
    requires forall j | tab + 8 * |words| <= j < tab + 8 * |words| + 8 :: v[j] == 0
    ensures TableAt(v, tab, words + [0])
  {
    var o := tab + 8 * |words|;
    FromLeZero(v[o..o + 8]);
    forall i: nat | i < |words + [0]| ensures TableWord(v, tab, i) == (words + [0])[i] {
      assert i < |words| ==> TableWord(v, tab, i) == words[i];
    }
  }

  // ----- the builder -----

  /** Appends n zero words, the placeholder of a table that is filled in later. */
  method AppendZeroWords(v: Bytes, n: nat) returns (w: Bytes)
    ensures |w| == |v| + 8 * n && ZeroExtended(v, w)
  {
    w := v;
    for i := 0 to n
      invariant |w| == |v| + 8 * i && ZeroExtended(v, w)
    {
      w := w + [0, 0, 0, 0, 0, 0, 0, 0];
    }
  }

  /** Appends zeros until the length is a multiple of the alignment. */
  method PadTo(v: Bytes, align: nat) returns (w: Bytes)
    requires align == 8 || align == 16
    ensures |w| == AlignUp(|v|, align) && ZeroExtended(v, w)
  {
    hide AlignUp;
    w := v;
    while |w| % align != 0
      invariant |w| <= AlignUp(|v|, align) && ZeroExtended(v, w)
      decreases AlignUp(|v|, align) - |w|
    {
      w := w + [0];
    }
    OnlyMultiple(|v|, |w|, align);
  }

  lemma OnlyMultiple(n: nat, m: nat, align: nat)
    requires (align == 8 || align == 16) && m % align == 0 && n <= m <= AlignUp(n, align)
    ensures m == AlignUp(n, align)
  {
    hide AlignUp;
    if align == 8 {
      assert AlignUp(n, 8) % 8 == 0;
    } else {
      assert AlignUp(n, 16) % 16 == 0;
    }
  }

  /** The two string loops: append each string with its NUL and padding, recording where it landed. */
  method AppendStrings(v: Bytes, base: nat, strs: seq<Bytes>) returns (w: Bytes, offs: seq<nat>)
    requires |v| == base && base % 8 == 0
    ensures |w| == StringOff(base, strs, |strs|) && w[..base] == v
    ensures StringsAt(w, base, strs, |strs|)
    ensures offs == Pointers(base, strs, 0, |strs|)
  {
    hide StringAt, StringsAt, AlignUp;
    w, offs := v, [];
    NoStrings(v, base, strs);
    for k := 0 to |strs|
      invariant |w| == StringOff(base, strs, k) && base <= |w| && w[..base] == v
      invariant StringsAt(w, base, strs, k)
      invariant offs == Pointers(base, strs, 0, k)
    {
      offs := offs + [STACK_LO + |w|];
      ghost var w0 := w;
      var longer := w + strs[k] + [0];
      w := PadTo(longer, 8);
      StringAppended(w0, longer, w, base, strs, k);
      assert |w| == StringOff(base, strs, k + 1);
    }
  }

  lemma NoStrings(v: Bytes, base: nat, strs: seq<Bytes>)
    ensures StringsAt(v, base, strs, 0)
  {
  }

  lemma StringPrefix(v: Bytes, w: Bytes, o: nat, s: Bytes)
    requires StringAt(v, o, s) && |v| <= |w| && w[..|v|] == v
    ensures StringAt(w, o, s)
  {
    hide AlignUp;
    assert forall j | 0 <= j < |v| :: w[j] == v[j];
    assert w[o..o + |s|] == v[o..o + |s|];
  }

  lemma JustAppended(v: Bytes, s: Bytes, w: Bytes)
    requires ZeroExtended(v + s + [0], w) && |w| == AlignUp(|v + s + [0]|, 8)
    ensures StringAt(w, |v|, s) && w[..|v|] == v
  {
    hide AlignUp;
    var longer := v + s + [0];
    assert |longer| == |v| + |s| + 1;
    assert w[|v|..|v| + |s|] == s;
  }

  lemma StringAppended(v: Bytes, longer: Bytes, w: Bytes, base: nat, strs: seq<Bytes>, k: nat)
    requires k < |strs| && |v| == StringOff(base, strs, k) && StringsAt(v, base, strs, k)
    requires longer == v + strs[k] + [0] && ZeroExtended(longer, w) && |w| == AlignUp(|longer|, 8)
    ensures StringsAt(w, base, strs, k + 1) && w[..|v|] == v && w[..base] == v[..base]
  {
    hide StringAt, StringOff, AlignUp, ZeroExtended;
    JustAppended(v, strs[k], w);
    forall i: nat | i < k ensures StringAt(w, StringOff(base, strs, i), strs[i]) {
      StringPrefix(v, w, StringOff(base, strs, i), strs[i]);
    }
  }

  /** v with the word at offset o overwritten by x. */
  function Patched(v: Bytes, o: nat, x: nat): Bytes
    requires o + 8 <= |v|
  {
    v[..o] + LeBytes(x, 8) + v[o + 8..]
  }

  lemma PatchedOutside(v: Bytes, o: nat, x: nat)
    requires o + 8 <= |v|
    ensures SameOutside(v, Patched(v, o, x), o, o + 8) && Patched(v, o, x)[o..o + 8] == LeBytes(x, 8)
  {
    hide LeBytes;
  }

  /** Patching the next word extends the table. */
  lemma PatchedTable(v: Bytes, tab: nat, words: seq<nat>, x: nat)
    requires TableAt(v, tab, words) && tab + 8 * |words| + 8 <= |v| && x < Pow256(8)
    ensures TableAt(Patched(v, tab + 8 * |words|, x), tab, words + [x])
  {
    var i := |words|;
    var o := tab + 8 * i;
    var w := Patched(v, o, x);
    PatchedOutside(v, o, x);
    LeRoundTrip(x, 8);
    hide Patched, LeBytes;
    TableKept(v, w, o, o + 8, tab, words);
    assert TableWord(w, tab, i) == x;
    forall j: nat | j < |words + [x]| ensures TableWord(w, tab, j) == (words + [x])[j] {
      assert j < i ==> TableWord(w, tab, j) == words[j];
    }
  }

  lemma OutsideGrows(v0: Bytes, v: Bytes, w: Bytes, lo: nat, mid: nat, hi: nat)
    requires SameOutside(v0, v, lo, mid) && SameOutside(v, w, mid, hi) && lo <= mid <= hi
    ensures SameOutside(v0, w, lo, hi)
  {
  }

  /** Write consecutive words. */
  method PatchTable(v: Bytes, tab: nat, words: seq<nat>) returns (w: Bytes)
    requires tab + 8 * |words| <= |v|
    requires forall x | x in words :: x < Pow256(8)
    ensures SameOutside(v, w, tab, tab + 8 * |words|) && TableAt(w, tab, words)
  {
    hide TableAt, SameOutside, Patched, Pow256;
    w := v;
    NoWords(v, tab);
    assert words[..0] == [];
    for i := 0 to |words|
      invariant |w| == |v| && SameOutside(v, w, tab, tab + 8 * i)
      invariant TableAt(w, tab, words[..i])
    {
      var o := tab + 8 * i;
      assert words[i] in words;
      PatchedTable(w, tab, words[..i], words[i]);
      PatchedOutside(w, o, words[i]);
      OutsideGrows(v, w, Patched(w, o, words[i]), tab, o, o + 8);
      SameLength(w, Patched(w, o, words[i]), o, o + 8);
      w := Patched(w, o, words[i]);
      assert words[..i + 1] == words[..i] + [words[i]];
    }
    assert words[..|words|] == words;
  }

  lemma NoWords(v: Bytes, tab: nat)
    requires tab <= |v|
    ensures TableAt(v, tab, []) && SameOutside(v, v, tab, tab)
  {
  }

  /** The first pass: argc, zeroed tables, padding. */
  method ZeroedTables(argc: nat, envc: nat) returns (v: Bytes)
    requires argc < Pow256(8)
    ensures |v| == StringBase(argc, envc) && TableAt(v, 0, [argc]) && ZeroFrom(v, 8)
  {
    v := LeBytes(argc, 8);
    LeRoundTrip(argc, 8);
    assert v[0..8] == v;
    ghost var v0 := v;
    v := AppendZeroWords(v, argc + 1);
    v := AppendZeroWords(v, envc + 1);
    v := AppendZeroWords(v, 2 * AUX_PAIRS);
    v := PadTo(v, 16);
    assert v[0..8] == v0;
  }

  predicate MetaFits(meta: ElfLoadedMeta) {
    meta.phdr < Pow256(8) && meta.phent < Pow256(8) && meta.phnum < Pow256(8)
  }

  /** The whole vector. It overflows exactly when the layout does not fit the stack page. */
  method BuildVector(meta: ElfLoadedMeta, argv: seq<Bytes>, envp: seq<Bytes>) returns (r: Result<Bytes, ExecError>)
    requires MetaFits(meta) && |argv| < Pow256(8)
    ensures r == Failure(StackOverflow) <==> StackSize(argv, envp) > PAGE
    ensures r.Failure? ==> r.error == StackOverflow
    ensures r.Success? ==> InitialStack(r.value, meta, argv, envp)
  {
    hide AlignUp, StringOff, InitialStack, StringsAt, TableAt, ZeroFrom, Pointers;
    var strs := envp + argv;
    ghost var base := StringBase(|argv|, |envp|);
    var v := ZeroedTables(|argv|, |envp|);
    ghost var v0 := v;
    var offs: seq<nat>;
    v, offs := AppendStrings(v, |v|, strs);
    if STACK_LO + |v| > USER_STACK_TOP {
      return Failure(StackOverflow);
    }
    v := PatchAll(v, v0, offs, meta, argv, envp);
    r := Success(v);
  }

  /** The second pass: environment pointers, argument pointers, auxiliary vector. */
  method PatchAll(v: Bytes, ghost v0: Bytes, offs: seq<nat>, meta: ElfLoadedMeta, argv: seq<Bytes>, envp: seq<Bytes>)
      returns (w: Bytes)
    requires MetaFits(meta)
    requires |v0| == StringBase(|argv|, |envp|) && TableAt(v0, 0, [|argv|]) && ZeroFrom(v0, 8)
    requires |v| == StackSize(argv, envp) && |v0| <= |v| <= PAGE && v[..|v0|] == v0
    requires StringsAt(v, |v0|, envp + argv, |envp + argv|)
    requires offs == Pointers(|v0|, envp + argv, 0, |envp + argv|)
    ensures InitialStack(w, meta, argv, envp)
  {
    hide StringAt, StringOff, TableAt, SameOutside, StringsAt, Pointers, AuxWords, Pow256, MetaFits, ZeroFrom;
    var n, m := |argv|, |envp|;
    PointersSplit(|v0|, envp, argv);
    PointersFit(|v0|, envp + argv, 0, m);
    PointersFit(|v0|, envp + argv, m, n);
    AuxFits(meta);
    var v1 := PatchTable(v, EnvTab(n), offs[..m]);
    SameLength(v, v1, EnvTab(n), EnvTab(n) + 8 * m);
    var v2 := PatchTable(v1, ARGV_TAB, offs[m..]);
    SameLength(v1, v2, ARGV_TAB, ARGV_TAB + 8 * n);
    w := PatchTable(v2, AuxTab(n, m), AuxWords(meta));
    HeadKept(v0, v, n);
    TablesPatched(v, v1, v2, w, n, m, offs[m..], offs[..m], AuxWords(meta));
    SameLength(v2, w, AuxTab(n, m), AuxTab(n, m) + 16 * AUX_PAIRS);
    StringsKept(v, v1, EnvTab(n), EnvTab(n) + 8 * m, |v0|, envp + argv);
    StringsKept(v1, v2, ARGV_TAB, ARGV_TAB + 8 * n, |v0|, envp + argv);
    StringsKept(v2, w, AuxTab(n, m), AuxTab(n, m) + 16 * AUX_PAIRS, |v0|, envp + argv);
  }

  lemma AuxFits(meta: ElfLoadedMeta)
    requires MetaFits(meta)
    ensures |AuxWords(meta)| == 2 * AUX_PAIRS && forall x | x in AuxWords(meta) :: x < Pow256(8)
  {
    assert Pow256(8) == TWO64;
  }

  lemma SameLength(v: Bytes, w: Bytes, lo: nat, hi: nat)
    requires SameOutside(v, w, lo, hi)
    ensures |w| == |v|
  {
  }

  lemma HeadKept(v0: Bytes, v: Bytes, n: nat)
    requires |v0| <= |v| && v[..|v0|] == v0 && TableAt(v0, 0, [n]) && ZeroFrom(v0, 8)
    ensures TableAt(v, 0, [n]) && forall j | 8 <= j < |v0| :: v[j] == 0
  {
    assert forall j | 0 <= j < |v0| :: v[j] == v0[j];
    assert v[0..8] == v0[0..8];
    assert TableWord(v0, 0, 0) == n;
  }

  /** Three patches that do not overlap leave all three tables, their NULL terminators and argc in place. */
  lemma TablesPatched(v: Bytes, v1: Bytes, v2: Bytes, w: Bytes, n: nat, m: nat,
                      args: seq<nat>, envs: seq<nat>, aux: seq<nat>)
    requires |args| == n && |envs| == m && |aux| == 2 * AUX_PAIRS && StringBase(n, m) <= |v|
    requires TableAt(v, 0, [n]) && forall j | 8 <= j < StringBase(n, m) :: v[j] == 0
    requires SameOutside(v, v1, EnvTab(n), EnvTab(n) + 8 * m) && TableAt(v1, EnvTab(n), envs)
    requires SameOutside(v1, v2, ARGV_TAB, ARGV_TAB + 8 * n) && TableAt(v2, ARGV_TAB, args)
    requires SameOutside(v2, w, AuxTab(n, m), AuxTab(n, m) + 8 * |aux|) && TableAt(w, AuxTab(n, m), aux)
    ensures TableAt(w, 0, [n]) && TableAt(w, ARGV_TAB, args + [0]) && TableAt(w, EnvTab(n), envs + [0])
    ensures ZeroIn(w, AuxTab(n, m) + 8 * |aux|, StringBase(n, m))
  {
    var env, ax := EnvTab(n), AuxTab(n, m);
    assert forall j | ARGV_TAB + 8 * n <= j < ARGV_TAB + 8 * n + 8 :: w[j] == 0;
    assert forall j | env + 8 * m <= j < env + 8 * m + 8 :: w[j] == 0;
    assert ax + 8 * |aux| <= |w|;
    hide TableAt, SameOutside;
    TableKept(v, v1, env, env + 8 * m, 0, [n]);
    TableKept(v1, v2, ARGV_TAB, ARGV_TAB + 8 * n, 0, [n]);
    TableKept(v2, w, ax, ax + 8 * |aux|, 0, [n]);
    TableKept(v2, w, ax, ax + 8 * |aux|, ARGV_TAB, args);
    TableKept(v1, v2, ARGV_TAB, ARGV_TAB + 8 * n, env, envs);
    TableKept(v2, w, ax, ax + 8 * |aux|, env, envs);
    Terminated(w, ARGV_TAB, args);
    Terminated(w, env, envs);
  }

  lemma PointersSplit(base: nat, envp: seq<Bytes>, argv: seq<Bytes>)
    ensures var ps := Pointers(base, envp + argv, 0, |envp + argv|);
            && ps[..|envp|] == Pointers(base, envp + argv, 0, |envp|)
            && ps[|envp|..] == Pointers(base, envp + argv, |envp|, |argv|)
  {
  }

  lemma {:induction false} StringOffMonotone(base: nat, strs: seq<Bytes>, i: nat, k: nat)
    requires i <= k <= |strs|
    ensures StringOff(base, strs, i) <= StringOff(base, strs, k)
    ensures i < k ==> StringOff(base, strs, i) + |strs[i]| + 1 <= StringOff(base, strs, k)
    decreases k - i
  {
    if i < k {
      StringOffMonotone(base, strs, i, k - 1);
    }
  }

  /** A layout that fits the page has only small pointers. */
  lemma PointersFit(base: nat, strs: seq<Bytes>, from: nat, n: nat)
    requires from + n <= |strs| && StringOff(base, strs, |strs|) <= PAGE
    ensures forall x | x in Pointers(base, strs, from, n) :: STACK_LO <= x <= USER_STACK_TOP < Pow256(8)
  {
    forall i: nat | i < n ensures Pointers(base, strs, from, n)[i] <= USER_STACK_TOP {
      StringOffMonotone(base, strs, from + i, |strs|);
    }
  }

  /** The stack page holds the byte vector `v` from its bottom up. */
  ghost predicate StackBytes(pt: map<nat, Pte>, ram: map<nat, byte>, v: Bytes) {
    && |v| <= PAGE
    && forall a: nat | STACK_LO <= a < STACK_LO + |v| :: ReadVirt(pt, ram, a) == Some(v[a - STACK_LO])
  }

  /** Builds the stack in user memory. On success the returned stack pointer is the 16-byte aligned bottom of the
      stack page and the page holds the initial stack from there; every other mapped byte is untouched, and so is all of
      memory on failure. */
  method BuildExecStack(s: Space, meta: ElfLoadedMeta, argv: seq<Bytes>, envp: seq<Bytes>)
      returns (r: Result<nat, ExecError>, ghost v: Bytes)
    requires s.Valid() && Owned(s.View()) && MetaFits(meta) && |argv| < Pow256(8)
    modifies s`ram
    ensures s.Valid()
    ensures r == Failure(StackOverflow) <==> StackSize(argv, envp) > PAGE
    ensures r == Failure(NoMap) <==> StackSize(argv, envp) <= PAGE && PageOf(STACK_LO) !in s.pt
    ensures r.Success? ==>
              && r.value == STACK_LO && r.value % 16 == 0
              && InitialStack(v, meta, argv, envp) && StackBytes(s.pt, s.ram, v)
    ensures r.Failure? ==> v == [] && s.ram == old(s.ram)
    ensures forall a: nat | PageOf(a) in s.pt && !(STACK_LO <= a < STACK_LO + |v|) ::
              ReadVirt(s.pt, s.ram, a) == ReadVirt(s.pt, old(s.ram), a)
    ensures Confined(s.View(), old(s.ram), s.View(), s.ram)
  {
    hide Owned, Universe, InitialStack, ReadVirt, StackSize, Confined, PhysOf;
    ConfinedQuietly(s.View(), s.View(), s.ram);
    v := [];
    var built := BuildVector(meta, argv, envp);
    if built.Failure? {
      return Failure(built.error), v;
    }
    InitialStackSize(built.value, meta, argv, envp);
    v := built.value;
    for i := 0 to |built.value|
      invariant s.Valid() && (i > 0 ==> PageOf(STACK_LO) in s.pt) && (i == 0 ==> s.ram == old(s.ram))
      invariant CopiedTo(s.pt, old(s.ram), s.ram, v, 0, STACK_LO, i)
      invariant Confined(s.View(), old(s.ram), s.View(), s.ram)
    {
      hide CopiedTo;
      assert PageOf(STACK_LO + i) == PageOf(STACK_LO);
      ghost var before := s.ram;
      var ok := s.WriteByte(STACK_LO + i, built.value[i]);
      if !ok {
        return Failure(NoMap), [];
      }
      ConfinedTwice(s.View(), old(s.ram), s.View(), before, s.View(), s.ram);
      CopyStep(s.pt, old(s.ram), before, s.ram, v, 0, STACK_LO, i);
    }
    r := Success(STACK_LO);
  }

  /** There is one such vector: every byte of it is determined. */
  lemma InitialStackUnique(v: Bytes, w: Bytes, meta: ElfLoadedMeta, argv: seq<Bytes>, envp: seq<Bytes>)
    requires InitialStack(v, meta, argv, envp) && InitialStack(w, meta, argv, envp)
    ensures v == w
  {
    var n, m, strs := |argv|, |envp|, envp + argv;
    var base := StringBase(n, m);
    hide AlignUp, StringOff, TableAt, StringAt, AuxWords, Pointers, ZeroIn;
    SameTable(v, w, 0, [n]);
    SameTable(v, w, ARGV_TAB, Pointers(base, strs, m, n) + [0]);
    SameTable(v, w, EnvTab(n), Pointers(base, strs, 0, m) + [0]);
    AuxLength(meta);
    SameTable(v, w, AuxTab(n, m), AuxWords(meta));
    SameZeros(v, w, AuxTab(n, m) + 16 * AUX_PAIRS, base);
    SameStrings(v, w, base, strs, |strs|);
    forall j | 0 <= j < |v| ensures v[j] == w[j] {
    }
  }

  lemma AuxLength(meta: ElfLoadedMeta)
    ensures |AuxWords(meta)| == 2 * AUX_PAIRS
  {
  }

  lemma SameTable(v: Bytes, w: Bytes, tab: nat, words: seq<nat>)
    requires TableAt(v, tab, words) && TableAt(w, tab, words)
    ensures tab + 8 * |words| <= |v| && tab + 8 * |words| <= |w|
    ensures forall j | tab <= j < tab + 8 * |words| :: v[j] == w[j]
  {
    forall j | tab <= j < tab + 8 * |words| ensures v[j] == w[j] {
      var i := (j - tab) / 8;
      var o := tab + 8 * i;
      assert TableWord(v, tab, i) == words[i] == TableWord(w, tab, i);
      LeRoundTripBack(v[o..o + 8]);
      LeRoundTripBack(w[o..o + 8]);
      assert v[o..o + 8][j - o] == w[o..o + 8][j - o];
    }
  }

  lemma SameZeros(v: Bytes, w: Bytes, lo: nat, hi: nat)
    requires ZeroIn(v, lo, hi) && ZeroIn(w, lo, hi)
    ensures hi <= |v| && hi <= |w| && forall j | lo <= j < hi :: v[j] == w[j]
  {
  }

  lemma {:induction false} SameStrings(v: Bytes, w: Bytes, base: nat, strs: seq<Bytes>, k: nat)
    requires k <= |strs| && StringsAt(v, base, strs, k) && StringsAt(w, base, strs, k)
    requires StringOff(base, strs, k) <= |v| && StringOff(base, strs, k) <= |w|
    ensures forall j | base <= j < StringOff(base, strs, k) :: v[j] == w[j]
    decreases k
  {
    NoStringBytes(base, strs);
    hide AlignUp, StringAt, StringsAt, StringOff;
    if k > 0 {
      LastString(v, base, strs, k);
      LastString(w, base, strs, k);
      SameString(v, w, StringOff(base, strs, k - 1), strs[k - 1]);
      SameStrings(v, w, base, strs, k - 1);
    }
  }

  lemma NoStringBytes(base: nat, strs: seq<Bytes>)
    ensures StringOff(base, strs, 0) == base
  {
  }

  lemma LastString(v: Bytes, base: nat, strs: seq<Bytes>, k: nat)
    requires 0 < k <= |strs| && StringsAt(v, base, strs, k)
    ensures StringsAt(v, base, strs, k - 1) && StringAt(v, StringOff(base, strs, k - 1), strs[k - 1])
    ensures StringOff(base, strs, k) == AlignUp(StringOff(base, strs, k - 1) + |strs[k - 1]| + 1, 8)
  {
    hide AlignUp, StringAt;
  }

  lemma SameString(v: Bytes, w: Bytes, o: nat, s: Bytes)
    requires StringAt(v, o, s) && StringAt(w, o, s)
    ensures AlignUp(o + |s| + 1, 8) <= |v| && AlignUp(o + |s| + 1, 8) <= |w|
    ensures forall j | o <= j < AlignUp(o + |s| + 1, 8) :: v[j] == w[j]
  {
    hide AlignUp;
    forall j | o <= j < AlignUp(o + |s| + 1, 8) ensures v[j] == w[j] {
      if j < o + |s| {
        assert v[o..o + |s|][j - o] == w[o..o + |s|][j - o];
      }
    }
  }

  lemma InitialStackSize(v: Bytes, meta: ElfLoadedMeta, argv: seq<Bytes>, envp: seq<Bytes>)
    requires InitialStack(v, meta, argv, envp)
    ensures 0 < |v| == StackSize(argv, envp)
  {
  }
}
