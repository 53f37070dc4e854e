/**
 The register path of one system call, word by word: the pushes of `syscall_entry` (src/syscall.rs), the record
 that `save_from_dispatch_rsp` takes, the frame that `restore_to_kstack` lays out (src/task.rs), and the pops of
 `syscall_user_return`. Kernel stack memory is addressed in 8-byte words; stack tops are page aligned.
 */
module SyscallContext {
  import opened Basics

  datatype SyscallSaved = SyscallSaved(
    userRsp: u64, userRip: u64, userRflags: u64,
    rbx: u64, rbp: u64, r12: u64, r13: u64, r14: u64, r15: u64)

  function BootstrapUser(entry: u64, stackTop: u64, rflags: u64): SyscallSaved {
    SyscallSaved(stackTop, entry, rflags, 0, 0, 0, 0, 0, 0)
  }

  /** The user-mode state that a system call should carry across. */
  datatype UserRegs = UserRegs(
    rip: u64, rsp: u64, rflags: u64, rax: u64,
    rbx: u64, rbp: u64, r12: u64, r13: u64, r14: u64, r15: u64)

  /** `save_from_dispatch_rsp`: words 2 to 10 above the given stack pointer. */
  function SaveFrom(mem: map<nat, u64>, p: nat): SyscallSaved
    requires Saveable(mem, p)
  {
    SyscallSaved(mem[p + 80], mem[p + 72], mem[p + 64], mem[p + 56], mem[p + 48],
                 mem[p + 40], mem[p + 32], mem[p + 24], mem[p + 16])
  }

  /** Words 2 to 10 above p exist. */
  predicate Saveable(mem: map<nat, u64>, p: nat) {
    && p + 16 in mem && p + 24 in mem && p + 32 in mem && p + 40 in mem && p + 48 in mem && p + 56 in mem
    && p + 64 in mem && p + 72 in mem && p + 80 in mem
  }

  /** Words 1 to 9 above p exist. */
  predicate Poppable(mem: map<nat, u64>, p: nat) {
    && p + 8 in mem && p + 16 in mem && p + 24 in mem && p + 32 in mem && p + 40 in mem && p + 48 in mem
    && p + 56 in mem && p + 64 in mem && p + 72 in mem
  }

  /** What the record really holds after an entry from user state `u`: the pointer passed is one word higher than
      the layout `save_from_dispatch_rsp` assumes, so every field holds its neighbour, and `userRsp` holds the
      word above the kernel stack. */
  function Record(u: UserRegs, top: u64, above: u64): SyscallSaved {
    SyscallSaved(above, u.rsp, u.rip, u.rflags, u.rbx, u.rbp, u.r12, u.r13, top)
  }

  /** What the pops of `syscall_user_return` make of a record that `restore_to_kstack` laid out. */
  function Resumed(s: SyscallSaved, rax: u64): UserRegs {
    UserRegs(s.userRflags, s.userRip, s.rbx, rax, s.rbp, s.r12, s.r13, s.r14, s.r15, 0)
  }

  ghost predicate WordIs(mem: map<nat, u64>, a: nat, x: u64) {
    a in mem && mem[a] == x
  }

  /** The nine words `syscall_entry` pushes below `top` when entered with user state `u`. The slot of r14 holds
      the stack top: the stub overwrites r14 before it saves it. */
  ghost predicate FrameAt(mem: map<nat, u64>, u: UserRegs, top: u64) {
    && top >= 96
    && WordIs(mem, top - 8, u.rsp) && WordIs(mem, top - 16, u.rip) && WordIs(mem, top - 24, u.rflags)
    && WordIs(mem, top - 32, u.rbx) && WordIs(mem, top - 40, u.rbp) && WordIs(mem, top - 48, u.r12)
    && WordIs(mem, top - 56, u.r13) && WordIs(mem, top - 64, top) && WordIs(mem, top - 72, u.r15)
  }

  /** Kernel stack memory after the pushes. */
  function EntryFrame(mem: map<nat, u64>, u: UserRegs, top: u64): map<nat, u64>
    requires top >= 96
  {
    mem[top - 8 := u.rsp][top - 16 := u.rip][top - 24 := u.rflags][top - 32 := u.rbx][top - 40 := u.rbp]
       [top - 48 := u.r12][top - 56 := u.r13][top - 64 := top][top - 72 := u.r15]
  }

  /** `mem'` still has the words that `mem` has in [lo, hi). */
  ghost predicate Kept(mem: map<nat, u64>, mem': map<nat, u64>, lo: nat, hi: nat) {
    forall a | lo <= a < hi && a in mem :: WordIs(mem', a, mem[a])
  }

  lemma EntryFrameStays(mem: map<nat, u64>, u: UserRegs, top: u64, busy: map<nat, u64>)
    requires top >= 96 && Kept(EntryFrame(mem, u, top), busy, top - 72, top)
    ensures FrameAt(busy, u, top)
  {
    assert FrameAt(EntryFrame(mem, u, top), u, top);
  }

  /** The frame `restore_to_kstack` writes, above its return address word. */
  ghost predicate RestoredAt(mem: map<nat, u64>, s: SyscallSaved, top: nat) {
    && top >= 96
    && WordIs(mem, top - 80, 0) && WordIs(mem, top - 72, s.r15) && WordIs(mem, top - 64, s.r14)
    && WordIs(mem, top - 56, s.r13) && WordIs(mem, top - 48, s.r12) && WordIs(mem, top - 40, s.rbp)
    && WordIs(mem, top - 32, s.rbx) && WordIs(mem, top - 24, s.userRflags) && WordIs(mem, top - 16, s.userRip)
    && WordIs(mem, top - 8, s.userRsp)
  }

  /** The user state after the pops, which start one word above the given stack pointer. */
  function Returned(mem: map<nat, u64>, p: nat, rax: u64): UserRegs
    requires Poppable(mem, p)
  {
    UserRegs(mem[p + 64], mem[p + 72], mem[p + 56], rax, mem[p + 48], mem[p + 40],
             mem[p + 32], mem[p + 24], mem[p + 16], mem[p + 8])
  }

  /** Saving at `top - 80` after an entry, whatever the dispatcher did elsewhere in memory. */
  lemma SavedRecord(mem: map<nat, u64>, u: UserRegs, top: u64)
    requires FrameAt(mem, u, top) && top in mem
    ensures Saveable(mem, top - 80) && SaveFrom(mem, top - 80) == Record(u, top, mem[top])
  {
  }

  /** Restoring at `top - 88` and popping from one word above. */
  lemma RestoredRecord(mem: map<nat, u64>, s: SyscallSaved, top: u64, rax: u64)
    requires RestoredAt(mem, s, top)
    ensures Poppable(mem, top - 88) && Returned(mem, top - 88, rax) == Resumed(s, rax)
  {
  }

  /** The two shifts cancel: entry, save, restore and return bring back rip, rsp, rflags, rbx, rbp, r12 and r13.
      r14 comes back as the stack top the call entered on and r15 as zero, whatever they were. */
  lemma ShiftsCancel(u: UserRegs, top: u64, above: u64, ret: u64)
    ensures Resumed(Record(u, top, above), ret) == u.(rax := ret, r14 := top, r15 := 0)
    ensures Resumed(Record(u, top, above), ret) == u.(rax := ret) <==> u.r14 == top && u.r15 == 0
  {
  }

  /** A program that keeps 7 in r14 and r15 across a call finds the entry stack top and zero. */
  lemma CalleeSavedLost(u: UserRegs, top: u64, above: u64, ret: u64)
    requires u.r14 == 7 && u.r15 == 7 && top % PAGE == 0
    ensures Resumed(Record(u, top, above), ret).r14 != u.r14 && Resumed(Record(u, top, above), ret).r15 != u.r15
  {
  }

  function RestoreFrame(mem: map<nat, u64>, s: SyscallSaved, top: u64, retToKernel: u64): map<nat, u64>
    requires top >= 96
  {
    var p := top - 88;
    mem[p := retToKernel][p + 8 := 0][p + 16 := s.r15][p + 24 := s.r14][p + 32 := s.r13][p + 40 := s.r12]
       [p + 48 := s.rbp][p + 56 := s.rbx][p + 64 := s.userRflags][p + 72 := s.userRip][p + 80 := s.userRsp]
  }

  lemma RestoreFrameHas(mem: map<nat, u64>, s: SyscallSaved, top: u64, retToKernel: u64)
    requires top >= 96
    ensures RestoredAt(RestoreFrame(mem, s, top, retToKernel), s, top)
  {
  }

  /** The processor state the two assembly stubs touch. */
  class Cpu {
    var rax: u64
    var rbx: u64
    var rcx: u64
    var rbp: u64
    var rsp: nat
    var r11: u64
    var r12: u64
    var r13: u64
    var r14: u64
    var r15: u64
    var rip: u64
    var rflags: u64
    var mem: map<nat, u64>

    constructor (u: UserRegs, mem: map<nat, u64>)
      ensures rsp == u.rsp && User() == u && this.mem == mem
    {
      rax, rbx, rbp, rsp, r12, r13, r14, r15 := u.rax, u.rbx, u.rbp, u.rsp, u.r12, u.r13, u.r14, u.r15;
      rip, rflags, rcx, r11 := u.rip, u.rflags, 0, 0;
      this.mem := mem;
    }

    function User(): UserRegs
      reads this
      requires rsp < 0x1_0000_0000_0000_0000
    {
      UserRegs(rip, rsp, rflags, rax, rbx, rbp, r12, r13, r14, r15)
    }

    /** The `syscall` instruction and `syscall_entry` up to the call of `syscall_dispatch`. */
    method SyscallEntry(top: u64)
      requires top >= 96 && rsp < 0x1_0000_0000_0000_0000
      modifies this
      ensures rsp == top - 80 && mem == EntryFrame(old(mem), old(User()), top)
    {
      rcx, r11 := rip, rflags;
      var stash := rsp;
      r14 := top;
      var sp: nat := r14;
      var m: map<nat, u64> := mem;
      sp, m := sp - 8, m[sp - 8 := stash];
      sp, m := sp - 8, m[sp - 8 := rcx];
      sp, m := sp - 8, m[sp - 8 := r11];
      sp, m := sp - 8, m[sp - 8 := rbx];
      sp, m := sp - 8, m[sp - 8 := rbp];
      sp, m := sp - 8, m[sp - 8 := r12];
      sp, m := sp - 8, m[sp - 8 := r13];
      sp, m := sp - 8, m[sp - 8 := r14];
      sp, m := sp - 8, m[sp - 8 := r15];
      rsp, mem := sp - 8, m;
    }

    /** `restore_to_kstack`: eleven words from `top - 88` up. */
    method RestoreToKstack(top: u64, s: SyscallSaved, retToKernel: u64)
      requires top >= 96
      modifies this`mem
      ensures mem == RestoreFrame(old(mem), s, top, retToKernel)
    {
      var p := top - 88;
      var m := mem[p := retToKernel];
      m := m[p + 8 := 0][p + 16 := s.r15][p + 24 := s.r14][p + 32 := s.r13][p + 40 := s.r12][p + 48 := s.rbp];
      mem := m[p + 56 := s.rbx][p + 64 := s.userRflags][p + 72 := s.userRip][p + 80 := s.userRsp];
    }

    /** `syscall_user_return` and `sysretq`. */
    method SyscallUserReturn()
      requires Poppable(mem, rsp)
      modifies this
      ensures mem == old(mem) && rsp < 0x1_0000_0000_0000_0000
      ensures User() == Returned(mem, old(rsp), old(rax))
    {
      var m, sp := mem, rsp + 8;
      var x15, x14, x13, x12 := m[sp], m[sp + 8], m[sp + 16], m[sp + 24];
      sp := sp + 32;
      var xbp, xbx, x11, xcx := m[sp], m[sp + 8], m[sp + 16], m[sp + 24];
      sp := sp + 32;
      r15, r14, r13, r12, rbp, rbx, r11, rcx := x15, x14, x13, x12, xbp, xbx, x11, xcx;
      rsp := m[sp];
      rip, rflags := rcx, r11;
    }

    /** A whole system call that resumes the same process. It may enter on one stack top and be restored on another,
        as the first call of the first process does. The dispatcher and any number of other processes may rewrite
        all of memory except the entry frame (`busy`), and then everything (`later`), before it is picked. */
    method CallAndResume(entryTop: u64, top: u64, ret: u64, busy: map<nat, u64>, later: map<nat, u64>)
      requires entryTop >= 96 && top >= 96 && rsp < 0x1_0000_0000_0000_0000
      requires Kept(EntryFrame(mem, User(), entryTop), busy, entryTop - 72, entryTop) && entryTop in busy
      modifies this
      ensures rsp < 0x1_0000_0000_0000_0000
      ensures User() == old(User()).(rax := ret, r14 := entryTop, r15 := 0)
    {
      hide EntryFrame, RestoreFrame, Kept, SaveFrom, Returned, FrameAt, RestoredAt;
      ghost var u := User();
      EntryFrameStays(mem, u, entryTop, busy);
      SyscallEntry(entryTop);
      mem := busy;
      SavedRecord(mem, u, entryTop);
      var saved := SaveFrom(mem, rsp);
      mem := later;
      Resume(top, saved, ret);
      ShiftsCancel(u, entryTop, busy[entryTop], ret);
    }

    /** The end of `pick_next_and_restore`: lay the record out on the stack, point rsp at it and return to user. */
    method Resume(top: u64, s: SyscallSaved, pendingRax: u64)
      requires top >= 96
      modifies this
      ensures rsp < 0x1_0000_0000_0000_0000
      ensures User() == Resumed(s, pendingRax)
    {
      hide RestoreFrame, Returned, RestoredAt;
      RestoreFrameHas(mem, s, top, 0);
      RestoreToKstack(top, s, 0);
      rsp, rax := top - 88, pendingRax;
      RestoredRecord(mem, s, top, pendingRax);
      SyscallUserReturn();
    }
  }
}
