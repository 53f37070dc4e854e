/**
 The cooked TTY of src/tty.rs: a streaming state machine over scancodes against a declarative reading of the whole
 stream, and the conservation of bytes between accepted lines and reads of any size.
 */
module Tty {
  import opened Basics
  import opened Keyboard

  const LINE_BUF: nat := 1024
  const MAX_READY_LINES: nat := 128
  const NEWLINE: byte := 10

  const LEFT: byte := 0x2A
  const RIGHT: byte := 0x36

  function ToUpper(c: char): char {
    if 'a' <= c <= 'z' then (c as int - 32) as char else c
  }

  function ShiftedChar(code: nat): Option<char> {
    match code
    case 0x29 => Some('~')
    case 0x2B => Some('|')
    case 0x33 => Some('<')
    case 0x34 => Some('>')
    case 0x35 => Some('?')
    case _ =>
      var top := Row("!@#$%^&*()_+", 0x02, code);
      if top.Some? then top
      else
        match ScancodeToChar(code)
        case Some(c) => Some(ToUpper(c))
        case None => None
  }

  function CharFor(code: byte, shifted: bool): Option<char> {
    if shifted then ShiftedChar(code) else ScancodeToChar(code)
  }

  /** Every key the map knows is ASCII, so its UTF-8 encoding is the one byte of its code. */
  lemma KeysAreAscii(code: byte, shifted: bool)
    ensures CharFor(code, shifted).Some? ==> CharFor(code, shifted).value as int < 128
  {
    RowAscii("!@#$%^&*()_+", 0x02, code);
    RowAscii("1234567890-=", 0x02, code);
    RowAscii("qwertyuiop[]", 0x10, code);
    RowAscii("asdfghjkl;'", 0x1E, code);
    RowAscii("zxcvbnm,./", 0x2C, code);
    RowAscii("789-456+1230.", 0x47, code);
  }

  lemma RowAscii(keys: string, first: nat, code: nat)
    requires forall i | 0 <= i < |keys| :: keys[i] as int < 128
    ensures Row(keys, first, code).Some? ==> Row(keys, first, code).value as int < 128
  {
  }

  predicate IsEnter(c: char) {
    c == '\n' || c == '\r'
  }

  predicate IsErase(c: char) {
    c as int == 8 || c as int == 127
  }

  // ----- the state machine -----

  datatype State = State(shiftLeft: bool, shiftRight: bool, e0Prefix: bool, line: Bytes, ready: seq<Bytes>)

  const INIT: State := State(false, false, false, [], [])

  /** `c.encode_utf8` pushed byte by byte onto the capped buffer, for a one-byte character. */
  function Append(line: Bytes, c: char): Bytes {
    if |line| < LINE_BUF && c as int < 128 then line + [c as int] else line
  }

  function Erase(line: Bytes): Bytes {
    if line == [] then [] else line[..|line| - 1]
  }

  /** `feed_scancode` once the character is known. */
  function Key(t: State, c: char): State {
    if IsEnter(c) then
      t.(line := [], ready := if |t.ready| < MAX_READY_LINES then t.ready + [t.line + [NEWLINE]] else t.ready)
    else if IsErase(c) then t.(line := Erase(t.line))
    else t.(line := Append(t.line, c))
  }

  function Feed(t: State, code: byte): State {
    if t.e0Prefix then t.(e0Prefix := false)
    else if code == 0xE0 then t.(e0Prefix := true)
    else if code >= 0x80 then
      (if code - 0x80 == LEFT then t.(shiftLeft := false)
       else if code - 0x80 == RIGHT then t.(shiftRight := false) else t)
    else if code == LEFT then t.(shiftLeft := true)
    else if code == RIGHT then t.(shiftRight := true)
    else
      match CharFor(code, t.shiftLeft || t.shiftRight)
      case None => t
      case Some(c) => Key(t, c)
  }

  /** `read`: at most one queued chunk, the unread rest going back to the front. */
  function ReadBytes(t: State, n: nat): (State, Bytes) {
    if t.ready == [] then (t, [])
    else
      var line := t.ready[0];
      var m := Min(|line|, n);
      (t.(ready := if m < |line| then [line[m..]] + t.ready[1..] else t.ready[1..]), line[..m])
  }

  class TtyState {
    var shiftLeft: bool
    var shiftRight: bool
    var e0Prefix: bool
    var lineEdit: Bytes
    var readyLines: seq<Bytes>

    function View(): State
      reads this
    {
      State(shiftLeft, shiftRight, e0Prefix, lineEdit, readyLines)
    }

    constructor ()
      ensures View() == INIT
    {
      shiftLeft, shiftRight, e0Prefix, lineEdit, readyLines := false, false, false, [], [];
    }

    method FeedScancode(code: byte)
      modifies this
      ensures View() == Feed(old(View()), code)
    {
      hide ScancodeToChar, ShiftedChar;
      if e0Prefix {
        e0Prefix := code != 0xE0;
        if code == 0xE0 {
          return;
        }
        e0Prefix := false;
        return;
      }
      if code == 0xE0 {
        e0Prefix := true;
        return;
      }
      if code >= 0x80 {
        var mk := code - 0x80;
        if mk == LEFT {
          shiftLeft := false;
        } else if mk == RIGHT {
          shiftRight := false;
        }
        return;
      }
      if code == LEFT {
        shiftLeft := true;
        return;
      }
      if code == RIGHT {
        shiftRight := true;
        return;
      }
      var ch := if shiftLeft || shiftRight then ShiftedChar(code) else ScancodeToChar(code);
      if ch == None {
        return;
      }
      KeysAreAscii(code, shiftLeft || shiftRight);
      var c := ch.value;
      if IsEnter(c) {
        var line := lineEdit + [NEWLINE];
        lineEdit := [];
        if |readyLines| < MAX_READY_LINES {
          readyLines := readyLines + [line];
        }
      } else if IsErase(c) {
        if lineEdit != [] {
          lineEdit := lineEdit[..|lineEdit| - 1];
        }
      } else if |lineEdit| < LINE_BUF {
        lineEdit := lineEdit + [c as int];
      }
    }

    /** A read with no line ready returns zero bytes, or EAGAIN (-11) when non-blocking. */
    method Read(n: nat, nonblock: bool) returns (r: Result<nat, int>, dst: Bytes)
      modifies this`readyLines
      ensures (View(), dst) == ReadBytes(old(View()), n)
      ensures r == if old(readyLines) == [] && nonblock then Failure(-11) else Success(|dst|)
    {
      dst := [];
      if readyLines == [] {
        return if nonblock then Failure(-11) else Success(0), dst;
      }
      var line := readyLines[0];
      readyLines := readyLines[1..];
      var m := Min(|line|, n);
      dst := line[..m];
      if m < |line| {
        readyLines := [line[m..]] + readyLines;
      }
      r := Success(m);
    }
  }

  // ----- the declarative reading of a scancode stream -----

  /** Without every E0 and the byte after it. */
  function Strip(codes: Bytes): Bytes {
    if codes == [] then []
    else if codes[0] == 0xE0 then (if |codes| == 1 then [] else Strip(codes[2..]))
    else [codes[0]] + Strip(codes[1..])
  }

  /** The stream ends right after an E0 that still swallows the next byte. */
  predicate EndsInPrefix(codes: Bytes) {
    codes != [] && if codes[0] == 0xE0 then |codes| == 1 || EndsInPrefix(codes[2..]) else EndsInPrefix(codes[1..])
  }

  /** The key was last pressed, not released. */
  predicate Held(s: Bytes, make: byte)
    requires make < 0x80
  {
    s != [] && var last := s[|s| - 1];
    if last == make then true else if last == make + 0x80 then false else Held(s[..|s| - 1], make)
  }

  predicate IsKey(code: byte) {
    code < 0x80 && code != LEFT && code != RIGHT
  }

  /** The characters typed, each under the shift state of its moment. */
  function Chars(s: Bytes): seq<char> {
    if s == [] then []
    else
      var before, last := s[..|s| - 1], s[|s| - 1];
      var c := CharFor(last, Held(before, LEFT) || Held(before, RIGHT));
      Chars(before) + if IsKey(last) && c.Some? then [c.value] else []
  }

  /** What a stretch of typing without Enter leaves in the edit buffer. */
  function Edited(cs: seq<char>): Bytes {
    if cs == [] then []
    else
      var b, c := Edited(cs[..|cs| - 1]), cs[|cs| - 1];
      if IsErase(c) then Erase(b) else Append(b, c)
  }

  /** The characters after the last Enter. */
  function LastSegment(cs: seq<char>): seq<char> {
    if cs == [] || IsEnter(cs[|cs| - 1]) then [] else LastSegment(cs[..|cs| - 1]) + [cs[|cs| - 1]]
  }

  /** The lines completed by an Enter, in order. */
  function Lines(cs: seq<char>): seq<Bytes> {
    if cs == [] then []
    else
      var before := cs[..|cs| - 1];
      Lines(before) + if IsEnter(cs[|cs| - 1]) then [Edited(LastSegment(before)) + [NEWLINE]] else []
  }

  function TypedLines(codes: Bytes): seq<Bytes> {
    Lines(Chars(Strip(codes)))
  }

  /** The state has the flags and edit buffer that the stream `codes` calls for. */
  ghost predicate Reflects(t: State, codes: Bytes) {
    var s := Strip(codes);
    && t.e0Prefix == EndsInPrefix(codes)
    && t.shiftLeft == Held(s, LEFT) && t.shiftRight == Held(s, RIGHT)
    && t.line == Edited(LastSegment(Chars(s)))
  }

  lemma {:induction false} StripSnoc(codes: Bytes, c: byte)
    ensures EndsInPrefix(codes + [c]) == (!EndsInPrefix(codes) && c == 0xE0)
    ensures Strip(codes + [c]) == if EndsInPrefix(codes) || c == 0xE0 then Strip(codes) else Strip(codes) + [c]
    decreases |codes|
  {
    var all := codes + [c];
    if codes == [] {
      assert all[1..] == [];
    } else if codes[0] != 0xE0 {
      StripSnoc(codes[1..], c);
      assert all[1..] == codes[1..] + [c];
    } else if |codes| == 1 {
      assert all[2..] == [];
    } else {
      StripSnoc(codes[2..], c);
      assert all[2..] == codes[2..] + [c];
    }
  }

  /** One scancode moves the state as the reading of the longer stream demands, and queues the line it completes
      exactly when the queue has room. */
  lemma FeedReflects(t: State, codes: Bytes, c: byte)
    requires Reflects(t, codes)
    ensures Reflects(Feed(t, c), codes + [c])
    ensures TypedLines(codes) <= TypedLines(codes + [c]) && |TypedLines(codes + [c])| <= |TypedLines(codes)| + 1
    ensures Feed(t, c).ready == t.ready + (if |t.ready| < MAX_READY_LINES
                                           then TypedLines(codes + [c])[|TypedLines(codes)|..] else [])
  {
    hide ScancodeToChar, ShiftedChar;
    StripSnoc(codes, c);
    var s := Strip(codes);
    if !t.e0Prefix && c != 0xE0 {
      var s' := s + [c];
      assert s'[..|s'| - 1] == s;
      KeySnoc(t, s, c);
    } else {
      assert TypedLines(codes + [c])[|TypedLines(codes)|..] == [];
    }
  }

  lemma KeySnoc(t: State, s: Bytes, c: byte)
    requires t.shiftLeft == Held(s, LEFT) && t.shiftRight == Held(s, RIGHT)
    requires t.line == Edited(LastSegment(Chars(s))) && !t.e0Prefix && c != 0xE0
    ensures var t', s' := Feed(t, c), s + [c];
            && !t'.e0Prefix && t'.shiftLeft == Held(s', LEFT) && t'.shiftRight == Held(s', RIGHT)
            && t'.line == Edited(LastSegment(Chars(s')))
            && Lines(Chars(s)) <= Lines(Chars(s')) && |Lines(Chars(s'))| <= |Lines(Chars(s))| + 1
            && t'.ready == t.ready + (if |t.ready| < MAX_READY_LINES then Lines(Chars(s'))[|Lines(Chars(s))|..] else [])
  {
    hide CharFor, Held, Chars, Lines, LastSegment, Edited, Erase, Append, IsErase;
    var cs := Chars(s);
    var ch := CharFor(c, t.shiftLeft || t.shiftRight);
    HeldSnoc(s, c, LEFT);
    HeldSnoc(s, c, RIGHT);
    CharsSnoc(s, c);
    if IsKey(c) && ch.Some? {
      CharSnoc(cs, ch.value);
    } else {
      assert Chars(s + [c]) == cs;
    }
  }

  lemma HeldSnoc(s: Bytes, c: byte, make: byte)
    requires make < 0x80
    ensures Held(s + [c], make) == if c == make then true else if c == make + 0x80 then false else Held(s, make)
  {
    assert (s + [c])[..|s|] == s;
  }

  lemma CharsSnoc(s: Bytes, c: byte)
    ensures var ch := CharFor(c, Held(s, LEFT) || Held(s, RIGHT));
            Chars(s + [c]) == Chars(s) + if IsKey(c) && ch.Some? then [ch.value] else []
  {
    hide CharFor, Held;
    assert (s + [c])[..|s|] == s;
  }

  lemma CharSnoc(cs: seq<char>, c: char)
    ensures LastSegment(cs + [c]) == if IsEnter(c) then [] else LastSegment(cs) + [c]
    ensures Lines(cs + [c]) == Lines(cs) + if IsEnter(c) then [Edited(LastSegment(cs)) + [NEWLINE]] else []
    ensures Edited([]) == []
    ensures !IsEnter(c) ==> Edited(LastSegment(cs) + [c])
                            == if IsErase(c) then Erase(Edited(LastSegment(cs))) else Append(Edited(LastSegment(cs)), c)
  {
    var cs' := cs + [c];
    assert cs'[..|cs'| - 1] == cs;
    var seg := LastSegment(cs) + [c];
    assert seg[..|seg| - 1] == LastSegment(cs);
  }

  // ----- sessions: any interleaving of scancodes and reads -----

  datatype Op = Scan(code: byte) | ReadUpTo(n: nat)

  /** The machine with all lines it queued so far and all bytes it handed out. */
  datatype Session = Session(t: State, accepted: seq<Bytes>, returned: Bytes)

  function Do(s: Session, op: Op): Session {
    match op
    case Scan(c) =>
      var t := Feed(s.t, c);
      Session(t, s.accepted + if |s.t.ready| <= |t.ready| then t.ready[|s.t.ready|..] else [], s.returned)
    case ReadUpTo(n) =>
      var (t, out) := ReadBytes(s.t, n);
      Session(t, s.accepted, s.returned + out)
  }

  function Play(ops: seq<Op>): Session
    decreases |ops|
  {
    if ops == [] then Session(INIT, [], []) else Do(Play(ops[..|ops| - 1]), ops[|ops| - 1])
  }

  /** A fresh TTY, driven by any sequence of scancodes and reads, ends in the state of the session and has handed out
      its bytes. */
  method PlaySession(tty: TtyState, ops: seq<Op>) returns (returned: Bytes)
    requires tty.View() == INIT
    modifies tty
    ensures tty.View() == Play(ops).t && returned == Play(ops).returned
  {
    hide Feed, ReadBytes;
    returned := [];
    for i := 0 to |ops|
      invariant tty.View() == Play(ops[..i]).t && returned == Play(ops[..i]).returned
    {
      assert ops[..i + 1][..i] == ops[..i];
      match ops[i] {
        case Scan(c) =>
          tty.FeedScancode(c);
        case ReadUpTo(n) =>
          var _, dst := tty.Read(n, true);
          returned := returned + dst;
      }
    }
    assert ops[..|ops|] == ops;
  }

  /** The scancodes of a session. */
  function Codes(ops: seq<Op>): Bytes {
    if ops == [] then []
    else
      var last := ops[|ops| - 1];
      Codes(ops[..|ops| - 1]) + if last.Scan? then [last.code] else []
  }

  /** However reads are interleaved, flags and edit buffer are the declarative reading of the scancodes alone. */
  lemma {:induction false} SessionReflects(ops: seq<Op>)
    ensures Reflects(Play(ops).t, Codes(ops))
    decreases |ops|
  {
    hide Feed, Reflects, ReadBytes;
    if ops == [] {
      EmptyReflects();
    } else {
      var before, last := ops[..|ops| - 1], ops[|ops| - 1];
      SessionReflects(before);
      if last.Scan? {
        FeedReflects(Play(before).t, Codes(before), last.code);
      } else {
        ReadKeepsEditing(Play(before).t, Codes(before), last.n);
        assert Codes(ops) == Codes(before);
      }
    }
  }

  lemma EmptyReflects()
    ensures Reflects(INIT, [])
  {
  }

  lemma ReadKeepsEditing(t: State, codes: Bytes, n: nat)
    requires Reflects(t, codes)
    ensures Reflects(ReadBytes(t, n).0, codes)
  {
  }

  /** At any point of any session, a scancode queues the line the stream then completes, if the queue has room for
      it, and nothing else. */
  lemma ScanQueuesTypedLine(ops: seq<Op>, c: byte)
    ensures var t, codes := Play(ops).t, Codes(ops);
            && TypedLines(codes) <= TypedLines(codes + [c]) && |TypedLines(codes + [c])| <= |TypedLines(codes)| + 1
            && Feed(t, c).ready == t.ready + (if |t.ready| < MAX_READY_LINES
                                              then TypedLines(codes + [c])[|TypedLines(codes)|..] else [])
  {
    SessionReflects(ops);
    FeedReflects(Play(ops).t, Codes(ops), c);
  }

  /** Without reads, the queue holds the first 128 typed lines. */
  lemma {:induction false} UnreadQueue(ops: seq<Op>)
    requires forall op | op in ops :: op.Scan?
    ensures var lines := TypedLines(Codes(ops));
            Play(ops).t.ready == if |lines| <= MAX_READY_LINES then lines else lines[..MAX_READY_LINES]
    decreases |ops|
  {
    hide Feed, TypedLines;
    if ops == [] {
      NothingTyped();
    } else {
      var before, last := ops[..|ops| - 1], ops[|ops| - 1];
      assert last in ops;
      UnreadQueue(before);
      ScanQueuesTypedLine(before, last.code);
    }
  }

  lemma NothingTyped()
    ensures TypedLines([]) == []
  {
  }

  // ----- conservation -----

  function Flat(chunks: seq<Bytes>): Bytes {
    if chunks == [] then [] else chunks[0] + Flat(chunks[1..])
  }

  lemma {:induction false} FlatAppend(a: seq<Bytes>, b: seq<Bytes>)
    ensures Flat(a + b) == Flat(a) + Flat(b)
    decreases |a|
  {
    if a == [] {
      assert a + b == b;
    } else {
      FlatAppend(a[1..], b);
      assert (a + b)[1..] == a[1..] + b;
      assert a[0] + (Flat(a[1..]) + Flat(b)) == a[0] + Flat(a[1..]) + Flat(b);
    }
  }

  /** A chunk is nonempty and has a newline as its last byte only. */
  predicate IsChunk(b: Bytes) {
    b != [] && b[|b| - 1] == NEWLINE && NEWLINE !in b[..|b| - 1]
  }

  ghost predicate QueueShape(t: State) {
    |t.ready| <= MAX_READY_LINES && NEWLINE !in t.line && forall b | b in t.ready :: IsChunk(b)
  }

  /** What a read hands out contains a newline only as its last byte, so no read crosses a line. */
  predicate WithinLine(out: Bytes) {
    out == [] || NEWLINE !in out[..|out| - 1]
  }

  /** A read takes from the front, as much of the first chunk as it has room for and none of the next. */
  lemma ReadConserves(t: State, n: nat)
    requires QueueShape(t)
    ensures var (t', out) := ReadBytes(t, n);
            && QueueShape(t') && WithinLine(out) && out + Flat(t'.ready) == Flat(t.ready)
            && |out| == (if t.ready == [] then 0 else Min(|t.ready[0]|, n))
            && (t.ready != [] && n > 0 ==> out != [])
  {
    if t.ready != [] {
      var line, rest := t.ready[0], t.ready[1..];
      assert line in t.ready && IsChunk(line);
      var m := Min(|line|, n);
      var (t', out) := ReadBytes(t, n);
      if m < |line| {
        var tail := line[m..];
        assert tail[..|tail| - 1] == line[..|line| - 1][m..];
        assert ([tail] + rest)[1..] == rest;
        assert line[..m] + (tail + Flat(rest)) == line + Flat(rest);
        assert out == line[..|line| - 1][..m];
      } else {
        assert line[..m] == line;
      }
      forall b | b in t'.ready ensures IsChunk(b) {
        assert b in rest ==> b in t.ready;
      }
    }
  }

  lemma FeedShape(t: State, c: byte)
    requires QueueShape(t)
    ensures QueueShape(Feed(t, c)) && t.ready <= Feed(t, c).ready
  {
    hide ScancodeToChar, ShiftedChar;
    var line := t.line + [NEWLINE];
    assert line[..|line| - 1] == t.line;
    assert t.line != [] ==> forall x | x in Erase(t.line) :: x in t.line;
  }

  /** For every interleaving of scancodes and reads of any sizes: the bytes returned so far followed by the queued
      chunks are the accepted lines in order, chunks are well formed and the queue stays within its bound. */
  lemma {:induction false} StreamConserved(ops: seq<Op>)
    ensures var s := Play(ops);
            s.returned + Flat(s.t.ready) == Flat(s.accepted) && QueueShape(s.t)
    decreases |ops|
  {
    hide Feed, QueueShape, ReadBytes, Flat;
    if ops == [] {
      NothingQueued();
    } else {
      var s, op := Play(ops[..|ops| - 1]), ops[|ops| - 1];
      StreamConserved(ops[..|ops| - 1]);
      var s' := Play(ops);
      if op.Scan? {
        FeedShape(s.t, op.code);
        var added := s'.t.ready[|s.t.ready|..];
        assert s'.t.ready == s.t.ready + added;
        FlatAppend(s.t.ready, added);
        FlatAppend(s.accepted, added);
        assert s.returned + (Flat(s.t.ready) + Flat(added)) == s.returned + Flat(s.t.ready) + Flat(added);
      } else {
        ReadConserves(s.t, op.n);
        var (t', out) := ReadBytes(s.t, op.n);
        assert s.returned + (out + Flat(t'.ready)) == s.returned + out + Flat(t'.ready);
      }
    }
  }

  lemma NothingQueued()
    ensures QueueShape(INIT) && Flat([]) == []
  {
  }
}
