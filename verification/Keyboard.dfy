/** The scancode ring and key map of src/keyboard.rs. */
module Keyboard {
  import opened Basics

  const SCANCODE_BUF_SIZE: nat := 256

  // ----- the ring -----

  /** The bytes between head and tail of a ring, oldest first. */
  function Between(s: seq<byte>, head: nat, tail: nat): seq<byte>
    requires head < |s| && tail < |s|
  {
    if head <= tail then s[head..tail] else s[head..] + s[..tail]
  }

  lemma AfterPush(s: seq<byte>, head: nat, tail: nat, b: byte)
    requires |s| == SCANCODE_BUF_SIZE && head < |s| && tail < |s|
    ensures var next := (tail + 1) % |s|;
            && (next == head <==> |Between(s, head, tail)| == |s| - 1)
            && (next != head ==> Between(s[tail := b], head, next) == Between(s, head, tail) + [b])
  {
    var next := (tail + 1) % |s|;
    if next != head {
      var w := s[tail := b];
      if next == 0 {
        assert w[head..] + w[..0] == s[head..tail] + [b];
      } else if head <= tail {
        assert w[head..next] == s[head..tail] + [b];
      } else {
        assert w[..next] == s[..tail] + [b];
        assert w[head..] == s[head..];
      }
    }
  }

  lemma AfterPop(s: seq<byte>, head: nat, tail: nat)
    requires |s| == SCANCODE_BUF_SIZE && head < |s| && tail < |s| && head != tail
    ensures var c := Between(s, head, tail);
            c != [] && c[0] == s[head] && Between(s, (head + 1) % |s|, tail) == c[1..]
  {
    if head < tail {
      assert s[head..tail][1..] == s[head + 1..tail];
    } else {
      PopWrapped(s, head, tail);
    }
  }

  lemma PopWrapped(s: seq<byte>, head: nat, tail: nat)
    requires |s| == SCANCODE_BUF_SIZE && tail < head < |s|
    ensures var c := s[head..] + s[..tail];
            c[0] == s[head] && Between(s, (head + 1) % |s|, tail) == c[1..]
  {
    var c := s[head..] + s[..tail];
    if head + 1 == |s| {
      assert s[head..] == [s[head]];
      assert c[1..] == s[0..tail];
    } else {
      assert c[1..] == s[head + 1..] + s[..tail];
    }
  }

  class ScancodeQueue {
    const buf: array<byte>
    var head: nat
    var tail: nat

    ghost predicate Valid()
      reads this
    {
      buf.Length == SCANCODE_BUF_SIZE && head < SCANCODE_BUF_SIZE && tail < SCANCODE_BUF_SIZE
    }

    ghost function Contents(): seq<byte>
      requires Valid()
      reads this, buf
    {
      Between(buf[..], head, tail)
    }

    constructor ()
      ensures Valid() && Contents() == []
    {
      buf := new byte[SCANCODE_BUF_SIZE](_ => 0);
      head, tail := 0, 0;
    }

    /** One slot stays empty: the ring holds at most 255 bytes, and a refused push changes nothing. */
    method TryPush(b: byte) returns (ok: bool)
      requires Valid()
      modifies this`tail, buf
      ensures Valid()
      ensures ok == (|old(Contents())| < 255)
      ensures Contents() == if ok then old(Contents()) + [b] else old(Contents())
      ensures !ok ==> tail == old(tail) && buf[..] == old(buf[..])
    {
      AfterPush(buf[..], head, tail, b);
      hide Between;
      var next := (tail + 1) % SCANCODE_BUF_SIZE;
      if next == head {
        return false;
      }
      ghost var was := buf[..];
      buf[tail] := b;
      assert buf[..] == was[tail := b];
      tail := next;
      ok := true;
    }

    method TryPop() returns (r: Option<byte>)
      requires Valid()
      modifies this`head
      ensures Valid()
      ensures old(Contents()) == [] ==> r == None && Contents() == []
      ensures old(Contents()) != [] ==> r == Some(old(Contents())[0]) && Contents() == old(Contents())[1..]
    {
      if head == tail {
        return None;
      }
      AfterPop(buf[..], head, tail);
      hide Between;
      var b := buf[head];
      head := (head + 1) % SCANCODE_BUF_SIZE;
      r := Some(b);
    }
  }

  // ----- whole runs of the ring -----

  datatype RingOp = Push(b: byte) | Pop

  /** The queue's contents with the bytes accepted and returned so far. */
  datatype Ring = Ring(contents: seq<byte>, accepted: seq<byte>, popped: seq<byte>)

  function RingStep(r: Ring, op: RingOp): Ring {
    match op
    case Push(b) =>
      if |r.contents| < SCANCODE_BUF_SIZE - 1 then Ring(r.contents + [b], r.accepted + [b], r.popped) else r
    case Pop =>
      if r.contents == [] then r else Ring(r.contents[1..], r.accepted, r.popped + [r.contents[0]])
  }

  function RingRun(r: Ring, ops: seq<RingOp>): Ring
    decreases |ops|
  {
    if ops == [] then r else RingRun(RingStep(r, ops[0]), ops[1..])
  }

  /** Pops return the accepted bytes once each, in order; what is left is what was accepted and not yet popped. */
  lemma {:induction false} RingIsFifo(r: Ring, ops: seq<RingOp>)
    requires r.popped + r.contents == r.accepted && |r.contents| <= 255
    ensures var r' := RingRun(r, ops);
            && r'.popped + r'.contents == r'.accepted && |r'.contents| <= 255
            && r.accepted <= r'.accepted && r.popped <= r'.popped
    decreases |ops|
  {
    if ops != [] {
      var r1 := RingStep(r, ops[0]);
      assert r1.popped + r1.contents == r1.accepted by {
        if ops[0].Push? {
          assert r.popped + (r.contents + [ops[0].b]) == (r.popped + r.contents) + [ops[0].b];
        } else if r.contents != [] {
          assert r.popped + [r.contents[0]] + r.contents[1..] == r.popped + r.contents;
        }
      }
      RingIsFifo(r1, ops[1..]);
    }
  }

  lemma {:induction false} RunSnoc(r: Ring, ops: seq<RingOp>, op: RingOp)
    ensures RingRun(r, ops + [op]) == RingStep(RingRun(r, ops), op)
    decreases |ops|
  {
    if ops == [] {
      assert [op][1..] == [];
    } else {
      assert (ops + [op])[1..] == ops[1..] + [op];
      RunSnoc(RingStep(r, ops[0]), ops[1..], op);
    }
  }

  /** The array ring, driven by any sequence of pushes and pops, does what the run says: these bytes are accepted, these
      come back. */
  method PlayRing(q: ScancodeQueue, ops: seq<RingOp>) returns (accepted: seq<byte>, popped: seq<byte>)
    requires q.Valid()
    modifies q, q.buf
    ensures q.Valid()
    ensures Ring(q.Contents(), accepted, popped) == RingRun(Ring(old(q.Contents()), [], []), ops)
  {
    hide RingRun;
    accepted, popped := [], [];
    ghost var r0 := Ring(q.Contents(), [], []);
    assert ops[..0] == [] && Ring(q.Contents(), [], []) == RingRun(r0, []) by { EmptyRun(r0); }
    for i := 0 to |ops|
      invariant q.Valid() && Ring(q.Contents(), accepted, popped) == RingRun(r0, ops[..i])
    {
      assert ops[..i + 1] == ops[..i] + [ops[i]];
      RunSnoc(r0, ops[..i], ops[i]);
      match ops[i] {
        case Push(b) =>
          var ok := q.TryPush(b);
          accepted := if ok then accepted + [b] else accepted;
        case Pop =>
          var got := q.TryPop();
          popped := if got.Some? then popped + [got.value] else popped;
      }
    }
    assert ops[..|ops|] == ops;
  }

  lemma EmptyRun(r: Ring)
    ensures RingRun(r, []) == r
  {
  }

  // ----- the key map -----

  /** The character of a row of keys that starts at scancode `first`. */
  function Row(keys: string, first: nat, code: nat): Option<char> {
    if first <= code < first + |keys| then Some(keys[code - first]) else None
  }

  function Or(a: Option<char>, b: Option<char>): Option<char> {
    if a.Some? then a else b
  }

  /** `scancode_to_char`: make code of set 1 to the unshifted US character. */
  function ScancodeToChar(code: nat): Option<char> {
    if code >= 0x80 then None
    else
      match code
      case 0x01 => Some(27 as char)
      case 0x0E => Some(8 as char)
      case 0x0F => Some('\t')
      case 0x1C => Some('\n')
      case 0x39 => Some(' ')
      case 0x29 => Some('`')
      case 0x2B => Some('\\')
      case 0x37 => Some('*')
      case _ =>
        Or(Row("1234567890-=", 0x02, code),
           Or(Row("qwertyuiop[]", 0x10, code),
              Or(Row("asdfghjkl;'", 0x1E, code),
                 Or(Row("zxcvbnm,./", 0x2C, code),
                    Row("789-456+1230.", 0x47, code)))))
  }
}
