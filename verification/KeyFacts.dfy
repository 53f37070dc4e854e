/** The keyboard key by key, and what typing on it leaves in the line: the partner of the key map and the line editor
    of `Keyboard` and `Tty`. */
module KeyFacts {
  import opened Basics
  import opened Keyboard
  import opened Tty

  // ----- the key map, by character -----

  lemma LettersAToG()
    ensures ScancodeToChar(0x1E) == Some('a') && ScancodeToChar(0x30) == Some('b') && ScancodeToChar(0x2E) == Some('c')
    ensures ScancodeToChar(0x20) == Some('d') && ScancodeToChar(0x12) == Some('e') && ScancodeToChar(0x21) == Some('f')
    ensures ScancodeToChar(0x22) == Some('g')
  {
  }

  lemma LettersHToM()
    ensures ScancodeToChar(0x23) == Some('h') && ScancodeToChar(0x17) == Some('i') && ScancodeToChar(0x24) == Some('j')
    ensures ScancodeToChar(0x25) == Some('k') && ScancodeToChar(0x26) == Some('l') && ScancodeToChar(0x32) == Some('m')
  {
  }

  lemma LettersNToT()
    ensures ScancodeToChar(0x31) == Some('n') && ScancodeToChar(0x18) == Some('o') && ScancodeToChar(0x19) == Some('p')
    ensures ScancodeToChar(0x10) == Some('q') && ScancodeToChar(0x13) == Some('r') && ScancodeToChar(0x1F) == Some('s')
    ensures ScancodeToChar(0x14) == Some('t')
  {
  }

  lemma LettersUToZ()
    ensures ScancodeToChar(0x16) == Some('u') && ScancodeToChar(0x2F) == Some('v') && ScancodeToChar(0x11) == Some('w')
    ensures ScancodeToChar(0x2D) == Some('x') && ScancodeToChar(0x15) == Some('y') && ScancodeToChar(0x2C) == Some('z')
  {
  }

  lemma NoLetterOnTop(code: byte)
    requires 0x02 <= code <= 0x0D || code == 0x29 || code == 0x2B || 0x33 <= code <= 0x35
    ensures ScancodeToChar(code).Some? && !(97 <= ScancodeToChar(code).value as int <= 122)
  {
  }

  /** With shift held, every letter key gives its capital. */
  lemma ShiftedLetters(code: byte)
    requires ScancodeToChar(code).Some? && 97 <= ScancodeToChar(code).value as int <= 122
    ensures ShiftedChar(code) == Some((ScancodeToChar(code).value as int - 32) as char)
  {
    hide ScancodeToChar;
    if 0x02 <= code <= 0x0D || code == 0x29 || code == 0x2B || 0x33 <= code <= 0x35 {
      NoLetterOnTop(code);
      assert false;
    }
  }

  lemma DigitsOneToFive()
    ensures ScancodeToChar(0x02) == Some('1') && ScancodeToChar(0x03) == Some('2') && ScancodeToChar(0x04) == Some('3')
    ensures ScancodeToChar(0x05) == Some('4') && ScancodeToChar(0x06) == Some('5')
  {
  }

  lemma DigitsSixToZero()
    ensures ScancodeToChar(0x07) == Some('6') && ScancodeToChar(0x08) == Some('7') && ScancodeToChar(0x09) == Some('8')
    ensures ScancodeToChar(0x0A) == Some('9') && ScancodeToChar(0x0B) == Some('0')
  {
  }

  lemma ShiftedDigits()
    ensures ShiftedChar(0x02) == Some('!') && ShiftedChar(0x03) == Some('@') && ShiftedChar(0x04) == Some('#')
    ensures ShiftedChar(0x05) == Some('$') && ShiftedChar(0x06) == Some('%') && ShiftedChar(0x07) == Some('^')
    ensures ShiftedChar(0x08) == Some('&') && ShiftedChar(0x09) == Some('*') && ShiftedChar(0x0A) == Some('(')
    ensures ShiftedChar(0x0B) == Some(')')
  {
  }

  lemma Punctuation()
    ensures ScancodeToChar(0x0C) == Some('-') && ScancodeToChar(0x0D) == Some('=') && ScancodeToChar(0x1A) == Some('[')
    ensures ScancodeToChar(0x1B) == Some(']') && ScancodeToChar(0x27) == Some(';') && ScancodeToChar(0x28) == Some('\'')
    ensures ScancodeToChar(0x29) == Some('`') && ScancodeToChar(0x2B) == Some('\\') && ScancodeToChar(0x33) == Some(',')
    ensures ScancodeToChar(0x34) == Some('.') && ScancodeToChar(0x35) == Some('/') && ScancodeToChar(0x39) == Some(' ')
    ensures ShiftedChar(0x0C) == Some('_') && ShiftedChar(0x0D) == Some('+') && ShiftedChar(0x1A) == Some('[')
    ensures ShiftedChar(0x1B) == Some(']') && ShiftedChar(0x27) == Some(';') && ShiftedChar(0x28) == Some('\'')
    ensures ShiftedChar(0x29) == Some('~') && ShiftedChar(0x2B) == Some('|') && ShiftedChar(0x33) == Some('<')
    ensures ShiftedChar(0x34) == Some('>') && ShiftedChar(0x35) == Some('?') && ShiftedChar(0x39) == Some(' ')
  {
  }

  lemma KeypadSevenToFive()
    ensures ScancodeToChar(0x47) == Some('7') && ScancodeToChar(0x48) == Some('8') && ScancodeToChar(0x49) == Some('9')
    ensures ScancodeToChar(0x4B) == Some('4') && ScancodeToChar(0x4C) == Some('5')
  {
  }

  lemma KeypadSixToZero()
    ensures ScancodeToChar(0x4D) == Some('6') && ScancodeToChar(0x4F) == Some('1') && ScancodeToChar(0x50) == Some('2')
    ensures ScancodeToChar(0x51) == Some('3') && ScancodeToChar(0x52) == Some('0')
  {
  }

  lemma KeypadSigns()
    ensures ScancodeToChar(0x53) == Some('.') && ScancodeToChar(0x4A) == Some('-') && ScancodeToChar(0x4E) == Some('+')
    ensures ScancodeToChar(0x37) == Some('*')
  {
  }

  /** Escape, Backspace, Tab and Enter, with or without shift. */
  lemma ControlKeys(shifted: bool)
    ensures CharFor(0x01, shifted) == Some(27 as char) && CharFor(0x0E, shifted) == Some(8 as char)
    ensures CharFor(0x0F, shifted) == Some(9 as char) && CharFor(0x1C, shifted) == Some(10 as char)
  {
  }

  /** Shift changes no other key than letters, the digit row and five of the punctuation keys. */
  lemma ShiftLeaves(code: byte)
    requires !(0x02 <= code <= 0x0D) && code != 0x29 && code != 0x2B && !(0x33 <= code <= 0x35)
    requires ScancodeToChar(code).Some? ==> !(97 <= ScancodeToChar(code).value as int <= 122)
    ensures ShiftedChar(code) == ScancodeToChar(code)
  {
    hide ScancodeToChar;
  }

  /** Modifiers, locks, function keys and every code from 0x54 up give no character. */
  lemma SilentKeys(code: byte, shifted: bool)
    requires || code == 0 || code == 0x1D || code == 0x2A || code == 0x36 || code == 0x38
             || 0x3A <= code <= 0x46 || code >= 0x54
    ensures CharFor(code, shifted) == None
  {
  }

  // ----- the line editor -----

  /** Backspace takes back the key before it, as long as the buffer had room for that key. */
  lemma EraseUndoesAppend(line: Bytes, c: char)
    requires c as int < 128
    ensures |line| < 1024 ==> Append(line, c) == line + [c as int] && Erase(Append(line, c)) == line
    ensures |line| >= 1024 ==> Append(line, c) == line
    ensures Erase([]) == []
  {
  }

  predicate Plain(c: char) {
    c as int < 128 && c as int != 8 && c as int != 127 && c as int != 10 && c as int != 13
  }

  /** Plain text, with neither Enter nor Backspace in it, is in the buffer as typed, up to 1024 characters of it. */
  lemma {:induction false} TextAsTyped(cs: seq<char>)
    requires forall c | c in cs :: Plain(c)
    ensures |Edited(cs)| == Min(|cs|, 1024) && forall i | 0 <= i < |Edited(cs)| :: Edited(cs)[i] == cs[i] as int
    decreases |cs|
  {
    if cs != [] {
      assert cs[|cs| - 1] in cs;
      assert forall c | c in cs[..|cs| - 1] :: c in cs;
      TextAsTyped(cs[..|cs| - 1]);
    }
  }

  /** One key at a time, to a state that expects no second byte of an extended code: Enter ends the line and queues it
      if there is room, Backspace shortens it, and every other character, Tab and Escape among them, lengthens it below
      1024 bytes and does nothing from there on. */
  lemma FeedKey(t: State, code: byte, c: char)
    requires !t.e0Prefix && code < 0x80 && code != 0x2A && code != 0x36
    requires CharFor(code, t.shiftLeft || t.shiftRight) == Some(c)
    ensures c as int in {10, 13} && |t.ready| < 128 ==>
              Feed(t, code) == t.(line := [], ready := t.ready + [t.line + [10]])
    ensures c as int in {10, 13} && |t.ready| >= 128 ==> Feed(t, code) == t.(line := [])
    ensures c as int in {8, 127} ==>
              Feed(t, code) == t.(line := if t.line == [] then [] else t.line[..|t.line| - 1])
    ensures c as int !in {8, 10, 13, 127} && |t.line| < 1024 ==>
              c as int < 128 && Feed(t, code) == t.(line := t.line + [c as int])
    ensures c as int !in {8, 10, 13, 127} && |t.line| >= 1024 ==> Feed(t, code) == t
  {
    KeysAreAscii(code, t.shiftLeft || t.shiftRight);
    hide CharFor;
  }

  predicate NoEnter(c: char) {
    c as int != 10 && c as int != 13
  }

  /** Text without Enter completes no line and is all after the last Enter. */
  lemma {:induction false} NoLineWithoutEnter(cs: seq<char>)
    requires forall c | c in cs :: NoEnter(c)
    ensures Lines(cs) == [] && LastSegment(cs) == cs
    decreases |cs|
  {
    hide Lines, LastSegment, NoEnter;
    if cs == [] {
      NothingYet();
    } else {
      var n := |cs| - 1;
      var before, c := cs[..n], cs[n];
      assert c in cs && forall x | x in before :: x in cs;
      NoLineWithoutEnter(before);
      OneMoreChar(before, c);
      assert cs == before + [c];
    }
  }

  lemma NothingYet()
    ensures Lines([]) == [] && LastSegment([]) == []
  {
  }

  lemma OneMoreChar(before: seq<char>, c: char)
    requires NoEnter(c)
    ensures Lines(before + [c]) == Lines(before) && LastSegment(before + [c]) == LastSegment(before) + [c]
  {
    hide Edited;
    var cs := before + [c];
    assert cs[..|cs| - 1] == before && cs[|cs| - 1] == c;
  }

  /** The texts one after the other, Enter behind each of them, and a last one that is not yet ended. */
  function Typing(texts: seq<seq<char>>, last: seq<char>): seq<char> {
    if texts == [] then last else Typing(texts[..|texts| - 1], texts[|texts| - 1] + [10 as char] + last)
  }

  function Code(c: char): byte
    requires Plain(c)
  {
    c as int
  }

  predicate Short(text: seq<char>) {
    |text| <= 1024 && forall i | 0 <= i < |text| :: Plain(text[i])
  }

  function CodesOf(text: seq<char>): Bytes
    requires Short(text)
  {
    seq(|text|, i requires 0 <= i < |text| => Code(text[i]))
  }

  /** What is typed is what is queued: of texts of at most 1024 characters without Enter or Backspace, each ended with
      Enter, every one becomes a line, its codes followed by 10, and the rest stays in the buffer. */
  lemma {:induction false} LinesAsTyped(texts: seq<seq<char>>, last: seq<char>)
    requires Short(last) && forall t | t in texts :: Short(t)
    ensures var cs := Typing(texts, last);
            && LastSegment(cs) == last && Edited(LastSegment(cs)) == CodesOf(last)
            && |Lines(cs)| == |texts|
            && forall i | 0 <= i < |texts| :: Short(texts[i]) && Lines(cs)[i] == CodesOf(texts[i]) + [10]
    decreases |texts|
  {
    hide Lines, LastSegment, Edited, Short, CodesOf;
    ShortAsTyped(last);
    if texts == [] {
      NoLineWithoutEnter(last);
    } else {
      var n := |texts| - 1;
      var rest, text := texts[..n], texts[n];
      assert text in texts;
      assert forall t | t in rest :: t in texts;
      LinesAsTyped(rest, text);
      OneMoreText(texts, last);
      EnterThenText(Typing(rest, text), last);
    }
  }

  /** So a keyboard on which these texts are typed, with whatever shifts, releases and extended codes in between, has
      exactly these lines ready and the last text in the buffer; with no Enter at all, nothing is ready. */
  lemma StreamAsTyped(ops: seq<Op>, texts: seq<seq<char>>, last: seq<char>)
    requires (forall op | op in ops :: op.Scan?) && Chars(Strip(Codes(ops))) == Typing(texts, last)
    requires Short(last) && |texts| <= 128 && forall t | t in texts :: Short(t)
    ensures var t := Play(ops).t;
            && t.line == CodesOf(last) && |t.ready| == |texts|
            && forall i | 0 <= i < |texts| :: Short(texts[i]) && t.ready[i] == CodesOf(texts[i]) + [10]
  {
    hide Chars, Strip, Typing, Short, CodesOf, Lines, LastSegment, Edited, Held, EndsInPrefix;
    LinesAsTyped(texts, last);
    UnreadQueue(ops);
    SessionReflects(ops);
  }

  lemma ShortAsTyped(text: seq<char>)
    requires Short(text)
    ensures Edited(text) == CodesOf(text) && (forall c | c in text :: Plain(c)) && forall c | c in text :: NoEnter(c)
  {
    hide Edited;
    assert forall c | c in text :: Plain(c);
    TextAsTyped(text);
  }

  lemma OneMoreText(texts: seq<seq<char>>, last: seq<char>)
    requires texts != []
    ensures var n := |texts| - 1;
            Typing(texts, last) == Typing(texts[..n], texts[n]) + ([10 as char] + last)
  {
    var n := |texts| - 1;
    var rest, text := texts[..n], texts[n];
    var start := Typing(rest, []);
    TypingEnds(rest, text + [10 as char] + last);
    TypingEnds(rest, text);
    assert start + (text + [10 as char] + last) == (start + text) + ([10 as char] + last);
  }

  lemma {:induction false} TypingEnds(texts: seq<seq<char>>, last: seq<char>)
    ensures Typing(texts, last) == Typing(texts, []) + last
    decreases |texts|
  {
    if texts != [] {
      var n := |texts| - 1;
      var rest, text := texts[..n], texts[n] + [10 as char];
      TypingEnds(rest, text + last);
      TypingEnds(rest, text + []);
      assert text + [] == text;
      assert Typing(rest, []) + (text + last) == (Typing(rest, []) + text) + last;
    }
  }

  /** Enter ends the line before it, and plain text behind it starts the next. */
  lemma {:induction false} EnterThenText(before: seq<char>, last: seq<char>)
    requires forall c | c in last :: Plain(c)
    ensures var cs := before + ([10 as char] + last);
            LastSegment(cs) == last && Lines(cs) == Lines(before) + [Edited(LastSegment(before)) + [10]]
    decreases |last|
  {
    var cs := before + ([10 as char] + last);
    if last == [] {
      assert cs == before + [10 as char];
      assert cs[..|cs| - 1] == before;
    } else {
      var m := |last| - 1;
      assert last[m] in last;
      assert forall c | c in last[..m] :: c in last;
      EnterThenText(before, last[..m]);
      assert cs[..|cs| - 1] == before + ([10 as char] + last[..m]);
      assert cs[|cs| - 1] == last[m];
      assert last == last[..m] + [last[m]];
    }
  }

  /** Every other scancode: an extended code is swallowed with its prefix, the shift keys set and clear their own flag,
      and other releases do nothing. */
  lemma FeedOther(t: State, c: byte)
    requires !t.e0Prefix
    ensures Feed(Feed(t, 0xE0), c) == t
    ensures Feed(t, 0x2A) == t.(shiftLeft := true) && Feed(t, 0xAA) == t.(shiftLeft := false)
    ensures Feed(t, 0x36) == t.(shiftRight := true) && Feed(t, 0xB6) == t.(shiftRight := false)
    ensures c >= 0x80 && c != 0xE0 && c != 0xAA && c != 0xB6 ==> Feed(t, c) == t
    ensures c < 0x80 && c != 0x2A && c != 0x36 && CharFor(c, t.shiftLeft || t.shiftRight) == None ==> Feed(t, c) == t
  {
    hide CharFor;
  }

  /** Shift-h, i, Enter: the program reads "Hi" and a newline. */
  lemma TypesHi()
    ensures var t := Feed(Feed(Feed(Feed(INIT, 0x2A), 0x23), 0xA3), 0xAA);
            Feed(Feed(Feed(t, 0x17), 0x97), 0x1C).ready == [[72, 105, 10]]
  {
    LettersHToM();
    hide ScancodeToChar;
    ShiftedLetters(0x23);
    ControlKeys(false);
    hide CharFor;
    var held := Feed(INIT, 0x2A);
    FeedKey(held, 0x23, 'H');
    var t := Feed(Feed(Feed(held, 0x23), 0xA3), 0xAA);
    assert t == State(false, false, false, [72], []);
    FeedKey(t, 0x17, 'i');
    var t' := Feed(Feed(t, 0x17), 0x97);
    assert t' == State(false, false, false, [72, 105], []);
    FeedKey(t', 0x1C, 10 as char);
    assert [72, 105] + [10] == [72, 105, 10];
  }

  /** a, Tab, b, Enter: Tab is a character of the line. */
  lemma TypesTab()
    ensures Feed(Feed(Feed(Feed(INIT, 0x1E), 0x0F), 0x30), 0x1C).ready == [[97, 9, 98, 10]]
  {
    LettersAToG();
    ControlKeys(false);
    hide CharFor, ScancodeToChar;
    assert CharFor(0x1E, false) == ScancodeToChar(0x1E) && CharFor(0x30, false) == ScancodeToChar(0x30) by {
      PlainChar(0x1E);
      PlainChar(0x30);
    }
    FeedKey(INIT, 0x1E, 'a');
    var t := Feed(INIT, 0x1E);
    assert t == State(false, false, false, [97], []);
    FeedKey(t, 0x0F, 9 as char);
    var t' := Feed(t, 0x0F);
    assert t' == State(false, false, false, [97, 9], []);
    FeedKey(t', 0x30, 'b');
    var u := Feed(t', 0x30);
    assert u == State(false, false, false, [97, 9, 98], []);
    FeedKey(u, 0x1C, 10 as char);
    assert [97, 9, 98] + [10] == [97, 9, 98, 10];
  }

  lemma PlainChar(code: byte)
    ensures CharFor(code, false) == ScancodeToChar(code)
  {
    hide ScancodeToChar;
  }
}
