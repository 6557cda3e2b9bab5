// The string-pool printer of tools/generate_retail_includes.py, and what a C
// compiler makes of its output: escape sequences are converted inside each
// literal first, then adjacent literals are concatenated (C99 section 5.1.1.2,
// phases 5 and 6; section 6.4.4.4 for the escapes; no trigraphs).
module StringPool {
  import opened Basics

  // ---- the printer ----

  function OctalDigit(d: int): (c: char)
    requires 0 <= d < 8
    ensures '0' <= c <= '7' && DigitValue(c) == d
  {
    '0' + d as char
  }

  function DigitValue(c: char): int {
    c as int - '0' as int
  }

  /** How one byte is spelled inside a literal; octal is always three digits. */
  function Spelling(b: Byte): (s: string)
    ensures 1 <= |s| <= 4
    ensures |s| == 1 <==> 0x20 <= b < 0x7F && b != 0x22 && b != 0x5C
    ensures |s| == 2 <==> b in {0x22, 0x5C, 0x0A, 0x09}
    ensures |s| != 3
  {
    if b == 0x22 then ['\\', '"']
    else if b == 0x5C then ['\\', '\\']
    else if 0x20 <= b < 0x7F then [b as char]
    else if b == 0x0A then ['\\', 'n']
    else if b == 0x09 then ['\\', 't']
    else ['\\', OctalDigit(b / 64), OctalDigit(b / 8 % 8), OctalDigit(b % 8)]
  }

  function Spellings(data: seq<Byte>): string {
    if data == [] then [] else Spelling(data[0]) + Spellings(data[1..])
  }

  lemma {:induction false} SpellingsAppend(data: seq<Byte>, b: Byte)
    ensures Spellings(data + [b]) == Spellings(data) + Spelling(b)
  {
    hide Spelling;
    if data == [] {
      assert data + [b] == [b] && Spellings([]) == [];
      assert Spellings([b]) == Spelling(b) + Spellings([b][1..]);
    } else {
      assert (data + [b])[1..] == data[1..] + [b];
      SpellingsAppend(data[1..], b);
    }
  }

  /** The bytes before the first zero. */
  function UpToZero(data: seq<Byte>): seq<Byte> {
    if data == [] || data[0] == 0 then [] else [data[0]] + UpToZero(data[1..])
  }

  function CString(data: seq<Byte>): string {
    ['"'] + Spellings(UpToZero(data)) + ['"']
  }

  lemma UpToZeroAt(data: seq<Byte>, i: nat)
    requires i <= |data|
    ensures UpToZero(data[i..])
         == if i == |data| || data[i] == 0 then [] else [data[i]] + UpToZero(data[i + 1..])
  {
  }

  /** c_string. */
  method PrintCString(data: seq<Byte>) returns (text: string)
    ensures text == CString(data)
  {
    hide Spelling, Spellings, UpToZero;
    var result: string := ['"'];
    SpellNone();
    var i := 0;
    assert data[0..] == data;
    while i < |data|
      invariant 0 <= i <= |data| && UpToZero(data) == data[..i] + UpToZero(data[i..])
      invariant result == ['"'] + Spellings(data[..i])
    {
      UpToZeroAt(data, i);
      if data[i] == 0 {
        break;
      }
      assert data[..i + 1] == data[..i] + [data[i]];
      SpellingsAppend(data[..i], data[i]);
      result := result + Spelling(data[i]);
      i := i + 1;
    }
    UpToZeroAt(data, i);
    assert UpToZero(data) == data[..i] + [] == data[..i];
    text := result + ['"'];
  }

  lemma SpellNone()
    ensures Spellings([]) == []
  {
  }

  /** bytes.split(b"\0"). */
  function SplitAtZeros(data: seq<Byte>): (parts: seq<seq<Byte>>)
    ensures |parts| > 0
    ensures forall i :: 0 <= i < |parts| ==> 0 !in parts[i]
  {
    if data == [] then [[]]
    else
      var rest := SplitAtZeros(data[1..]);
      if data[0] == 0 then [[]] + rest else [[data[0]] + rest[0]] + rest[1..]
  }

  /** One line of the pool: a literal, with its terminator spelled out unless it
      is the last, whose terminator the compiler adds. */
  function PoolLine(part: seq<Byte>, last: bool): string {
    [' ', ' ', ' ', ' '] + ['"'] + Spellings(part) + if last then ['"'] else ['\\', '0', '"']
  }

  function PoolLines(parts: seq<seq<Byte>>): string
    requires |parts| > 0
  {
    if |parts| == 1 then PoolLine(parts[0], true) + ['\n']
    else PoolLine(parts[0], false) + ['\n'] + PoolLines(parts[1..])
  }

  /** The text of the generated file for a pool that ends in a zero byte. */
  function PoolText(comment: string, pool: seq<Byte>): string
    requires |pool| > 0
  {
    ['/', '*'] + comment + ['*', '/', '\n'] + PoolLines(SplitAtZeros(pool[..|pool| - 1]))
  }

  /** The emission as the source writes it: c_string of each part, its closing
      quote replaced when another part follows. */
  method PrintPool(comment: string, pool: seq<Byte>) returns (text: Option<string>)
    ensures text.None? <==> |pool| == 0 || pool[|pool| - 1] != 0
    ensures text.Some? ==> text.value == PoolText(comment, pool)
  {
    if |pool| == 0 || pool[|pool| - 1] != 0 {
      return None;
    }
    hide Spelling, Spellings, PoolLine, PoolLines, CString;
    var strings := SplitAtZeros(pool[..|pool| - 1]);
    var out: string := ['/', '*'] + comment + ['*', '/', '\n'];
    ghost var head := out;
    var i := 0;
    assert strings[0..] == strings;
    while i < |strings|
      invariant 0 <= i <= |strings|
      invariant if i < |strings| then out + PoolLines(strings[i..]) == head + PoolLines(strings)
                else out == head + PoolLines(strings)
    {
      var value := strings[i];
      var literal := PrintCString(value);
      if i + 1 < |strings| {
        literal := literal[..|literal| - 1] + ['\\', '0', '"'];
      }
      PoolLineIs(value, literal, i + 1 == |strings|);
      PoolLinesFrom(strings, i, out);
      out := out + ([' ', ' ', ' ', ' '] + literal + ['\n']);
      i := i + 1;
    }
    text := Some(out);
  }

  lemma PoolLineIs(value: seq<Byte>, literal: string, last: bool)
    requires 0 !in value
    requires literal == if last then CString(value) else CString(value)[..|CString(value)| - 1] + ['\\', '0', '"']
    ensures [' ', ' ', ' ', ' '] + literal + ['\n'] == PoolLine(value, last) + ['\n']
  {
    hide Spelling, Spellings;
    NoZeros(value);
  }

  lemma PoolLinesFrom(strings: seq<seq<Byte>>, i: nat, out: string)
    requires i < |strings|
    ensures var line := PoolLine(strings[i], i + 1 == |strings|) + ['\n'];
            if i + 1 < |strings| then (out + line) + PoolLines(strings[i + 1..]) == out + PoolLines(strings[i..])
            else out + line == out + PoolLines(strings[i..])
  {
    hide PoolLine;
    var line := PoolLine(strings[i], i + 1 == |strings|) + ['\n'];
    if i + 1 < |strings| {
      assert strings[i..][1..] == strings[i + 1..];
      assert PoolLines(strings[i..]) == line + PoolLines(strings[i + 1..]);
    }
  }

  lemma {:induction false} NoZeros(data: seq<Byte>)
    requires 0 !in data
    ensures UpToZero(data) == data
  {
    if data != [] {
      NoZeros(data[1..]);
    }
  }

  // ---- the compiler ----

  /** Octal digits at the front of s, at most n of them. */
  function OctalRun(s: string, n: nat): (k: nat)
    ensures k <= n && k <= |s|
    ensures forall i :: 0 <= i < k ==> '0' <= s[i] <= '7'
    ensures k < n && k < |s| ==> !('0' <= s[k] <= '7')
  {
    if n > 0 && s != [] && '0' <= s[0] <= '7' then 1 + OctalRun(s[1..], n - 1) else 0
  }

  function OctalValue(digits: string): int {
    if digits == [] then 0 else 8 * OctalValue(digits[..|digits| - 1]) + DigitValue(digits[|digits| - 1])
  }

  /** The escape sequence after a backslash: its value, and how long it is.  An
      octal escape takes as many digits as it can, up to three. */
  function Escape(s: string): Option<(Byte, nat)> {
    var n := OctalRun(s, 3);
    if s == [] then None
    else if n > 0 then
      var v := OctalValue(s[..n]);
      if 0 <= v < 256 then Some((v, n)) else None
    else if s[0] == '"' then Some((0x22, 1))
    else if s[0] == '\\' then Some((0x5C, 1))
    else if s[0] == 'n' then Some((0x0A, 1))
    else if s[0] == 't' then Some((0x09, 1))
    else None
  }

  /** The first character of a literal's rest, and how long its spelling is. */
  function Character(s: string): (c: Option<(Byte, nat)>)
    requires s != []
    ensures c.Some? ==> 0 < c.value.1 <= |s|
  {
    if s[0] == '\n' || s[0] as int >= 128 then None
    else if s[0] == '\\' then
      var e := Escape(s[1..]);
      if e.None? || e.value.1 > |s| - 1 then None else Some((e.value.0, 1 + e.value.1))
    else Some((s[0] as int, 1))
  }

  /** The bytes of a literal whose opening quote has been read, and its length
      with the closing quote. */
  function Literal(s: string): (r: Option<(seq<Byte>, nat)>)
    ensures r.Some? ==> 0 < r.value.1 <= |s|
    decreases |s|
  {
    if s == [] then None
    else if s[0] == '"' then Some(([], 1))
    else
      hide Character;
      var c := Character(s);
      if c.None? then None
      else
        var r := Literal(s[c.value.1..]);
        if r.None? then None else Some(([c.value.0] + r.value.0, c.value.1 + r.value.1))
  }

  /** Length of the rest of a comment, past its end. */
  function CommentEnd(s: string): (r: Option<nat>)
    ensures r.Some? ==> 0 < r.value <= |s|
  {
    if |s| < 2 then None
    else if s[0] == '*' && s[1] == '/' then Some(2)
    else
      var r := CommentEnd(s[1..]);
      if r.None? then None else Some(1 + r.value)
  }

  /** The bytes of adjacent literals, concatenated. */
  function Literals(s: string): Option<seq<Byte>>
    decreases |s|
  {
    if s == [] then Some([])
    else if s[0] == ' ' || s[0] == '\n' then Literals(s[1..])
    else if |s| >= 2 && s[0] == '/' && s[1] == '*' then
      var e := CommentEnd(s[2..]);
      if e.None? then None else Literals(s[2 + e.value..])
    else if s[0] == '"' then
      var l := Literal(s[1..]);
      if l.None? then None
      else
        var rest := Literals(s[1 + l.value.1..]);
        if rest.None? then None else Some(l.value.0 + rest.value)
    else None
  }

  /** The array a char[] initialised with the text holds. */
  function Compile(s: string): Option<seq<Byte>> {
    var bytes := Literals(s);
    if bytes.None? then None else Some(bytes.value + [0])
  }

  // ---- the round trip ----

  /** Each spelling is read back as its byte, whatever follows it. */
  lemma SpellingReads(b: Byte, rest: string)
    requires b != 0
    requires Literal(rest).Some?
    ensures Literal(Spelling(b) + rest) == Some(([b] + Literal(rest).value.0, |Spelling(b)| + Literal(rest).value.1))
  {
    hide Literal, Escape;
    var s := Spelling(b) + rest;
    assert s[|Spelling(b)|..] == rest;
    if s[0] == '\\' {
      EscapeReads(b, s[1..]);
      LiteralEscape(s, b, |Spelling(b)| - 1);
    } else {
      LiteralPlain(s, b);
    }
  }

  lemma LiteralPlain(s: string, b: Byte)
    requires s != [] && s[0] as int == b < 128 && s[0] !in {'"', '\\', '\n'} && Literal(s[1..]).Some?
    ensures Literal(s) == Some(([b] + Literal(s[1..]).value.0, 1 + Literal(s[1..]).value.1))
  {
    hide Literal, Escape;
    assert Character(s) == Some((b, 1));
    LiteralFirst(s, b, 1);
  }

  lemma LiteralEscape(s: string, b: Byte, n: nat)
    requires |s| > n && s[0] == '\\' && Escape(s[1..]) == Some((b, n))
    requires Literal(s[1 + n..]).Some?
    ensures Literal(s) == Some(([b] + Literal(s[1 + n..]).value.0, 1 + n + Literal(s[1 + n..]).value.1))
  {
    hide Literal;
    CharacterEscape(s, b, n);
    LiteralFirst(s, b, 1 + n);
  }

  lemma CharacterEscape(s: string, b: Byte, n: nat)
    requires |s| > n && s[0] == '\\' && Escape(s[1..]) == Some((b, n))
    ensures Character(s) == Some((b, 1 + n))
  {
    hide Escape;
  }

  lemma LiteralFirst(s: string, b: Byte, n: nat)
    requires s != [] && s[0] != '"' && n <= |s| && Character(s) == Some((b, n))
    requires Literal(s[n..]).Some?
    ensures Literal(s) == Some(([b] + Literal(s[n..]).value.0, n + Literal(s[n..]).value.1))
  {
    hide Character;
  }

  lemma ThreeDigits(digits: string, s: string)
    requires |digits| == 3 && digits <= s && forall i :: 0 <= i < 3 ==> '0' <= digits[i] <= '7'
    ensures OctalRun(s, 3) == 3 && s[..3] == digits
    ensures OctalValue(digits)
         == 64 * DigitValue(digits[0]) + 8 * DigitValue(digits[1]) + DigitValue(digits[2])
  {
    assert s[0] == digits[0] && s[1] == digits[1] && s[2] == digits[2];
    assert s[1..][0] == s[1] && s[1..][1..][0] == s[2];
    assert OctalRun(s[1..][1..], 1) == 1;
    assert digits[..2][..1] == digits[..1] && digits[..1][..0] == [];
    assert OctalValue(digits[..1]) == DigitValue(digits[0]);
    assert OctalValue(digits[..2]) == 8 * OctalValue(digits[..1]) + DigitValue(digits[1]);
    assert OctalValue(digits) == 8 * OctalValue(digits[..2]) + DigitValue(digits[2]);
  }

  lemma EscapeReads(b: Byte, s: string)
    requires Spelling(b)[0] == '\\' && (b == 0x22 || b == 0x5C || !(0x20 <= b < 0x7F))
    requires Spelling(b)[1..] <= s
    ensures Escape(s) == Some((b, |Spelling(b)| - 1))
  {
    if |Spelling(b)| == 4 {
      OctalReads(b, s);
    }
  }

  lemma OctalReads(b: Byte, s: string)
    requires |Spelling(b)| == 4 && Spelling(b)[1..] <= s
    ensures Escape(s) == Some((b, 3))
  {
    hide OctalRun, OctalValue, DigitValue;
    var digits := Spelling(b)[1..];
    assert digits == [OctalDigit(b / 64), OctalDigit(b / 8 % 8), OctalDigit(b % 8)];
    hide Spelling;
    ThreeDigits(digits, s);
    OctalParts(b);
  }

  lemma OctalParts(b: Byte)
    ensures b == 64 * (b / 64) + 8 * (b / 8 % 8) + b % 8
  {
  }

  lemma {:induction false} SpellingsRead(data: seq<Byte>, rest: string)
    requires 0 !in data && Literal(rest).Some?
    ensures Literal(Spellings(data) + rest)
         == Some((data + Literal(rest).value.0, |Spellings(data)| + Literal(rest).value.1))
  {
    hide Literal, Spelling;
    if data == [] {
      assert Spellings(data) + rest == rest && data + Literal(rest).value.0 == Literal(rest).value.0;
    } else {
      SpellingsRead(data[1..], rest);
      SpellingReads(data[0], Spellings(data[1..]) + rest);
      assert Spellings(data) + rest == Spelling(data[0]) + (Spellings(data[1..]) + rest);
      assert [data[0]] + (data[1..] + Literal(rest).value.0) == data + Literal(rest).value.0;
    }
  }

  /** The two endings: a plain quote, and the spelled-out terminator, which the
      quote keeps apart from whatever the next literal starts with. */
  lemma EndingsRead(rest: string)
    ensures Literal(['"'] + rest) == Some(([], 1))
    ensures Literal(['\\', '0', '"'] + rest) == Some(([0], 3))
  {
    var s: string := ['\\', '0', '"'] + rest;
    assert s[1..][0] == '0' && s[1..][1] == '"';
    assert OctalRun(s[1..][1..], 2) == 0;
    assert OctalRun(s[1..], 3) == 1;
    var d := s[1..][..1];
    assert d == ['0'] && d[..0] == [];
    assert OctalValue(d) == 0;
    assert Escape(s[1..]) == Some((0, 1));
    assert s[2..][0] == '"';
    assert Literal(s[2..]) == Some(([], 1));
    LiteralEscape(s, 0, 1);
    assert [0] + [] == [0 as Byte];
  }

  lemma LiteralsQuote(body: string, rest: string, bytes: seq<Byte>)
    requires Literal(body + rest) == Some((bytes, |body|)) && Literals(rest).Some?
    ensures Literals(['"'] + body + rest) == Some(bytes + Literals(rest).value)
  {
    hide Literal, Literals;
    var s := ['"'] + body + rest;
    assert s[1..] == body + rest && s[1 + |body|..] == rest;
    LiteralsAt(s, bytes, |body|);
  }

  lemma LiteralsAt(s: string, bytes: seq<Byte>, n: nat)
    requires s != [] && s[0] == '"' && n <= |s| - 1
    requires Literal(s[1..]) == Some((bytes, n)) && Literals(s[1 + n..]).Some?
    ensures Literals(s) == Some(bytes + Literals(s[1 + n..]).value)
  {
    hide Literal;
  }

  lemma LiteralsBlank(c: char, rest: string)
    requires c == ' ' || c == '\n'
    ensures Literals([c] + rest) == Literals(rest)
  {
    assert ([c] + rest)[1..] == rest;
  }

  lemma LineReads(part: seq<Byte>, last: bool, rest: string)
    requires 0 !in part && Literals(rest).Some?
    ensures Literals(PoolLine(part, last) + ['\n'] + rest)
         == Some(part + (if last then [] else [0]) + Literals(rest).value)
  {
    hide Literal, Literals, Spellings;
    var tail := ['\n'] + rest;
    var ending: string := if last then ['"'] else ['\\', '0', '"'];
    var body := Spellings(part) + ending;
    EndingsRead(tail);
    SpellingsRead(part, ending + tail);
    assert body + tail == Spellings(part) + (ending + tail);
    LiteralsBlank('\n', rest);
    LiteralsQuote(body, tail, part + if last then [] else [0]);
    var quoted := ['"'] + body + tail;
    LiteralsBlank(' ', quoted);
    LiteralsBlank(' ', [' '] + quoted);
    LiteralsBlank(' ', [' '] + ([' '] + quoted));
    LiteralsBlank(' ', [' '] + ([' '] + ([' '] + quoted)));
    assert PoolLine(part, last) + ['\n'] + rest == [' '] + ([' '] + ([' '] + ([' '] + quoted)));
  }

  function JoinedByZeros(parts: seq<seq<Byte>>): seq<Byte>
    requires |parts| > 0
  {
    if |parts| == 1 then parts[0] else parts[0] + [0] + JoinedByZeros(parts[1..])
  }

  lemma {:induction false} SplitJoins(data: seq<Byte>)
    ensures JoinedByZeros(SplitAtZeros(data)) == data
  {
    if data != [] {
      var rest := SplitAtZeros(data[1..]);
      SplitJoins(data[1..]);
      if data[0] == 0 {
        assert ([[]] + rest)[1..] == rest;
        assert [] + [0] + JoinedByZeros(rest) == data;
      } else {
        var parts := [[data[0]] + rest[0]] + rest[1..];
        assert parts[1..] == rest[1..];
        assert JoinedByZeros(parts) == [data[0]] + JoinedByZeros(rest);
      }
    }
  }

  lemma {:induction false} LinesRead(parts: seq<seq<Byte>>)
    requires |parts| > 0 && forall i :: 0 <= i < |parts| ==> 0 !in parts[i]
    ensures Literals(PoolLines(parts)) == Some(JoinedByZeros(parts))
  {
    hide Literals, PoolLine;
    EmptyReads();
    if |parts| == 1 {
      LineReads(parts[0], true, []);
      assert PoolLine(parts[0], true) + ['\n'] + [] == PoolLines(parts);
      assert parts[0] + [] + [] == parts[0];
    } else {
      LinesRead(parts[1..]);
      LineReads(parts[0], false, PoolLines(parts[1..]));
    }
  }

  lemma EmptyReads()
    ensures Literals([]) == Some([])
  {
  }

  lemma {:induction false} CommentEnds(comment: string, rest: string)
    requires '*' !in comment
    ensures CommentEnd(comment + ['*', '/'] + rest) == Some(|comment| + 2)
  {
    var s := comment + ['*', '/'] + rest;
    if comment != [] {
      CommentEnds(comment[1..], rest);
      assert s[1..] == comment[1..] + ['*', '/'] + rest;
    }
  }

  /** Compiling the generated text gives back the retail pool, byte for byte,
      whatever bytes it holds. */
  lemma PoolRoundTrip(comment: string, pool: seq<Byte>)
    requires |pool| > 0 && pool[|pool| - 1] == 0 && '*' !in comment
    ensures Compile(PoolText(comment, pool)) == Some(pool)
  {
    hide Literals, PoolLines, SplitAtZeros, JoinedByZeros;
    var data := pool[..|pool| - 1];
    var lines := PoolLines(SplitAtZeros(data));
    LinesRead(SplitAtZeros(data));
    SplitJoins(data);
    CommentSkipped(comment, lines);
    assert PoolText(comment, pool) == ['/', '*'] + comment + ['*', '/'] + (['\n'] + lines);
    assert data + [0] == pool;
  }

  lemma CommentSkipped(comment: string, lines: string)
    requires '*' !in comment
    ensures Literals(['/', '*'] + comment + ['*', '/'] + (['\n'] + lines)) == Literals(lines)
  {
    hide CommentEnd;
    var s := ['/', '*'] + comment + ['*', '/'] + (['\n'] + lines);
    CommentEnds(comment, ['\n'] + lines);
    assert s[2..] == comment + ['*', '/'] + (['\n'] + lines);
    assert s[2 + (|comment| + 2)..] == ['\n'] + lines;
    LiteralsBlank('\n', lines);
  }

  /** Where the C string that starts at `from` ends. */
  function ZeroAt(data: seq<Byte>, from: nat): (n: nat)
    requires from < |data| && 0 in data[from..]
    ensures from <= n < |data| && data[n] == 0 && 0 !in data[from..n]
    decreases |data| - from
  {
    if data[from] == 0 then from
    else
      assert data[from..] == [data[from]] + data[from + 1..];
      var n := ZeroAt(data, from + 1);
      assert data[from..n] == [data[from]] + data[from + 1..n];
      n
  }

  /** An entry of the literal table is the very C string the pool holds there. */
  lemma LiteralIsPoolString(data: seq<Byte>, from: nat)
    requires from < |data| && 0 in data[from..]
    ensures var end := ZeroAt(data, from);
            Compile(CString(data[from..end])) == Some(data[from..end + 1])
  {
    hide Literal, Literals, Spellings;
    var end := ZeroAt(data, from);
    var part := data[from..end];
    NoZeros(part);
    EndingsRead([]);
    assert ['"'] + [] == ['"'];
    SpellingsRead(part, ['"']);
    EmptyReads();
    var body := Spellings(part) + ['"'];
    assert body + [] == body && part + [] == part;
    LiteralsQuote(body, [], part);
    assert CString(part) == ['"'] + body + [];
    assert data[from..end + 1] == part + [0];
  }

  // ---- why the parts are separate literals ----

  /** Two parts in one literal, with the spelled-out zero between them. */
  function OneLiteral(part: seq<Byte>, next: seq<Byte>): string {
    Spellings(part) + (['\\', '0'] + (Spellings(next) + ['"']))
  }

  predicate OctalFirst(data: seq<Byte>) {
    data != [] && 0x30 <= data[0] <= 0x37
  }

  /** They would be read back if and only if the second part does not start with
      an octal digit, which would become part of the escape. */
  lemma OneLiteralIff(part: seq<Byte>, next: seq<Byte>)
    requires 0 !in part && 0 !in next
    ensures (exists n :: Literal(OneLiteral(part, next)) == Some((part + [0] + next, n))) <==> !OctalFirst(next)
  {
    hide Literal, OneLiteral, OctalFirst;
    var value, k, n := OneLiteralReads(part, next);
    if k == 0 {
      assert part + ([value] + next[k..]) == part + [0] + next;
    } else {
      assert |part + ([value] + next[k..])| < |part + [0] + next|;
    }
  }

  /** What it reads as: the k octal digits after the zero are swallowed. */
  lemma OneLiteralReads(part: seq<Byte>, next: seq<Byte>) returns (value: Byte, k: nat, n: nat)
    requires 0 !in part && 0 !in next
    ensures k <= |next| && (k > 0 <==> OctalFirst(next)) && (k == 0 ==> value == 0)
    ensures Literal(OneLiteral(part, next)) == Some((part + ([value] + next[k..]), n))
  {
    hide Literal, Spellings, OctalRun, OctalValue, Escape;
    var tail := Spellings(next) + ['"'];
    k := OctalRun(tail, 2);
    DigitsSpelled(next, 2);
    value := ZeroEscape(tail);
    PlainSpelled(next[k..]);
    var s := ['\\', '0'] + tail;
    assert s[1..] == ['0'] + tail && s[1 + (1 + k)..] == tail[k..];
    LiteralEscape(s, value, 1 + k);
    SpellingsRead(part, s);
    n := |Spellings(part)| + (1 + (1 + k) + Literal(tail[k..]).value.1);
  }

  lemma PlainSpelled(data: seq<Byte>)
    requires 0 !in data
    ensures Literal(Spellings(data) + ['"']).Some? && Literal(Spellings(data) + ['"']).value.0 == data
  {
    hide Literal, Spellings;
    EndingsRead([]);
    assert ['"'] + [] == ['"'];
    SpellingsRead(data, ['"']);
    assert data + [] == data;
  }

  /** Octal digits spell themselves, and nothing else starts with one. */
  lemma {:induction false} DigitsSpelled(data: seq<Byte>, n: nat)
    requires 0 !in data
    ensures var tail := Spellings(data) + ['"'];
            var k := OctalRun(tail, n);
            && k <= |data| && k <= |tail| && tail[k..] == Spellings(data[k..]) + ['"']
            && (n > 0 ==> (k > 0 <==> OctalFirst(data)))
  {
    hide Spellings, OctalRun;
    var tail := Spellings(data) + ['"'];
    TailStarts(data, n);
    if n > 0 && OctalFirst(data) {
      DigitsSpelled(data[1..], n - 1);
      var k := OctalRun(tail[1..], n - 1);
      assert data[1..][k..] == data[1 + k..] && tail[1..][k..] == tail[1 + k..];
    } else {
      assert data[0..] == data && tail[0..] == tail;
    }
  }

  lemma TailStarts(data: seq<Byte>, n: nat)
    requires 0 !in data
    ensures var tail := Spellings(data) + ['"'];
            if n > 0 && OctalFirst(data)
            then tail[1..] == Spellings(data[1..]) + ['"'] && OctalRun(tail, n) == 1 + OctalRun(tail[1..], n - 1)
            else OctalRun(tail, n) == 0
  {
    var tail := Spellings(data) + ['"'];
    if data != [] {
      assert Spellings(data) == Spelling(data[0]) + Spellings(data[1..]);
      assert tail[0] == Spelling(data[0])[0];
      if OctalFirst(data) {
        assert Spelling(data[0]) == [data[0] as char];
        assert tail == [data[0] as char] + (Spellings(data[1..]) + ['"']);
      }
    }
  }

  /** An escape that starts with zero has a value of at most two digits. */
  lemma ZeroEscape(tail: string) returns (value: Byte)
    ensures var k := OctalRun(tail, 2);
            Escape(['0'] + tail) == Some((value, 1 + k)) && (k == 0 ==> value == 0)
  {
    var s := ['0'] + tail;
    var k := OctalRun(tail, 2);
    assert s[1..] == tail && OctalRun(s, 3) == 1 + k;
    var digits := s[..1 + k];
    assert digits[0] == '0' && forall i :: 0 < i <= k ==> digits[i] == tail[i - 1];
    OctalRunDigits(tail, 2);
    SmallOctal(digits);
    value := OctalValue(digits);
  }

  lemma {:induction false} OctalRunDigits(s: string, n: nat)
    ensures OctalRun(s, n) <= n && OctalRun(s, n) <= |s|
    ensures forall i :: 0 <= i < OctalRun(s, n) ==> '0' <= s[i] <= '7'
  {
    if n > 0 && s != [] && '0' <= s[0] <= '7' {
      OctalRunDigits(s[1..], n - 1);
      assert forall i :: 0 < i < |s| ==> s[i] == s[1..][i - 1];
    }
  }

  lemma SmallOctal(digits: string)
    requires 0 < |digits| <= 3 && digits[0] == '0' && forall i :: 0 <= i < |digits| ==> '0' <= digits[i] <= '7'
    ensures 0 <= OctalValue(digits) < 64 && (|digits| == 1 ==> OctalValue(digits) == 0)
  {
    assert digits[..1][..0] == [] && digits[..1] == ['0'];
    assert OctalValue(digits[..1]) == 0;
    if |digits| == 2 {
      assert digits[..2] == digits && OctalValue(digits) == 8 * OctalValue(digits[..1]) + DigitValue(digits[1]);
    } else if |digits| == 3 {
      assert digits[..2][..1] == digits[..1];
      assert OctalValue(digits[..2]) == 8 * OctalValue(digits[..1]) + DigitValue(digits[1]);
      assert OctalValue(digits) == 8 * OctalValue(digits[..2]) + DigitValue(digits[2]);
    } else {
      assert digits[..1] == digits;
    }
  }
}
