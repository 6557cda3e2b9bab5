// Writer._line, escape and expand of tools/ninja_syntax.py, and how Ninja reads
// the result back: outside a `$` pair, `$` before a newline continues the line
// and swallows the indentation that follows.
module NinjaWriter {
  import opened Basics

  // ---- str.find and str.rfind for a single space ----

  /** A slice bound as Python reads it: negative counts from the end. */
  function Clamp(i: int, len: nat): (r: nat)
    ensures r <= len && (0 <= i <= len ==> r == i) && (i > len ==> r == len)
    ensures i < 0 ==> r == i + len || (r == 0 && i + len < 0)
  {
    if i < 0 then (if i + len < 0 then 0 else i + len) else if i > len then len else i
  }

  function LastSpace(text: string, end: nat): (i: int)
    requires end <= |text|
    ensures -1 <= i < end && (i >= 0 ==> text[i] == ' ')
    ensures forall j :: i < j < end ==> text[j] != ' '
  {
    if end == 0 then -1 else if text[end - 1] == ' ' then end - 1 else LastSpace(text, end - 1)
  }

  /** text.rfind(" ", 0, end) */
  function RFind(text: string, end: int): (i: int)
    ensures -1 <= i < |text|
  {
    LastSpace(text, Clamp(end, |text|))
  }

  function FirstSpace(text: string, start: nat): (i: int)
    requires start <= |text|
    ensures i == -1 || (start <= i < |text| && text[i] == ' ')
    ensures forall j :: start <= j < (if i < 0 then |text| else i) ==> text[j] != ' '
    decreases |text| - start
  {
    if start == |text| then -1 else if text[start] == ' ' then start else FirstSpace(text, start + 1)
  }

  /** text.find(" ", start) */
  function Find(text: string, start: int): (i: int)
    ensures -1 <= i < |text|
  {
    if start > |text| then -1 else FirstSpace(text, Clamp(start, |text|))
  }

  // ---- counting dollars ----

  /** The '$' characters right in front of s[i]. */
  function DollarsBefore(s: string, i: nat): (n: nat)
    requires i <= |s|
    ensures n <= i
  {
    if i > 0 && s[i - 1] == '$' then 1 + DollarsBefore(s, i - 1) else 0
  }

  /** What the loop counts: it never looks at s[0]. */
  function CountedDollars(s: string, i: nat): nat
    requires i <= |s|
  {
    if i > 1 && s[i - 1] == '$' then 1 + CountedDollars(s, i - 1) else 0
  }

  /** _count_dollars_before_index */
  method CountDollarsBeforeIndex(s: string, i: nat) returns (dollarCount: nat)
    requires i <= |s|
    ensures dollarCount == CountedDollars(s, i)
  {
    dollarCount := 0;
    var dollarIndex := i - 1;
    while dollarIndex > 0 && s[dollarIndex] == '$'
      invariant -1 <= dollarIndex < i && (dollarIndex < 0 ==> i == 0)
      invariant dollarCount + CountedDollars(s, dollarIndex + 1) == CountedDollars(s, i)
    {
      dollarCount := dollarCount + 1;
      dollarIndex := dollarIndex - 1;
    }
  }

  /** The count is what its documentation says unless there is nothing but
      dollars in front of s[i]; then it is one short. */
  lemma {:induction false} CountIsRightIff(s: string, i: nat)
    requires i <= |s|
    ensures CountedDollars(s, i) == DollarsBefore(s, i) <==> i == 0 || DollarsBefore(s, i) < i
    ensures i > 0 && DollarsBefore(s, i) == i ==> CountedDollars(s, i) == i - 1
  {
    if i > 1 && s[i - 1] == '$' {
      CountIsRightIff(s, i - 1);
    }
  }

  // ---- where a line is broken ----

  /** A space _line takes for unescaped. */
  predicate Usable(text: string, i: nat)
    requires i <= |text|
  {
    i < |text| && text[i] == ' ' && CountedDollars(text, i) % 2 == 0
  }

  /** The last usable space before `end`, or -1. */
  function LastUsable(text: string, end: nat): (i: int)
    requires end <= |text|
    ensures -1 <= i < end && (i >= 0 ==> Usable(text, i))
    ensures forall j :: i < j < end ==> !Usable(text, j)
  {
    if end == 0 then -1 else if Usable(text, end - 1) then end - 1 else LastUsable(text, end - 1)
  }

  function FirstUsable(text: string, start: nat): (i: int)
    requires start <= |text|
    ensures i == -1 || (start <= i < |text| && Usable(text, i))
    ensures forall j :: start <= j < (if i < 0 then |text| else i) ==> !Usable(text, j)
    decreases |text| - start
  {
    if start == |text| then -1 else if Usable(text, start) then start else FirstUsable(text, start + 1)
  }

  function BreakAt(text: string, available: int): (space: int)
    ensures -1 <= space < |text| && (space >= 0 ==> Usable(text, space))
  {
    var last := LastUsable(text, Clamp(available, |text|));
    if last >= 0 then last
    else if available > |text| then -1
    else FirstUsable(text, Clamp(available, |text|))
  }

  /** The two searches of _line, each skipping escaped spaces. */
  method FindBreak(text: string, available: int) returns (space: int)
    ensures space == BreakAt(text, available)
  {
    space := available;
    var end := Clamp(available, |text|);
    ghost var bound := end;
    while true
      invariant end == Clamp(space, |text|) && end <= bound
      invariant LastUsable(text, end) == LastUsable(text, bound)
      decreases end
    {
      var before := end;
      space := RFind(text, space);
      SkipUnspaced(text, if space < 0 then 0 else space + 1, before);
      if space < 0 {
        break;
      }
      var dollars := CountDollarsBeforeIndex(text, space);
      if dollars % 2 == 0 {
        break;
      }
      end := space;
    }
    if space < 0 {
      space := available - 1;
      ghost var start := Clamp(available, |text|);
      var from := available;
      while true
        invariant from == space + 1 && (from > |text| ==> available > |text|)
        invariant available <= |text| ==> FirstUsable(text, Clamp(from, |text|)) == FirstUsable(text, start)
        decreases if from > |text| then 0 else |text| + 1 - Clamp(from, |text|)
      {
        space := Find(text, from);
        if available <= |text| {
          SkipUnspacedUp(text, Clamp(from, |text|), if space < 0 then |text| else space);
        }
        if space < 0 {
          break;
        }
        var dollars := CountDollarsBeforeIndex(text, space);
        if dollars % 2 == 0 {
          break;
        }
        from := space + 1;
      }
    }
  }

  lemma {:induction false} SkipUnspaced(text: string, lo: nat, hi: nat)
    requires lo <= hi <= |text|
    requires forall j :: lo <= j < hi ==> text[j] != ' '
    ensures LastUsable(text, hi) == LastUsable(text, lo)
  {
    if lo < hi {
      SkipUnspaced(text, lo, hi - 1);
    }
  }

  lemma {:induction false} SkipUnspacedUp(text: string, lo: nat, hi: nat)
    requires lo <= hi <= |text|
    requires forall j :: lo <= j < hi ==> text[j] != ' '
    ensures FirstUsable(text, lo) == FirstUsable(text, hi)
    decreases hi - lo
  {
    if lo < hi {
      SkipUnspacedUp(text, lo + 1, hi);
    }
  }

  // ---- the physical lines ----

  function Spaces(n: nat): (s: string)
    ensures |s| == n && forall i :: 0 <= i < n ==> s[i] == ' '
  {
    seq(n, _ => ' ')
  }

  /** A physical line: indentation, a piece of the text, and whether it goes on. */
  datatype Physical = Physical(leading: nat, piece: string, more: bool)
  {
    function Line(): string {
      Spaces(leading) + piece + if more then [' ', '$'] else []
    }
  }

  function Wrapped(text: string, leading: nat, indent: nat, width: int): (lines: seq<Physical>)
    ensures |lines| > 0
    decreases |text|
  {
    var space := BreakAt(text, width - leading - 2);
    if leading + |text| <= width || space < 0 then [Physical(leading, text, false)]
    else [Physical(leading, text[..space], true)] + Wrapped(text[space + 1..], 2 * (indent + 2), indent, width)
  }

  function Output(lines: seq<Physical>): string {
    if lines == [] then [] else lines[0].Line() + ['\n'] + Output(lines[1..])
  }

  /** _line: what it writes. */
  method WriteLine(text0: string, indent: nat, width: int) returns (output: string)
    ensures output == Output(Wrapped(text0, 2 * indent, indent, width))
  {
    hide BreakAt;
    var text := text0;
    var leadingSpace: nat := 2 * indent;
    output := [];
    ghost var goal := Output(Wrapped(text0, 2 * indent, indent, width));
    while leadingSpace + |text| > width
      invariant output + Output(Wrapped(text, leadingSpace, indent, width)) == goal
      decreases |text|
    {
      var space := FindBreak(text, width - leadingSpace - 2);
      if space < 0 {
        break;
      }
      FirstLine(text, leadingSpace, indent, width);
      output := output + (Spaces(leadingSpace) + text[..space] + [' ', '$'] + ['\n']);
      text := text[space + 1..];
      leadingSpace := 2 * (indent + 2);
    }
    LastLine(text, leadingSpace, indent, width);
    output := output + (Spaces(leadingSpace) + text + ['\n']);
  }

  lemma FirstLine(text: string, leading: nat, indent: nat, width: int)
    requires leading + |text| > width && BreakAt(text, width - leading - 2) >= 0
    ensures var space := BreakAt(text, width - leading - 2);
            Output(Wrapped(text, leading, indent, width)) ==
            Spaces(leading) + text[..space] + [' ', '$'] + ['\n']
            + Output(Wrapped(text[space + 1..], 2 * (indent + 2), indent, width))
  {
    hide BreakAt;
    var space := BreakAt(text, width - leading - 2);
    var rest := Wrapped(text[space + 1..], 2 * (indent + 2), indent, width);
    assert ([Physical(leading, text[..space], true)] + rest)[1..] == rest;
  }

  lemma LastLine(text: string, leading: nat, indent: nat, width: int)
    requires leading + |text| <= width || BreakAt(text, width - leading - 2) < 0
    ensures Output(Wrapped(text, leading, indent, width)) == Spaces(leading) + text + ['\n']
  {
    hide BreakAt;
    var line := Physical(leading, text, false);
    assert [line][1..] == [] && Output([]) == [];
    assert line.Line() == Spaces(leading) + text;
  }

  // ---- the width ----

  /** A line that is too long has no usable break in it. */
  ghost predicate WidthKept(line: Physical, width: int) {
    |line.Line()| > width ==> forall i :: 0 <= i < |line.piece| ==> !Usable(line.piece, i)
  }

  lemma {:induction false} CountInPrefix(text: string, n: nat, i: nat)
    requires i <= n <= |text|
    ensures CountedDollars(text[..n], i) == CountedDollars(text, i)
  {
    if i > 1 {
      CountInPrefix(text, n, i - 1);
    }
  }

  lemma UsableInPrefix(text: string, n: nat, i: nat)
    requires i < n <= |text|
    ensures Usable(text[..n], i) == Usable(text, i)
  {
    CountInPrefix(text, n, i);
  }

  /** No usable break before the one taken, if that makes the line too long. */
  lemma PieceUnbreakable(text: string, space: nat, available: nat)
    requires space < |text| && space > available && BreakAt(text, available) == space
    ensures forall i :: 0 <= i < space ==> !Usable(text[..space], i)
  {
    forall i | 0 <= i < space
      ensures !Usable(text[..space], i)
    {
      UsableInPrefix(text, space, i);
    }
  }

  /** Provided the indentation leaves room for a break at all, a physical line
      exceeds the width only if it cannot be broken. */
  lemma {:induction false} LinesKeepWidth(text: string, leading: nat, indent: nat, width: int, k: nat)
    requires leading + 2 <= width && 2 * (indent + 2) + 2 <= width
    requires k < |Wrapped(text, leading, indent, width)|
    ensures WidthKept(Wrapped(text, leading, indent, width)[k], width)
    decreases |text|
  {
    hide BreakAt, WidthKept;
    var space := BreakAt(text, width - leading - 2);
    if k == 0 {
      FirstLineKeepsWidth(text, leading, indent, width);
    } else {
      LinesKeepWidth(text[space + 1..], 2 * (indent + 2), indent, width, k - 1);
    }
  }

  lemma FirstLineKeepsWidth(text: string, leading: nat, indent: nat, width: int)
    requires leading + 2 <= width
    ensures WidthKept(Wrapped(text, leading, indent, width)[0], width)
  {
    var available := width - leading - 2;
    var space := BreakAt(text, available);
    NoBreakAtAll(text, available);
    if space > available {
      PieceUnbreakable(text, space, available);
    }
    hide BreakAt, Usable;
  }

  lemma NoBreakAtAll(text: string, available: nat)
    ensures BreakAt(text, available) < 0 && available <= |text| ==> forall i :: 0 <= i < |text| ==> !Usable(text, i)
  {
  }

  /** Without room for a break the search bound counts from the end of the text.
      A line that is too long is then cut where it can be if and only if at most
      one usable space lies before that bound. */
  lemma KeptIff(text: string, leading: nat, indent: nat, width: int)
    requires leading + |text| > width
    ensures leading + 2 > width ==> |Wrapped(text, leading, indent, width)[0].Line()| > width
    ensures |Wrapped(text, leading, indent, width)[0].Line()| > width ==>
              (WidthKept(Wrapped(text, leading, indent, width)[0], width)
               <==> forall i, j :: 0 <= i < j < Clamp(width - leading - 2, |text|) ==>
                      !(Usable(text, i) && Usable(text, j)))
  {
    hide BreakAt, Usable, WidthKept;
    if |Wrapped(text, leading, indent, width)[0].Line()| > width {
      CutAtFirstIff(text, leading, indent, width);
      FirstBreakIff(text, width - leading - 2);
    }
  }

  /** The first usable break is taken if at most one lies before the bound. */
  lemma FirstBreakIff(text: string, available: int)
    requires available <= |text|
    ensures BreakAt(text, available) == FirstUsable(text, 0)
       <==> forall i, j :: 0 <= i < j < Clamp(available, |text|) ==> !(Usable(text, i) && Usable(text, j))
  {
    hide Usable;
    var first, last := FirstUsable(text, 0), LastUsable(text, Clamp(available, |text|));
    if last >= 0 && last != first {
      assert Usable(text, first) && Usable(text, last) && first < last;
    }
  }

  lemma CutAtFirstIff(text: string, leading: nat, indent: nat, width: int)
    requires |Wrapped(text, leading, indent, width)[0].Line()| > width
    ensures WidthKept(Wrapped(text, leading, indent, width)[0], width)
       <==> BreakAt(text, width - leading - 2) == FirstUsable(text, 0)
  {
    var space := BreakAt(text, width - leading - 2);
    if space >= 0 {
      forall i | 0 <= i < space
        ensures Usable(text[..space], i) == Usable(text, i)
      {
        UsableInPrefix(text, space, i);
      }
    }
    hide BreakAt, Usable;
    if leading + |text| > width && space >= 0 {
      assert Wrapped(text, leading, indent, width)[0].piece == text[..space];
    } else {
      NoBreakLeft(text, width - leading - 2);
    }
  }

  lemma NoBreakLeft(text: string, available: int)
    ensures BreakAt(text, available) < 0 ==> forall i :: 0 <= i < |text| ==> !Usable(text, i)
  {
  }

  /** No room at width 1, and the last break but one is taken. */
  lemma NoRoomBreaksLate()
    ensures BreakAt("a b c", 1 - 0 - 2) == 3 && FirstUsable("a b c", 0) == 1
  {
    assert FirstUsable("a b c", 1) == 1;
  }

  /** Of the breaks that fit, those with the continuation no longer than the
      width, the rightmost is taken unless it would fill the line exactly and
      another one fits. */
  lemma ExactFitIff(text: string, available: nat)
    requires available < |text| && LastUsable(text, available + 1) >= 0
    ensures BreakAt(text, available) == LastUsable(text, available + 1)
       <==> !Usable(text, available) || LastUsable(text, available) < 0
  {
  }

  /** Such a text: the break at 8 would fill the ten characters. */
  lemma ExactFitPassedOver()
    ensures BreakAt("aaa bbbb cc", 10 - 0 - 2) == 3
    ensures Usable("aaa bbbb cc", 8) && |"aaa bbbb" + " $"| == 10
  {
    var s := "aaa bbbb cc";
    assert LastUsable(s, 4) == 3;
    assert LastUsable(s, 6) == LastUsable(s, 5) == LastUsable(s, 4);
    assert LastUsable(s, 8) == LastUsable(s, 7) == LastUsable(s, 6);
  }

  // ---- the width, judged by what is really unescaped ----

  /** A space behind an even number of dollars. */
  predicate Unescaped(text: string, i: nat)
    requires i <= |text|
  {
    i < |text| && text[i] == ' ' && DollarsBefore(text, i) % 2 == 0
  }

  /** A space is judged rightly unless only dollars precede it. */
  lemma UsableIff(text: string, i: nat)
    requires i < |text| && text[i] == ' '
    ensures (Usable(text, i) <==> Unescaped(text, i)) <==> i == 0 || DollarsBefore(text, i) < i
  {
    CountIsRightIff(text, i);
  }

  /** The dollars the text starts with. */
  function LeadingDollars(text: string): (n: nat)
    ensures n <= |text| && (forall i :: 0 <= i < n ==> text[i] == '$')
    ensures n < |text| ==> text[n] != '$'
  {
    if text != [] && text[0] == '$' then 1 + LeadingDollars(text[1..]) else 0
  }

  /** A text that starts with an even number of dollars and a space: that space
      is unescaped, but the count is one short. */
  predicate HidesBreak(text: string) {
    var n := LeadingDollars(text);
    0 < n < |text| && n % 2 == 0 && text[n] == ' '
  }

  lemma {:induction false} OnlyDollarsBefore(text: string, i: nat)
    requires i <= |text|
    ensures DollarsBefore(text, i) == i <==> forall j :: 0 <= j < i ==> text[j] == '$'
  {
    if i > 0 && text[i - 1] == '$' {
      OnlyDollarsBefore(text, i - 1);
    }
  }

  /** What is left unbroken for want of a usable space. */
  lemma UnbrokenIff(text: string)
    requires forall i :: 0 <= i < |text| ==> !Usable(text, i)
    ensures (forall i :: 0 <= i < |text| ==> !Unescaped(text, i)) <==> !HidesBreak(text)
  {
    var n := LeadingDollars(text);
    if HidesBreak(text) {
      OnlyDollarsBefore(text, n);
      assert Unescaped(text, n);
    }
    forall i | 0 <= i < |text| && Unescaped(text, i)
      ensures HidesBreak(text)
    {
      UsableIff(text, i);
      OnlyDollarsBefore(text, i);
      assert i == n;
    }
  }

  /** No break is taken before the hidden one, so it ends up in the first line. */
  lemma HiddenBreakStays(text: string, space: nat)
    requires space < |text| && Usable(text, space)
    ensures HidesBreak(text[..space]) <==> HidesBreak(text)
  {
    var piece := text[..space];
    var n, m := LeadingDollars(text), LeadingDollars(piece);
    if HidesBreak(text) {
      CountIsRightIff(text, n);
      OnlyDollarsBefore(text, n);
      assert n < space;
      assert piece[n] == ' ' && m == n;
    }
    if HidesBreak(piece) {
      assert text[m] == ' ' && n == m;
    }
  }

  /** The text still to be written when line k is. */
  function TextAt(text: string, leading: nat, indent: nat, width: int, k: nat): string
    requires k < |Wrapped(text, leading, indent, width)|
    decreases k
  {
    if k == 0 then text
    else
      var space := BreakAt(text, width - leading - 2);
      TextAt(text[space + 1..], 2 * (indent + 2), indent, width, k - 1)
  }

  /** A line that is too long has no unescaped space, unless the text left to
      write starts with an even number of dollars and a space. */
  ghost predicate Unbroken(line: Physical, text: string, width: int) {
    |line.Line()| > width ==>
      ((forall i :: 0 <= i < |line.piece| ==> !Unescaped(line.piece, i)) <==> !HidesBreak(text))
  }

  lemma {:induction false} LinesUnbrokenIff(text: string, leading: nat, indent: nat, width: int, k: nat)
    requires leading + 2 <= width && 2 * (indent + 2) + 2 <= width
    requires k < |Wrapped(text, leading, indent, width)|
    ensures Unbroken(Wrapped(text, leading, indent, width)[k], TextAt(text, leading, indent, width, k), width)
    decreases |text|
  {
    hide BreakAt, Unbroken;
    var space := BreakAt(text, width - leading - 2);
    if k == 0 {
      FirstLineUnbrokenIff(text, leading, indent, width);
    } else {
      LinesUnbrokenIff(text[space + 1..], 2 * (indent + 2), indent, width, k - 1);
    }
  }

  lemma FirstLineUnbrokenIff(text: string, leading: nat, indent: nat, width: int)
    requires leading + 2 <= width
    ensures Unbroken(Wrapped(text, leading, indent, width)[0], text, width)
  {
    hide BreakAt, Usable, Unescaped, HidesBreak;
    var line := Wrapped(text, leading, indent, width)[0];
    FirstLineKeepsWidth(text, leading, indent, width);
    if |line.Line()| > width {
      UnbrokenIff(line.piece);
      if line.more {
        HiddenBreakStays(text, BreakAt(text, width - leading - 2));
      }
    }
  }

  lemma BreakIsSpace(text: string, available: int)
    requires BreakAt(text, available) >= 0
    ensures text[BreakAt(text, available)] == ' '
  {
  }

  /** A text that is not broken at an unescaped space although that would fit. */
  lemma HiddenBreakNotTaken()
    ensures var text := "$$ bbbbbbbbbbbb";
            && Wrapped(text, 0, 0, 10) == [Physical(0, text, false)] && |text| == 15
            && Unescaped(text, 2) && |text[..2] + " $"| <= 10
  {
    var text := "$$ bbbbbbbbbbbb";
    assert DollarsBefore(text, 2) == 1 + DollarsBefore(text, 1) == 2;
    forall i | 0 <= i < |text|
      ensures !Usable(text, i)
    {
      if i == 2 {
        assert CountedDollars(text, 2) == 1 + CountedDollars(text, 1) == 1;
      }
    }
  }

  // ---- reading it back ----

  function SkipSpaces(s: string): (r: string)
    ensures |r| <= |s|
  {
    if s != [] && s[0] == ' ' then SkipSpaces(s[1..]) else s
  }

  /** One logical line as Ninja's lexer joins it. */
  function Join(s: string): string
    decreases |s|
  {
    if s == [] || s[0] == '\n' then []
    else if s[0] == '$' && |s| > 1 then
      if s[1] == '\n' then Join(SkipSpaces(s[2..])) else [s[0], s[1]] + Join(s[2..])
    else [s[0]] + Join(s[1..])
  }

  /** Whether the text ends in the middle of an escape. */
  predicate Dangling(text: string)
    decreases |text|
  {
    if text == [] then false
    else if text[0] == '$' then |text| == 1 || Dangling(text[2..])
    else Dangling(text[1..])
  }

  predicate Indented(text: string) {
    text != [] && text[0] == ' '
  }

  /** Reading past a piece of text that leaves no escape open. */
  lemma {:induction false} JoinComplete(a: string, rest: string)
    requires '\n' !in a && !Dangling(a)
    ensures Join(a + rest) == a + Join(rest)
    decreases |a|
  {
    hide Join;
    if a == [] {
      assert a + rest == rest;
    } else {
      var n := if a[0] == '$' then 2 else 1;
      JoinComplete(a[n..], rest);
      JoinFirst(a, n, rest);
      assert a[..n] + (a[n..] + Join(rest)) == a + Join(rest);
    }
  }

  /** A text that ends inside an escape ends in the dollar that opens it. */
  lemma {:induction false} DanglingDollar(a: string)
    requires Dangling(a)
    ensures a != [] && a[|a| - 1] == '$' && !Dangling(a[..|a| - 1])
    decreases |a|
  {
    var b := a[..|a| - 1];
    if a[0] == '$' && |a| > 1 {
      DanglingDollar(a[2..]);
      assert b[2..] == a[2..][..|a[2..]| - 1];
    } else if a[0] != '$' {
      DanglingDollar(a[1..]);
      assert b[1..] == a[1..][..|a[1..]| - 1];
    }
  }

  /** Reading past one that does: the next character belongs to the escape. */
  lemma JoinOpen(a: string, rest: string)
    requires '\n' !in a && Dangling(a) && rest != []
    ensures rest[0] != '\n' ==> Join(a + rest) == a + [rest[0]] + Join(rest[1..])
    ensures rest[0] == '\n' ==> Join(a + rest) == a[..|a| - 1] + Join(SkipSpaces(rest[1..]))
  {
    hide Join, Dangling, SkipSpaces;
    DanglingDollar(a);
    var b := a[..|a| - 1];
    JoinEscape(rest);
    JoinComplete(b, ['$'] + rest);
    assert a + rest == b + (['$'] + rest);
    if rest[0] != '\n' {
      assert a + [rest[0]] + Join(rest[1..]) == b + (['$', rest[0]] + Join(rest[1..]));
    }
  }

  lemma JoinEscape(rest: string)
    requires rest != []
    ensures rest[0] != '\n' ==> Join(['$'] + rest) == ['$', rest[0]] + Join(rest[1..])
    ensures rest[0] == '\n' ==> Join(['$'] + rest) == Join(SkipSpaces(rest[1..]))
  {
    assert (['$'] + rest)[2..] == rest[1..];
  }

  /** One step of the lexer. */
  lemma JoinFirst(a: string, n: nat, rest: string)
    requires '\n' !in a && a != [] && n == (if a[0] == '$' then 2 else 1) && n <= |a|
    ensures Join(a + rest) == a[..n] + Join(a[n..] + rest)
  {
    assert (a + rest)[n..] == a[n..] + rest;
    assert a[1..] + rest == (a + rest)[1..];
  }

  lemma {:induction false} DanglingAfterSpace(a: string, t: string)
    ensures Dangling(a + [' '] + t) == Dangling(t)
    decreases |a|
  {
    var s := a + [' '] + t;
    if a == [] {
      assert s[1..] == t;
    } else if a[0] == '$' && |a| == 1 {
      assert s[2..] == t;
    } else if a[0] == '$' {
      assert s[2..] == a[2..] + [' '] + t;
      DanglingAfterSpace(a[2..], t);
    } else {
      assert s[1..] == a[1..] + [' '] + t;
      DanglingAfterSpace(a[1..], t);
    }
  }

  lemma {:induction false} SkipIndentation(n: nat, t: string)
    ensures SkipSpaces(Spaces(n) + t) == SkipSpaces(t)
  {
    if n > 0 {
      assert (Spaces(n) + t)[1..] == Spaces(n - 1) + t;
      SkipIndentation(n - 1, t);
    } else {
      assert Spaces(0) + t == t;
    }
  }

  lemma {:induction false} SkipThrough(a: string, rest: string)
    requires !Indented(rest)
    ensures SkipSpaces(a + rest) == SkipSpaces(a) + rest
    decreases |a|
  {
    if Indented(a) {
      assert (a + rest)[1..] == a[1..] + rest;
      SkipThrough(a[1..], rest);
    } else if a == [] {
      assert a + rest == rest;
    }
  }

  lemma {:induction false} SkipPiece(a: string)
    ensures SkipSpaces(a + [' ']) == if SkipSpaces(a) == [] then [] else SkipSpaces(a) + [' ']
    decreases |a|
  {
    if Indented(a) {
      assert (a + [' '])[1..] == a[1..] + [' '];
      SkipPiece(a[1..]);
    } else if a == [] {
      assert a + [' '] == [' '];
    }
  }

  /** Spaces in front are no part of an escape. */
  lemma {:induction false} SkipKeeps(a: string)
    ensures Dangling(SkipSpaces(a)) == Dangling(a)
    ensures '\n' !in a ==> '\n' !in SkipSpaces(a)
    ensures SkipSpaces(a) == a <==> !Indented(a)
    ensures Indented(a) ==> |SkipSpaces(a)| < |a|
    decreases |a|
  {
    if Indented(a) {
      SkipKeeps(a[1..]);
    }
  }

  lemma JoinSpace(rest: string)
    ensures Join([' '] + rest) == [' '] + Join(rest)
  {
    assert ([' '] + rest)[1..] == rest;
  }

  /** A line that goes on: it reads as its piece and the space, then the rest. */
  lemma JoinContinued(piece: string, leading: nat, rest: string)
    requires '\n' !in piece
    ensures Join(piece + [' ', '$'] + ['\n'] + (Spaces(leading) + rest))
         == piece + [' '] + Join(SkipSpaces(rest))
  {
    hide Join, Dangling, SkipSpaces;
    var tail := Spaces(leading) + rest;
    var cont := ['$'] + (['\n'] + tail);
    SkipIndentation(leading, rest);
    JoinEscape(['\n'] + tail);
    assert (['\n'] + tail)[1..] == tail;
    assert piece + [' ', '$'] + ['\n'] + tail == piece + ([' '] + cont);
    JoinSpace(cont);
    assert ([' '] + cont)[1..] == cont;
    if Dangling(piece) {
      JoinOpen(piece, [' '] + cont);
    } else {
      JoinComplete(piece, [' '] + cont);
    }
    assert piece + ([' '] + Join(cont)) == piece + [' '] + Join(cont);
  }

  /** The text without the spaces that its lines start with. */
  function ReadBack(text: string, leading: nat, indent: nat, width: int): string
    decreases |text|
  {
    var space := BreakAt(text, width - leading - 2);
    if leading + |text| <= width || space < 0 then SkipSpaces(text)
    else SkipSpaces(text[..space + 1]) + ReadBack(text[space + 1..], 2 * (indent + 2), indent, width)
  }

  /** What Ninja reads: that, whatever follows in the file, as long as the text
      does not end inside an escape; an open escape loses its dollar and swallows
      the next line. */
  lemma {:induction false} LineRoundTrip(text: string, leading: nat, indent: nat, width: int, more: string)
    requires '\n' !in text
    ensures var read := Join(SkipSpaces(Output(Wrapped(text, leading, indent, width)) + more));
            var kept := ReadBack(text, leading, indent, width);
            if Dangling(text) then kept != [] && read == kept[..|kept| - 1] + Join(SkipSpaces(more)) else read == kept
    decreases |text|
  {
    hide BreakAt, Join, SkipSpaces, Dangling;
    var space := BreakAt(text, width - leading - 2);
    if leading + |text| <= width || space < 0 {
      LastLine(text, leading, indent, width);
      LastLineRead(text, leading, more);
    } else {
      BreakIsSpace(text, width - leading - 2);
      FirstLine(text, leading, indent, width);
      ContinuedLineRead(text, leading, indent, width, more, space);
    }
  }

  lemma LastLineRead(text: string, leading: nat, more: string)
    requires '\n' !in text
    ensures var read := Join(SkipSpaces(Spaces(leading) + text + ['\n'] + more));
            var kept := SkipSpaces(text);
            if Dangling(text) then kept != [] && read == kept[..|kept| - 1] + Join(SkipSpaces(more)) else read == kept
  {
    hide Dangling, SkipSpaces;
    var kept, end := SkipSpaces(text), ['\n'] + more;
    SkipIndentation(leading, text + end);
    assert Spaces(leading) + text + ['\n'] + more == Spaces(leading) + (text + end);
    SkipThrough(text, end);
    SkipKeeps(text);
    assert end[1..] == more;
    if Dangling(text) {
      DanglingDollar(kept);
      JoinOpen(kept, end);
    } else {
      JoinComplete(kept, end);
    }
  }

  lemma {:induction false} ContinuedLineRead(text: string, leading: nat, indent: nat, width: int,
                                             more: string, space: nat)
    requires '\n' !in text && space < |text| && text[space] == ' '
    ensures var rest := text[space + 1..];
            var out := Spaces(leading) + text[..space] + [' ', '$'] + ['\n']
                       + Output(Wrapped(rest, 2 * (indent + 2), indent, width));
            var kept := SkipSpaces(text[..space + 1]) + ReadBack(rest, 2 * (indent + 2), indent, width);
            if Dangling(text)
            then kept != [] && Join(SkipSpaces(out + more)) == kept[..|kept| - 1] + Join(SkipSpaces(more))
            else Join(SkipSpaces(out + more)) == kept
    decreases |text|, 0
  {
    hide Wrapped, Join, Dangling, Output, SkipSpaces, ReadBack;
    var piece, rest := text[..space], text[space + 1..];
    var first := SkipSpaces(text[..space + 1]);
    var lines := Output(Wrapped(rest, 2 * (indent + 2), indent, width));
    LineRoundTrip(rest, 2 * (indent + 2), indent, width, more);
    ContinuationRead(piece, leading, lines + more);
    assert text[..space + 1] == piece + [' '];
    assert Spaces(leading) + piece + [' ', '$'] + ['\n'] + lines + more
        == Spaces(leading) + piece + [' ', '$'] + ['\n'] + (lines + more);
    DanglingAfterSpace(piece, rest);
    assert text == piece + [' '] + rest;
    if Dangling(rest) {
      var kept := ReadBack(rest, 2 * (indent + 2), indent, width);
      assert first + (kept[..|kept| - 1] + Join(SkipSpaces(more)))
          == (first + kept)[..|first + kept| - 1] + Join(SkipSpaces(more));
    }
  }

  lemma ContinuationRead(piece: string, leading: nat, after: string)
    requires '\n' !in piece
    ensures Join(SkipSpaces(Spaces(leading) + piece + [' ', '$'] + ['\n'] + after))
         == SkipSpaces(piece + [' ']) + Join(SkipSpaces(after))
  {
    hide Join, SkipSpaces, Dangling, Spaces;
    var kept := SkipSpaces(piece);
    ContinuationSkipped(piece, leading, after);
    SkipPiece(piece);
    SkipKeeps(piece);
    if kept == [] {
      NothingKept(after);
    } else {
      JoinKept(kept, after);
    }
  }

  lemma ContinuationSkipped(piece: string, leading: nat, after: string)
    ensures SkipSpaces(Spaces(leading) + piece + [' ', '$'] + ['\n'] + after)
         == SkipSpaces(piece + [' ']) + (['$'] + (['\n'] + after))
  {
    hide SkipSpaces, Spaces;
    var cont := ['$'] + (['\n'] + after);
    SkipIndentation(leading, piece + [' '] + cont);
    assert Spaces(leading) + piece + [' ', '$'] + ['\n'] + after == Spaces(leading) + (piece + [' '] + cont);
    SkipThrough(piece + [' '], cont);
  }

  lemma NothingKept(after: string)
    ensures Join([] + (['$'] + (['\n'] + after))) == [] + Join(SkipSpaces(after))
  {
    hide Join, SkipSpaces;
    JoinEscape(['\n'] + after);
    assert [] + (['$'] + (['\n'] + after)) == ['$'] + (['\n'] + after) && (['\n'] + after)[1..] == after;
  }

  lemma JoinKept(kept: string, after: string)
    requires '\n' !in kept
    ensures Join((kept + [' ']) + (['$'] + (['\n'] + after))) == (kept + [' ']) + Join(SkipSpaces(after))
  {
    hide Join, SkipSpaces;
    JoinContinued(kept, 0, after);
    assert Spaces(0) + after == after;
    assert (kept + [' ']) + (['$'] + (['\n'] + after)) == kept + [' ', '$'] + ['\n'] + (Spaces(0) + after);
  }

  /** No physical line starts with a space of the text. */
  ghost predicate NoneIndented(text: string, leading: nat, indent: nat, width: int) {
    forall k :: 0 <= k < |Wrapped(text, leading, indent, width)| ==> !Indented(TextAt(text, leading, indent, width, k))
  }

  lemma NoneIndentedLast(text: string, leading: nat, indent: nat, width: int)
    requires leading + |text| <= width || BreakAt(text, width - leading - 2) < 0
    ensures NoneIndented(text, leading, indent, width) <==> !Indented(text)
  {
    hide BreakAt, Indented;
    assert |Wrapped(text, leading, indent, width)| == 1 && TextAt(text, leading, indent, width, 0) == text;
  }

  lemma NoneIndentedStep(text: string, leading: nat, indent: nat, width: int)
    requires leading + |text| > width && BreakAt(text, width - leading - 2) >= 0
    ensures NoneIndented(text, leading, indent, width)
       <==> && !Indented(text)
            && NoneIndented(text[BreakAt(text, width - leading - 2) + 1..], 2 * (indent + 2), indent, width)
  {
    hide BreakAt, Indented;
    var rest, next := text[BreakAt(text, width - leading - 2) + 1..], 2 * (indent + 2);
    assert |Wrapped(text, leading, indent, width)| == 1 + |Wrapped(rest, next, indent, width)|;
    assert TextAt(text, leading, indent, width, 0) == text;
    forall k | 0 <= k < |Wrapped(rest, next, indent, width)|
      ensures TextAt(text, leading, indent, width, k + 1) == TextAt(rest, next, indent, width, k)
    {
    }
    if NoneIndented(rest, next, indent, width) && !Indented(text) {
      forall k | 0 <= k < |Wrapped(text, leading, indent, width)|
        ensures !Indented(TextAt(text, leading, indent, width, k))
      {
        if k > 0 {
          assert !Indented(TextAt(rest, next, indent, width, k - 1));
        }
      }
    }
    if NoneIndented(text, leading, indent, width) {
      forall k | 0 <= k < |Wrapped(rest, next, indent, width)|
        ensures !Indented(TextAt(rest, next, indent, width, k))
      {
        assert !Indented(TextAt(text, leading, indent, width, k + 1));
      }
    }
  }

  /** All of the text is kept if and only if that is so. */
  lemma {:induction false} ReadBackIff(text: string, leading: nat, indent: nat, width: int)
    ensures |ReadBack(text, leading, indent, width)| <= |text|
    ensures ReadBack(text, leading, indent, width) == text <==> NoneIndented(text, leading, indent, width)
    decreases |text|
  {
    hide BreakAt, SkipSpaces, Indented, NoneIndented;
    var space := BreakAt(text, width - leading - 2);
    if leading + |text| <= width || space < 0 {
      NoneIndentedLast(text, leading, indent, width);
      SkipKeeps(text);
    } else {
      var rest := text[space + 1..];
      NoneIndentedStep(text, leading, indent, width);
      ReadBackIff(rest, 2 * (indent + 2), indent, width);
      SkipKeeps(text[..space + 1]);
      IndentedPrefix(text, space + 1);
      SameParts(SkipSpaces(text[..space + 1]), ReadBack(rest, 2 * (indent + 2), indent, width), text, space + 1);
    }
  }

  /** Two parts no longer than those of the text are the text only if each is. */
  lemma SameParts(a: string, b: string, text: string, n: nat)
    requires n <= |text| && |a| <= n && |b| <= |text| - n
    ensures a + b == text <==> a == text[..n] && b == text[n..]
  {
    assert text == text[..n] + text[n..];
    if a + b == text {
      assert |a| == n;
      assert (a + b)[..n] == a && (a + b)[n..] == b;
    }
  }

  lemma IndentedPrefix(text: string, n: nat)
    requires 0 < n <= |text|
    ensures Indented(text[..n]) == Indented(text)
  {
  }

  /** Ninja reads the text back from this layout, whatever follows. */
  ghost predicate ReadFrom(text: string, leading: nat, indent: nat, width: int) {
    forall more :: Join(SkipSpaces(Output(Wrapped(text, leading, indent, width)) + more)) == text
  }

  /** Any one line of text is read back in front of anything if and only if it
      does not end inside an escape and no physical line starts with a space of
      the text. */
  lemma LineReadIff(text: string, leading: nat, indent: nat, width: int)
    requires '\n' !in text
    ensures ReadFrom(text, leading, indent, width)
       <==> !Dangling(text) && NoneIndented(text, leading, indent, width)
  {
    hide Join, Wrapped, Output, Dangling, SkipSpaces, ReadBack, NoneIndented;
    ReadBackIff(text, leading, indent, width);
    NothingRead();
    LineRoundTrip(text, leading, indent, width, []);
    if !Dangling(text) {
      forall more
        ensures Join(SkipSpaces(Output(Wrapped(text, leading, indent, width)) + more))
             == ReadBack(text, leading, indent, width)
      {
        LineRoundTrip(text, leading, indent, width, more);
      }
    }
  }

  lemma NothingRead()
    ensures Join(SkipSpaces([])) == []
  {
  }

  /** A text that ends in an open escape is lost. */
  lemma OpenEscapeLost()
    ensures Dangling(['$']) && Join(SkipSpaces(Output(Wrapped(['$'], 0, 0, 78)))) == []
  {
    assert Dangling(['$']) && SkipSpaces(['$']) == ['$'];
    hide Join, Output, Dangling, SkipSpaces, BreakAt;
    assert Output(Wrapped(['$'], 0, 0, 78)) + [] == Output(Wrapped(['$'], 0, 0, 78));
    LineRoundTrip(['$'], 0, 0, 78, []);
    NothingRead();
  }

  /** So is a space at the start of a continuation. */
  lemma SpaceLost()
    ensures var text := ['a', 'a', 'a', 'a', ' ', ' ', 'b'];
            Join(SkipSpaces(Output(Wrapped(text, 0, 0, 6)))) == ['a', 'a', 'a', 'a', ' ', 'b']
  {
    var text := ['a', 'a', 'a', 'a', ' ', ' ', 'b'];
    assert !Dangling(text) && LastUsable(text, 4) == -1 && BreakAt(text, 4) == 4;
    assert SkipSpaces([' ', 'b']) == SkipSpaces(['b']) == ['b'];
    assert text[..5] == ['a', 'a', 'a', 'a', ' '] && SkipSpaces(text[..5]) == text[..5];
    assert text[5..] == [' ', 'b'];
    hide Join, Output, Dangling, SkipSpaces, BreakAt, Wrapped;
    assert ReadBack(text, 0, 0, 6) == text[..5] + ReadBack([' ', 'b'], 4, 0, 6);
    assert ReadBack([' ', 'b'], 4, 0, 6) == ['b'];
    assert Output(Wrapped(text, 0, 0, 6)) + [] == Output(Wrapped(text, 0, 0, 6));
    LineRoundTrip(text, 0, 0, 6, []);
  }

  // ---- escape and expand ----

  /** escape: refuses newlines, doubles dollars. */
  function Escape(s: string): Option<string> {
    if '\n' in s then None else Some(Doubled(s))
  }

  function Doubled(s: string): string {
    if s == [] then [] else (if s[0] == '$' then ['$', '$'] else [s[0]]) + Doubled(s[1..])
  }

  /** Word characters at the front of s. */
  function WordLength(s: string, isWord: char -> bool): (n: nat)
    ensures n <= |s|
  {
    if s != [] && isWord(s[0]) then 1 + WordLength(s[1..], isWord) else 0
  }

  function Lookup(name: string, vars: map<string, string>, localVars: map<string, string>): string {
    if name in localVars then localVars[name] else if name in vars then vars[name] else []
  }

  /** expand: substitutes each `$$` and each `$` with the word after it. */
  function Expand(s: string, vars: map<string, string>, localVars: map<string, string>, isWord: char -> bool): string
    decreases |s|
  {
    if s == [] then []
    else if s[0] != '$' then [s[0]] + Expand(s[1..], vars, localVars, isWord)
    else if |s| > 1 && s[1] == '$' then ['$'] + Expand(s[2..], vars, localVars, isWord)
    else
      var n := WordLength(s[1..], isWord);
      Lookup(s[1..1 + n], vars, localVars) + Expand(s[1 + n..], vars, localVars, isWord)
  }

  /** Escaped text expands to itself wherever it is put, whatever is defined. */
  lemma {:induction false} ExpandEscaped(s: string, rest: string, vars: map<string, string>,
                                         localVars: map<string, string>, isWord: char -> bool)
    ensures Expand(Doubled(s) + rest, vars, localVars, isWord) == s + Expand(rest, vars, localVars, isWord)
  {
    hide Expand, Doubled;
    DoubledFirst(s);
    if s == [] {
      assert Doubled(s) + rest == rest;
    } else {
      ExpandEscaped(s[1..], rest, vars, localVars, isWord);
      var tail := Doubled(s[1..]) + rest;
      ExpandFirst(s[0], tail, vars, localVars, isWord);
      assert Doubled(s) + rest == (if s[0] == '$' then ['$', '$'] else [s[0]]) + tail;
      assert [s[0]] + (s[1..] + Expand(rest, vars, localVars, isWord)) == s + Expand(rest, vars, localVars, isWord);
    }
  }

  /** escape refuses exactly the texts with a newline, and expansion undoes it,
      whatever is defined. */
  lemma EscapeExpands(s: string, vars: map<string, string>, localVars: map<string, string>, isWord: char -> bool)
    ensures Escape(s).None? <==> '\n' in s
    ensures Escape(s).Some? ==> Expand(Escape(s).value, vars, localVars, isWord) == s
  {
    ExpandEscaped(s, [], vars, localVars, isWord);
    assert Doubled(s) + [] == Doubled(s);
  }

  lemma {:induction false} WordEnds(name: string, rest: string, isWord: char -> bool)
    requires forall i :: 0 <= i < |name| ==> isWord(name[i])
    requires rest != [] ==> !isWord(rest[0])
    ensures WordLength(name + rest, isWord) == |name|
  {
    if name == [] {
      assert name + rest == rest;
    } else {
      assert (name + rest)[1..] == name[1..] + rest;
      WordEnds(name[1..], rest, isWord);
    }
  }

  /** A reference is replaced by the local value of its name, or else the global
      one, or else by nothing, and what follows the name is expanded. */
  lemma ReferenceExpands(name: string, rest: string, vars: map<string, string>, localVars: map<string, string>,
                         isWord: char -> bool)
    requires forall i :: 0 <= i < |name| ==> isWord(name[i])
    requires rest != [] ==> !isWord(rest[0])
    requires name + rest != [] ==> (name + rest)[0] != '$'
    ensures var after := Expand(rest, vars, localVars, isWord);
            var result := Expand(['$'] + name + rest, vars, localVars, isWord);
            && (name in localVars ==> result == localVars[name] + after)
            && (name !in localVars && name in vars ==> result == vars[name] + after)
            && (name !in localVars && name !in vars ==> result == after)
  {
    var s := ['$'] + name + rest;
    WordEnds(name, rest, isWord);
    assert s[1..] == name + rest;
    assert s[1..1 + |name|] == name && s[1 + |name|..] == rest;
    assert Expand(s, vars, localVars, isWord)
        == Lookup(name, vars, localVars) + Expand(rest, vars, localVars, isWord);
    assert [] + Expand(rest, vars, localVars, isWord) == Expand(rest, vars, localVars, isWord);
  }

  lemma DoubledFirst(s: string)
    ensures Doubled(s) == if s == [] then [] else (if s[0] == '$' then ['$', '$'] else [s[0]]) + Doubled(s[1..])
  {
  }

  lemma ExpandFirst(c: char, tail: string, vars: map<string, string>,
                    localVars: map<string, string>, isWord: char -> bool)
    ensures Expand((if c == '$' then ['$', '$'] else [c]) + tail, vars, localVars, isWord)
         == [c] + Expand(tail, vars, localVars, isWord)
  {
    var t := (if c == '$' then ['$', '$'] else [c]) + tail;
    assert t[if c == '$' then 2 else 1..] == tail;
  }

  /** Escaped text never ends inside an escape, so _line keeps it. */
  lemma {:induction false} EscapedIsComplete(s: string)
    ensures !Dangling(Doubled(s))
  {
    if s != [] {
      EscapedIsComplete(s[1..]);
      var t := Doubled(s);
      if s[0] == '$' {
        assert t[2..] == Doubled(s[1..]);
      } else {
        assert t[1..] == Doubled(s[1..]);
      }
    }
  }
}
