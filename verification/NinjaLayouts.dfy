// Where _line of tools/ninja_syntax.py can start a line of a text, and from that
// which texts it never leaves unbroken at a space that is not escaped and which
// are always read back.  A layout is the width, the indentation of the first
// line and, independent of it, that of the continuations; the loop works for all
// of them, though _line itself puts continuations four further in.
module NinjaLayouts {
  import opened NinjaWriter

  /** A line of the text can start at p: in front, or behind a space that the
      code takes for unescaped, seen from the front of the text or, for a word of
      an odd number of dollars, from the start of that very word. */
  predicate CanStart(text: string, p: nat)
    requires p <= |text|
    decreases p
  {
    || p == 0
    || (text[p - 1] == ' '
        && (Usable(text, p - 1)
            || (var d := DollarsBefore(text, p - 1);
                d % 2 == 1 && d < p - 1 && CanStart(text, p - 1 - d))))
  }

  // ---- a line starts nowhere else ----

  lemma {:induction false} DollarsFromHere(text: string, q: nat, i: nat)
    requires q + i <= |text|
    ensures DollarsBefore(text[q..], i) < i ==> DollarsBefore(text, q + i) == DollarsBefore(text[q..], i)
    ensures DollarsBefore(text[q..], i) == i && (q == 0 || text[q - 1] != '$') ==> DollarsBefore(text, q + i) == i
  {
    if i > 0 && text[q + i - 1] == '$' {
      DollarsFromHere(text, q, i - 1);
    }
  }

  /** A space judged from a line start is one the whole text lets start a line. */
  lemma UsableFromHere(text: string, q: nat, i: nat)
    requires q <= |text| && i < |text| - q && CanStart(text, q) && Usable(text[q..], i)
    ensures CanStart(text, q + i + 1)
  {
    var rest := text[q..];
    assert text[q + i] == rest[i] == ' ';
    CountIsRightIff(rest, i);
    CountIsRightIff(text, q + i);
    DollarsFromHere(text, q, i);
  }

  lemma {:induction false} StartsCompose(text: string, q: nat, r: nat)
    requires q <= |text| && r <= |text| - q && CanStart(text, q) && CanStart(text[q..], r)
    ensures CanStart(text, q + r)
    decreases r
  {
    if r > 0 {
      var rest := text[q..];
      if Usable(rest, r - 1) {
        UsableFromHere(text, q, r - 1);
      } else {
        var d := DollarsBefore(rest, r - 1);
        DollarsFromHere(text, q, r - 1);
        assert text[q + r - 1] == rest[r - 1];
        StartsCompose(text, q, r - 1 - d);
      }
    }
  }

  /** Every line starts at such a place. */
  lemma {:induction false} LineStarts(text: string, leading: nat, indent: nat, width: int, k: nat) returns (p: nat)
    requires k < |Wrapped(text, leading, indent, width)|
    ensures p <= |text| && CanStart(text, p) && TextAt(text, leading, indent, width, k) == text[p..]
    decreases k
  {
    hide BreakAt, CanStart, TextAt, Wrapped;
    TextAtFront(text, leading, indent, width);
    if k == 0 {
      p := 0;
      FrontStarts(text);
    } else {
      WrappedTail(text, leading, indent, width, k);
      var space := BreakAt(text, width - leading - 2);
      var rest := text[space + 1..];
      BreakStarts(text, width - leading - 2);
      var r := LineStarts(rest, 2 * (indent + 2), indent, width, k - 1);
      StartsCompose(text, space + 1, r);
      p := space + 1 + r;
      assert rest[r..] == text[p..];
    }
  }

  lemma FrontStarts(text: string)
    ensures CanStart(text, 0)
  {
  }

  lemma BreakStarts(text: string, available: int)
    requires BreakAt(text, available) >= 0
    ensures CanStart(text, BreakAt(text, available) + 1)
  {
    BreakUsable(text, available);
    hide BreakAt;
  }

  lemma BreakUsable(text: string, available: int)
    requires BreakAt(text, available) >= 0
    ensures Usable(text, BreakAt(text, available))
  {
  }

  // ---- and it can start there ----

  /** When lines are as short as can be, the first usable space is the break. */
  lemma FirstBreak(text: string)
    ensures BreakAt(text, 0) == FirstUsable(text, 0)
  {
    assert LastUsable(text, 0) == -1;
  }

  /** The text after the break of line k is what line k + 1 starts with. */
  lemma {:induction false} NextText(text: string, indent: nat, width: int, k: nat)
    requires k < |Wrapped(text, 2 * (indent + 2), indent, width)|
    requires var now := TextAt(text, 2 * (indent + 2), indent, width, k);
             2 * (indent + 2) + |now| > width && BreakAt(now, width - 2 * (indent + 2) - 2) >= 0
    ensures k + 1 < |Wrapped(text, 2 * (indent + 2), indent, width)|
    ensures var now := TextAt(text, 2 * (indent + 2), indent, width, k);
            TextAt(text, 2 * (indent + 2), indent, width, k + 1)
            == now[BreakAt(now, width - 2 * (indent + 2) - 2) + 1..]
    decreases k
  {
    hide BreakAt;
    var lead := 2 * (indent + 2);
    var space := BreakAt(text, width - lead - 2);
    if k == 0 {
      assert TextAt(text[space + 1..], lead, indent, width, 0) == text[space + 1..];
    } else {
      NextText(text[space + 1..], indent, width, k - 1);
    }
  }

  lemma WrappedTail(text: string, leading: nat, indent: nat, width: int, k: nat)
    requires 0 < k < |Wrapped(text, leading, indent, width)|
    ensures var rest, lead := text[BreakAt(text, width - leading - 2) + 1..], 2 * (indent + 2);
            && BreakAt(text, width - leading - 2) >= 0
            && k - 1 < |Wrapped(rest, lead, indent, width)|
            && Wrapped(text, leading, indent, width)[k] == Wrapped(rest, lead, indent, width)[k - 1]
            && TextAt(text, leading, indent, width, k) == TextAt(rest, lead, indent, width, k - 1)
  {
    hide BreakAt;
  }

  /** Line k is the first line of what is then left to write. */
  lemma {:induction false} LineOfText(text: string, leading: nat, indent: nat, width: int, k: nat)
    requires k < |Wrapped(text, leading, indent, width)|
    ensures var lead := if k == 0 then leading else 2 * (indent + 2);
            Wrapped(text, leading, indent, width)[k]
            == Wrapped(TextAt(text, leading, indent, width, k), lead, indent, width)[0]
    decreases k
  {
    hide BreakAt, Wrapped, TextAt;
    if k > 0 {
      WrappedTail(text, leading, indent, width, k);
      LineOfText(text[BreakAt(text, width - leading - 2) + 1..], 2 * (indent + 2), indent, width, k - 1);
    }
    TextAtFront(text, leading, indent, width);
  }

  lemma TextAtFront(text: string, leading: nat, indent: nat, width: int)
    ensures TextAt(text, leading, indent, width, 0) == text
  {
  }

  /** Back along the words of dollars to a place that a break seen from the front
      of the text leads to. */
  function Root(text: string, p: nat): (r: nat)
    requires p <= |text| && CanStart(text, p)
    ensures r <= p && CanStart(text, r) && (r == 0 || Usable(text, r - 1))
    decreases p
  {
    if p == 0 || Usable(text, p - 1) then p else Root(text, p - 1 - DollarsBefore(text, p - 1))
  }

  /** From there lines as short as can be reach p, word by word. */
  lemma {:induction false} WordByWord(text: string, p: nat, indent: nat) returns (k: nat)
    requires p < |text| && CanStart(text, p)
    ensures var lead := 2 * (indent + 2);
            var rest := text[Root(text, p)..];
            && k < |Wrapped(rest, lead, indent, lead + 2)|
            && TextAt(rest, lead, indent, lead + 2, k) == text[p..]
    decreases p
  {
    hide BreakAt, Usable, Wrapped, TextAt;
    var lead, root := 2 * (indent + 2), Root(text, p);
    if p == root {
      k := 0;
      TextAtFront(text[root..], lead, indent, lead + 2);
    } else {
      var d := DollarsBefore(text, p - 1);
      var w := p - 1 - d;
      k := WordByWord(text, w, indent);
      DollarWordBreaks(text, w, d);
      NextText(text[root..], indent, lead + 2, k);
      assert text[w..][d + 1..] == text[p..];
      k := k + 1;
    }
  }

  /** An odd number of dollars at the start of a line is broken off. */
  lemma DollarWordBreaks(text: string, w: nat, d: nat)
    requires w + d < |text| && d % 2 == 1 && DollarsBefore(text, w + d) == d && text[w + d] == ' '
    ensures BreakAt(text[w..], 0) == d
  {
    var now := text[w..];
    DollarsAre(text, w, d);
    OnlyDollarsBefore(now, d);
    CountIsRightIff(now, d);
    assert Usable(now, d);
    assert forall j :: 0 <= j < d ==> now[j] == '$';
    FirstBreak(now);
  }

  lemma {:induction false} DollarsAre(text: string, w: nat, d: nat)
    requires w + d <= |text| && DollarsBefore(text, w + d) >= d
    ensures forall j :: 0 <= j < d ==> text[w..][j] == '$'
  {
    if d > 0 {
      DollarsAre(text, w, d - 1);
    }
  }

  /** Room for a break on every line. */
  predicate Roomy(leading: nat, indent: nat, width: int) {
    leading + 2 <= width && 2 * (indent + 2) + 2 <= width
  }

  /** A layout in which a line starts at p, with no more room than that. */
  lemma StartReached(text: string, p: nat) returns (leading: nat, indent: nat, width: int, k: nat)
    requires p + 3 <= |text| && CanStart(text, p)
    ensures Roomy(leading, indent, width) && k < |Wrapped(text, leading, indent, width)|
    ensures TextAt(text, leading, indent, width, k) == text[p..]
    ensures width == (if k == 0 then leading else 2 * (indent + 2)) + 2
  {
    hide Usable, Wrapped, TextAt, CanStart, BreakAt;
    indent := |text|;
    var lead, root := 2 * (indent + 2), Root(text, p);
    width := lead + 2;
    k := WordByWord(text, p, indent);
    if root == 0 {
      leading := lead;
      assert text[0..] == text;
    } else {
      leading := lead - root;
      BreakAtRoot(text, root);
      ContinuedAt(text, leading, indent, width, k);
      k := k + 1;
    }
  }

  lemma BreakAtRoot(text: string, root: nat)
    requires 0 < root < |text| && Usable(text, root - 1)
    ensures BreakAt(text, root) == BreakAt(text, root - |text|) == root - 1
  {
    assert LastUsable(text, root) == root - 1;
    assert Clamp(root - |text|, |text|) == root;
  }

  lemma ContinuedAt(text: string, leading: nat, indent: nat, width: int, k: nat)
    requires leading + |text| > width && BreakAt(text, width - leading - 2) >= 0
    requires var rest := text[BreakAt(text, width - leading - 2) + 1..];
             k < |Wrapped(rest, 2 * (indent + 2), indent, width)|
    ensures k + 1 < |Wrapped(text, leading, indent, width)|
    ensures var rest := text[BreakAt(text, width - leading - 2) + 1..];
            TextAt(text, leading, indent, width, k + 1) == TextAt(rest, 2 * (indent + 2), indent, width, k)
  {
    hide BreakAt;
  }

  /** The same without room on the first line: the search bound then counts from
      the end of the text, so p may be as near to it as can be. */
  lemma StartReachedTight(text: string, p: nat) returns (leading: nat, indent: nat, width: int, k: nat)
    requires p < |text| && CanStart(text, p)
    ensures k < |Wrapped(text, leading, indent, width)| && TextAt(text, leading, indent, width, k) == text[p..]
  {
    hide Usable, Wrapped, TextAt, CanStart, BreakAt;
    indent := |text|;
    var lead, root := 2 * (indent + 2), Root(text, p);
    width := lead + 2;
    k := WordByWord(text, p, indent);
    if root == 0 {
      leading := lead;
      assert text[0..] == text;
    } else {
      leading := lead + |text| - root;
      BreakAtRoot(text, root);
      ContinuedAt(text, leading, indent, width, k);
      k := k + 1;
    }
  }

  // ---- the texts that are always broken where they can be ----

  /** A line within the width, or without an unescaped space. */
  ghost predicate Cut(line: Physical, width: int) {
    |line.Line()| > width ==> forall i :: 0 <= i < |line.piece| ==> !Unescaped(line.piece, i)
  }

  ghost predicate AlwaysCut(text: string) {
    forall leading: nat, indent: nat, width: int, k: nat ::
      Roomy(leading, indent, width) && k < |Wrapped(text, leading, indent, width)| ==>
        Cut(Wrapped(text, leading, indent, width)[k], width)
  }

  /** A line with no room for the hidden break is too long. */
  lemma HiddenTooLong(text: string, lead: nat, indent: nat)
    requires HidesBreak(text)
    ensures |Wrapped(text, lead, indent, lead + 2)[0].Line()| > lead + 2
  {
    var space := BreakAt(text, 0);
    if space >= 0 {
      BreakUsable(text, 0);
      HiddenBreakStays(text, space);
      assert |text[..space]| >= 3;
    }
    hide BreakAt, Usable;
  }

  /** A place where a line can start and an unescaped space is hidden. */
  ghost predicate HiddenAt(text: string, p: nat) {
    p <= |text| && CanStart(text, p) && HidesBreak(text[p..])
  }

  lemma CutUnlessHidden(text: string, leading: nat, indent: nat, width: int, k: nat)
    requires Roomy(leading, indent, width) && k < |Wrapped(text, leading, indent, width)|
    requires forall p: nat :: !HiddenAt(text, p)
    ensures Cut(Wrapped(text, leading, indent, width)[k], width)
  {
    hide Wrapped, TextAt, HidesBreak, CanStart, Unescaped;
    LinesUnbrokenIff(text, leading, indent, width, k);
    var p := LineStarts(text, leading, indent, width, k);
    assert !HiddenAt(text, p);
  }

  lemma HiddenNotCut(text: string, p: nat) returns (leading: nat, indent: nat, width: int, k: nat)
    requires HiddenAt(text, p)
    ensures Roomy(leading, indent, width) && k < |Wrapped(text, leading, indent, width)|
    ensures !Cut(Wrapped(text, leading, indent, width)[k], width)
  {
    hide Wrapped, TextAt, HidesBreak, CanStart, Unescaped;
    HidingIsLong(text[p..]);
    leading, indent, width, k := StartReached(text, p);
    LineOfText(text, leading, indent, width, k);
    HiddenTooLong(text[p..], if k == 0 then leading else 2 * (indent + 2), indent);
    LinesUnbrokenIff(text, leading, indent, width, k);
  }

  /** Over all indentations and widths with room for a break, every line that is
      too long is without an unescaped space if and only if the text has no even
      number of dollars followed by a space at a place where a line can start. */
  lemma AlwaysCutIff(text: string)
    ensures AlwaysCut(text) <==> forall p: nat :: !HiddenAt(text, p)
  {
    hide Wrapped, Cut, HiddenAt;
    if forall p: nat :: !HiddenAt(text, p) {
      forall leading: nat, indent: nat, width: int, k: nat |
        Roomy(leading, indent, width) && k < |Wrapped(text, leading, indent, width)|
        ensures Cut(Wrapped(text, leading, indent, width)[k], width)
      {
        CutUnlessHidden(text, leading, indent, width, k);
      }
    } else {
      var p: nat :| HiddenAt(text, p);
      var leading, indent, width, k := HiddenNotCut(text, p);
    }
  }

  lemma HidingIsLong(text: string)
    requires HidesBreak(text)
    ensures |text| >= 3
  {
  }

  /** A simpler check: no word of the text is an even number of dollars. */
  predicate NoDollarWord(text: string) {
    forall p :: 0 <= p < |text| && (p == 0 || text[p - 1] == ' ') ==> !HidesBreak(text[p..])
  }

  lemma NoDollarWordCut(text: string)
    requires NoDollarWord(text)
    ensures AlwaysCut(text)
  {
    hide AlwaysCut, HidesBreak;
    AlwaysCutIff(text);
    forall p: nat
      ensures !HiddenAt(text, p)
    {
      if p == |text| {
        EmptyHidesNothing();
        assert text[p..] == [];
      }
    }
  }

  lemma EmptyHidesNothing()
    ensures !HidesBreak([])
  {
  }

  // ---- the texts that are always read back ----

  ghost predicate AlwaysReadBack(text: string) {
    forall leading: nat, indent: nat, width: int :: ReadFrom(text, leading, indent, width)
  }

  /** No line can start with a space of the text. */
  ghost predicate NoSpaceStarts(text: string) {
    forall p: nat :: p < |text| && CanStart(text, p) ==> text[p] != ' '
  }

  /** A newline-free text is read back from every layout, in front of anything, if
      and only if it does not end inside an escape and has no space at a place
      where a line can start. */
  lemma AlwaysReadIff(text: string)
    requires '\n' !in text
    ensures AlwaysReadBack(text) <==> !Dangling(text) && NoSpaceStarts(text)
  {
    hide ReadFrom, Dangling, NoneIndented, NoSpaceStarts;
    if !Dangling(text) && NoSpaceStarts(text) {
      forall leading: nat, indent: nat, width: int
        ensures ReadFrom(text, leading, indent, width)
      {
        NoneStartsSpaced(text, leading, indent, width);
        LineReadIff(text, leading, indent, width);
      }
    } else {
      var leading, indent, width := 0, 0, 0;
      if !NoSpaceStarts(text) {
        leading, indent, width := SomeStartsSpaced(text);
      }
      LineReadIff(text, leading, indent, width);
    }
  }

  lemma NoneStartsSpaced(text: string, leading: nat, indent: nat, width: int)
    requires NoSpaceStarts(text)
    ensures NoneIndented(text, leading, indent, width)
  {
    hide Wrapped, TextAt, CanStart;
    forall k | 0 <= k < |Wrapped(text, leading, indent, width)|
      ensures !Indented(TextAt(text, leading, indent, width, k))
    {
      var p := LineStarts(text, leading, indent, width, k);
    }
  }

  lemma SomeStartsSpaced(text: string) returns (leading: nat, indent: nat, width: int)
    requires !NoSpaceStarts(text)
    ensures !NoneIndented(text, leading, indent, width)
  {
    hide Wrapped, TextAt, CanStart;
    var p: nat :| p < |text| && CanStart(text, p) && text[p] == ' ';
    var k;
    leading, indent, width, k := StartReachedTight(text, p);
    assert Indented(TextAt(text, leading, indent, width, k));
  }

  /** A simpler check: no runs of spaces, and none in front. */
  predicate Tidy(text: string) {
    !Indented(text) && forall i :: 0 <= i < |text| - 1 ==> text[i] != ' ' || text[i + 1] != ' '
  }

  lemma TidyReadBack(text: string)
    requires '\n' !in text && Tidy(text) && !Dangling(text)
    ensures AlwaysReadBack(text)
  {
    hide AlwaysReadBack, Dangling;
    AlwaysReadIff(text);
    forall p: nat | p < |text| && CanStart(text, p)
      ensures text[p] != ' '
    {
      assert p > 0 ==> text[p - 1] != ' ' || text[p - 1 + 1] != ' ';
    }
  }

  // ---- _line itself, which indents continuations four further than the first line ----

  /** Indenting everything further or less, and changing the width as much, changes
      nothing else. */
  lemma {:induction false} Shifted(text: string, leading: nat, indent: nat, width: int,
                                   far: nat, inner: nat, wide: int, k: nat)
    requires far - leading == wide - width == 2 * (inner - indent)
    requires k < |Wrapped(text, leading, indent, width)|
    ensures k < |Wrapped(text, far, inner, wide)|
    ensures var line, moved := Wrapped(text, leading, indent, width)[k], Wrapped(text, far, inner, wide)[k];
            && moved.leading - line.leading == wide - width
            && moved.piece == line.piece && moved.more == line.more
            && TextAt(text, far, inner, wide, k) == TextAt(text, leading, indent, width, k)
    decreases k
  {
    hide BreakAt, Wrapped, TextAt, Usable, CountedDollars;
    var available := width - leading - 2;
    assert available == wide - far - 2;
    if k == 0 {
      FirstOf(text, leading, indent, width);
      FirstOf(text, far, inner, wide);
    } else {
      var rest := text[BreakAt(text, available) + 1..];
      LaterOf(text, leading, indent, width, k);
      LaterOf(text, far, inner, wide, k);
      Shifted(rest, 2 * (indent + 2), indent, width, 2 * (inner + 2), inner, wide, k - 1);
    }
  }

  lemma FirstOf(text: string, leading: nat, indent: nat, width: int)
    ensures TextAt(text, leading, indent, width, 0) == text
    ensures var space := BreakAt(text, width - leading - 2);
            Wrapped(text, leading, indent, width)[0]
            == if leading + |text| <= width || space < 0 then Physical(leading, text, false)
               else Physical(leading, text[..space], true)
  {
    hide BreakAt;
  }

  lemma LaterOf(text: string, leading: nat, indent: nat, width: int, k: nat)
    requires k > 0
    ensures var space := BreakAt(text, width - leading - 2);
            && (k < |Wrapped(text, leading, indent, width)| ==> leading + |text| > width && space >= 0)
            && (leading + |text| > width && space >= 0 ==>
                  |Wrapped(text, leading, indent, width)|
                  == 1 + |Wrapped(text[space + 1..], 2 * (indent + 2), indent, width)|)
    ensures k < |Wrapped(text, leading, indent, width)| ==>
              var rest, lead := text[BreakAt(text, width - leading - 2) + 1..], 2 * (indent + 2);
              && Wrapped(text, leading, indent, width)[k] == Wrapped(rest, lead, indent, width)[k - 1]
              && TextAt(text, leading, indent, width, k) == TextAt(rest, lead, indent, width, k - 1)
  {
    hide BreakAt;
  }

  ghost predicate LineAlwaysCut(text: string) {
    forall indent: nat, width: int, k: nat ::
      Roomy(2 * indent, indent, width) && k < |Wrapped(text, 2 * indent, indent, width)| ==>
        Cut(Wrapped(text, 2 * indent, indent, width)[k], width)
  }

  /** A line that is too long hides a break. */
  ghost predicate HidesAt(text: string, width: int, k: nat) {
    && k < |Wrapped(text, 0, 0, width)| && |Wrapped(text, 0, 0, width)[k].Line()| > width
    && HidesBreak(TextAt(text, 0, 0, width, k))
  }

  /** With room for a break, _line cuts every line that is too long at an unescaped
      space, if there is one, if and only if it does so without indentation in
      every width smaller than the text: no line that is then too long starts with
      an even number of dollars and a space. */
  lemma LineAlwaysCutIff(text: string)
    ensures LineAlwaysCut(text) <==> forall width: nat, k: nat :: 6 <= width < |text| ==> !HidesAt(text, width, k)
  {
    hide Wrapped, TextAt, HidesBreak, Unescaped;
    if forall width: nat, k: nat :: 6 <= width < |text| ==> !HidesAt(text, width, k) {
      forall indent: nat, width: int, k: nat |
        Roomy(2 * indent, indent, width) && k < |Wrapped(text, 2 * indent, indent, width)|
        ensures Cut(Wrapped(text, 2 * indent, indent, width)[k], width)
      {
        var w: nat := width - 2 * indent;
        Shifted(text, 2 * indent, indent, width, 0, 0, w, k);
        if w < |text| {
          assert !HidesAt(text, w, k);
          LinesUnbrokenIff(text, 0, 0, w, k);
        } else {
          OneLine(text, w);
        }
      }
    }
    forall width: nat, k: nat | 6 <= width < |text| && HidesAt(text, width, k)
      ensures !LineAlwaysCut(text)
    {
      LinesUnbrokenIff(text, 0, 0, width, k);
      assert Roomy(2 * 0, 0, width) && !Cut(Wrapped(text, 2 * 0, 0, width)[k], width);
    }
  }

  lemma OneLine(text: string, width: nat)
    requires |text| <= width
    ensures Wrapped(text, 0, 0, width) == [Physical(0, text, false)]
  {
  }

  ghost predicate LineAlwaysReadBack(text: string) {
    forall indent: nat, width: int :: ReadFrom(text, 2 * indent, indent, width)
  }

  /** A newline-free text is read back from whatever _line makes of it if and only
      if it does not end inside an escape and without indentation no width makes a
      line start with a space of it. */
  lemma LineAlwaysReadIff(text: string)
    requires '\n' !in text
    ensures LineAlwaysReadBack(text) <==> !Dangling(text) && forall width: int :: NoneIndented(text, 0, 0, width)
  {
    hide ReadFrom, Dangling, NoneIndented;
    forall indent: nat, width: int
      ensures ReadFrom(text, 2 * indent, indent, width)
         <==> !Dangling(text) && NoneIndented(text, 0, 0, width - 2 * indent)
    {
      LineReadIff(text, 2 * indent, indent, width);
      ShiftedIndented(text, indent, width - 2 * indent);
    }
    if LineAlwaysReadBack(text) {
      assert ReadFrom(text, 2 * 0, 0, 0);
      forall width: int
        ensures NoneIndented(text, 0, 0, width)
      {
        assert ReadFrom(text, 2 * 0, 0, width);
      }
    }
  }

  lemma ShiftedIndented(text: string, indent: nat, width: int)
    ensures NoneIndented(text, 2 * indent, indent, width + 2 * indent) == NoneIndented(text, 0, 0, width)
  {
    hide Wrapped, TextAt, Indented;
    var far := width + 2 * indent;
    if NoneIndented(text, 0, 0, width) {
      forall k: nat | k < |Wrapped(text, 2 * indent, indent, far)|
        ensures !Indented(TextAt(text, 2 * indent, indent, far, k))
      {
        Shifted(text, 2 * indent, indent, far, 0, 0, width, k);
      }
    }
    if NoneIndented(text, 2 * indent, indent, far) {
      forall k: nat | k < |Wrapped(text, 0, 0, width)|
        ensures !Indented(TextAt(text, 0, 0, width, k))
      {
        Shifted(text, 0, 0, width, 2 * indent, indent, far, k);
      }
    }
  }
}
