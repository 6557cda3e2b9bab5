// tools/github_report.py: format_report writes the whole report, split_comments
// packs the same report greedily into comments of bounded size.
module ReportSplitter {

  datatype Section = Section(title: string, header: seq<string>, rows: seq<string>, empty: string, open_: bool)
  {
    /** The lines to place: the rows, or the note that there are none. */
    function Body(): (b: seq<string>)
      ensures |b| > 0
    {
      if rows == [] then [empty] else rows
    }

    function Header(): seq<string> {
      if rows == [] then [] else header
    }

    function Open(continued: bool): seq<string> {
      [if open_ then "<details open>" else "<details>",
       "<summary><b>" + title + (if continued then " (continued)" else "") + "</b></summary>",
       ""]
    }
  }

  /** Characters of the lines when each is ended by a newline. */
  function Size(lines: seq<string>): nat {
    if lines == [] then 0 else Size(lines[..|lines| - 1]) + |lines[|lines| - 1]| + 1
  }

  lemma {:induction false} SizeConcat(a: seq<string>, b: seq<string>)
    ensures Size(a + b) == Size(a) + Size(b)
  {
    if b == [] {
      assert a + b == a;
    } else {
      assert (a + b)[..|a + b| - 1] == a + b[..|b| - 1];
      SizeConcat(a, b[..|b| - 1]);
    }
  }

  lemma SizeFirst(lines: seq<string>, i: nat, j: nat)
    requires i < j <= |lines|
    ensures Size(lines[i..j]) == |lines[i]| + 1 + Size(lines[i + 1..j])
  {
    assert lines[i..j] == [lines[i]] + lines[i + 1..j];
    SizeConcat([lines[i]], lines[i + 1..j]);
    SizeOne(lines[i]);
  }

  lemma SizeEmpty(lines: seq<string>, i: nat)
    requires i <= |lines|
    ensures Size(lines[i..i]) == 0
  {
  }

  lemma SizeNone()
    ensures Size([]) == 0
  {
  }

  lemma SizeOne(line: string)
    ensures Size([line]) == |line| + 1
  {
    assert [line][..0] == [];
  }

  const SECTION_CLOSE: seq<string> := ["", "</details>", ""]

  const FOOTER: string :=
    "<sub>Compared against the merge base with `main`. \U{1F494} = lost a full match.</sub>"

  predicate Opens(line: string) {
    line == "<details>" || line == "<details open>"
  }

  predicate Closes(line: string) {
    line == "</details>"
  }

  ghost predicate AllPlain(lines: seq<string>) {
    forall i :: 0 <= i < |lines| ==> !Opens(lines[i]) && !Closes(lines[i])
  }

  /** Details blocks open after the lines, from `depth` on; once negative it stays so. */
  function Nesting(lines: seq<string>, depth: int): int
    decreases |lines|
  {
    if lines == [] || depth < 0 then depth
    else
      var line := lines[0];
      Nesting(lines[1..], if Opens(line) then depth + 1 else if Closes(line) then depth - 1 else depth)
  }

  lemma {:induction false} NestingConcat(a: seq<string>, b: seq<string>, depth: int)
    ensures Nesting(a + b, depth) == Nesting(b, Nesting(a, depth))
    decreases |a|
  {
    if a == [] {
      assert a + b == b;
    } else if depth >= 0 {
      var line := a[0];
      assert (a + b)[1..] == a[1..] + b;
      NestingConcat(a[1..], b, if Opens(line) then depth + 1 else if Closes(line) then depth - 1 else depth);
    } else if b != [] {
      assert Nesting(b, depth) == depth;
    }
  }

  lemma {:induction false} PlainNesting(lines: seq<string>, depth: nat)
    requires AllPlain(lines)
    ensures Nesting(lines, depth) == depth
    decreases |lines|
  {
    if lines != [] {
      PlainNesting(lines[1..], depth);
    }
  }

  lemma OpenNesting(s: Section, continued: bool)
    ensures Nesting(s.Open(continued), 0) == 1
  {
    var lines := s.Open(continued);
    assert lines[1][1] == 's' && Opens(lines[0]) && !Closes(lines[0]);
    assert AllPlain(lines[1..]);
    PlainNesting(lines[1..], 1);
  }

  lemma CloseNesting()
    ensures Nesting(SECTION_CLOSE, 1) == 0
  {
    assert SECTION_CLOSE[1..][1..] == [""];
    PlainNesting([""], 0);
  }

  function JoinLines(lines: seq<string>): string {
    if lines == [] then ""
    else if |lines| == 1 then lines[0]
    else JoinLines(lines[..|lines| - 1]) + "\n" + lines[|lines| - 1]
  }

  lemma {:induction false} JoinSize(lines: seq<string>)
    requires lines != []
    ensures |JoinLines(lines) + "\n"| == Size(lines)
  {
    if |lines| > 1 {
      JoinSize(lines[..|lines| - 1]);
    } else {
      assert lines[..0] == [];
    }
  }

  // ---- reading a text line by line ----

  /** How many characters stand before the first newline. */
  function LineEnd(text: string): (n: nat)
    ensures n <= |text|
  {
    if text == [] || text[0] == '\n' then 0 else 1 + LineEnd(text[1..])
  }

  /** A text cut behind each newline. */
  function TextLines(text: string): seq<string>
    decreases |text|
  {
    if text == [] then []
    else
      var n := LineEnd(text);
      [text[..n]] + if n < |text| then TextLines(text[n + 1..]) else []
  }

  predicate OneLiners(lines: seq<string>) {
    forall i :: 0 <= i < |lines| ==> '\n' !in lines[i]
  }

  lemma {:induction false} LineEndAt(line: string, rest: string)
    requires '\n' !in line
    ensures LineEnd(line + ['\n'] + rest) == |line|
  {
    var text := line + ['\n'] + rest;
    if line != [] {
      assert text[1..] == line[1..] + ['\n'] + rest;
      LineEndAt(line[1..], rest);
    }
  }

  lemma LineRead(line: string, rest: string)
    requires '\n' !in line
    ensures TextLines(line + ['\n'] + rest) == [line] + TextLines(rest)
  {
    var text := line + ['\n'] + rest;
    LineEndAt(line, rest);
    assert text[..|line|] == line && text[|line| + 1..] == rest;
  }

  /** Joined lines, each ended by a newline, are read back in order. */
  lemma {:induction false} JoinedRead(lines: seq<string>, rest: string)
    requires lines != [] && OneLiners(lines)
    ensures TextLines(JoinLines(lines) + "\n" + rest) == lines + TextLines(rest)
  {
    hide TextLines;
    var n := |lines| - 1;
    LineRead(lines[n], rest);
    if n == 0 {
      assert lines == [lines[0]];
    } else {
      var last := lines[n] + ['\n'] + rest;
      JoinedRead(lines[..n], last);
      assert JoinLines(lines) + "\n" + rest == JoinLines(lines[..n]) + "\n" + last;
      assert lines[..n] + ([lines[n]] + TextLines(rest)) == lines + TextLines(rest);
    }
  }

  /** What a reader sees of the lines: no lines at all are one empty line. */
  function Seen(lines: seq<string>): seq<string> {
    if lines == [] then [""] else lines
  }

  lemma TextRead(lines: seq<string>, rest: string)
    requires OneLiners(lines)
    ensures TextLines(JoinLines(lines) + "\n" + rest) == Seen(lines) + TextLines(rest)
  {
    if lines == [] {
      LineRead("", rest);
      assert JoinLines(lines) + "\n" + rest == "" + ['\n'] + rest;
    } else {
      JoinedRead(lines, rest);
    }
  }

  /** Body lines [from, to) of section number `section`, or one of the two ends. */
  datatype Item = Summary | Chunk(section: nat, from: nat, to: nat) | Footer

  /** What to report, how much a comment may hold, and the fixed lines that
      close a table and the report. */
  datatype Report = Report(summary: seq<string>, sections: seq<Section>, limit: int, close: seq<string>, footer: string)
  {
    // ---- the unsplit report ----

    function SectionLines(k: nat): seq<string>
      requires k < |sections|
    {
      sections[k].Open(false) + sections[k].Header() + sections[k].Body() + close
    }

    /** The lines of the first n sections. */
    function SectionsLines(n: nat): seq<string>
      requires n <= |sections|
    {
      if n == 0 then [] else SectionsLines(n - 1) + SectionLines(n - 1)
    }

    function ReportLines(): seq<string> {
      summary + SectionsLines(|sections|) + if sections == [] then [] else [footer]
    }

    // ---- what a part is made of ----

    ghost predicate Fine(item: Item) {
      && (item.Summary? ==> summary != [])
      && (item.Chunk? ==> item.section < |sections| && item.from < item.to <= |sections[item.section].Body()|)
    }

    /** A table that continues an earlier comment is opened again. */
    function Reopener(item: Item): seq<string>
      requires Fine(item)
    {
      if item.Chunk? && item.from > 0
      then sections[item.section].Open(true) + sections[item.section].Header()
      else []
    }

    /** The lines of the item that belong to the report itself. */
    function Own(item: Item): seq<string>
      requires Fine(item)
    {
      match item
      case Summary => summary
      case Footer => [footer]
      case Chunk(k, from, to) =>
        var s := sections[k];
        (if from == 0 then s.Open(false) + s.Header() else [])
        + s.Body()[from..to]
        + (if to == |s.Body()| then close else [])
    }

    /** A table that goes on in a later comment is closed early. */
    function Closer(item: Item): seq<string>
      requires Fine(item)
    {
      if item.Chunk? && item.to < |sections[item.section].Body()| then close else []
    }

    function Lines(item: Item): seq<string>
      requires Fine(item)
    {
      Reopener(item) + Own(item) + Closer(item)
    }

    ghost predicate AllFine(items: seq<Item>) {
      forall i :: 0 <= i < |items| ==> Fine(items[i])
    }

    function PartLines(part: seq<Item>): seq<string>
      requires AllFine(part)
    {
      if part == [] then [] else PartLines(part[..|part| - 1]) + Lines(part[|part| - 1])
    }

    /** The lines of the part without the re-openers and early closers. */
    function OwnLines(part: seq<Item>): seq<string>
      requires AllFine(part)
    {
      if part == [] then [] else OwnLines(part[..|part| - 1]) + Own(part[|part| - 1])
    }

    /** The opening of section k when placing goes on at `index`. */
    function Opening(k: nat, index: nat): seq<string>
      requires k < |sections|
    {
      sections[k].Open(index > 0) + sections[k].Header()
    }

    /** Size of the smallest thing the splitter places: one row with its frame. */
    function RowSize(k: nat, index: nat): nat
      requires k < |sections| && index < |sections[k].Body()|
    {
      Size(Opening(k, index)) + |sections[k].Body()[index]| + 1 + Size(close)
    }

    // ---- the greedy packing ----

    /** How far the inner loop gets: first index whose row no longer fits. */
    function FillTo(k: nat, index: nat, used: int): (to: nat)
      requires k < |sections| && index <= |sections[k].Body()|
      ensures index <= to <= |sections[k].Body()|
      decreases |sections[k].Body()| - index
    {
      var body := sections[k].Body();
      if index < |body| && used + |body[index]| + 1 + Size(close) <= limit
      then FillTo(k, index + 1, used + |body[index]| + 1)
      else index
    }

    /** The parts written so far and the one being filled. */
    ghost predicate Good(st: Packing) {
      (forall i :: 0 <= i < |st.parts| ==> AllFine(st.parts[i])) && AllFine(st.current)
    }

    /** Starts a new part when not even one row of section k fits any more. */
    function MakeRoom(k: nat, index: nat, st: Packing): (st': Packing)
      requires k < |sections| && index < |sections[k].Body()| && Good(st)
      ensures Good(st')
    {
      if st.current != [] && Size(PartLines(st.current)) + RowSize(k, index) > limit then st.Flush() else st
    }

    /** Size of the current part once row `index` is in it, not yet closed. */
    function UsedBy(k: nat, index: nat, current: seq<Item>): nat
      requires k < |sections| && index < |sections[k].Body()| && AllFine(current)
    {
      Size(PartLines(current)) + Size(Opening(k, index)) + |sections[k].Body()[index]| + 1
    }

    /** Puts the chunk in; the part is finished if the section goes on. */
    function Put(k: nat, index: nat, to: nat, st: Packing): (st': Packing)
      requires k < |sections| && index < to <= |sections[k].Body()| && Good(st)
      ensures Good(st')
    {
      var placed := st.(current := st.current + [Chunk(k, index, to)]);
      if to < |sections[k].Body()| then placed.Flush() else placed
    }

    /** One round of the outer loop: a chunk of section k from `index` on. */
    function PlaceChunk(k: nat, index: nat, st: Packing): (r: (Packing, nat))
      requires k < |sections| && index < |sections[k].Body()| && Good(st)
      ensures index < r.1 <= |sections[k].Body()| && Good(r.0)
    {
      var st' := MakeRoom(k, index, st);
      var to := FillTo(k, index + 1, UsedBy(k, index, st'.current));
      (Put(k, index, to, st'), to)
    }

    function PlaceSection(k: nat, index: nat, st: Packing): (st': Packing)
      requires k < |sections| && index <= |sections[k].Body()| && Good(st)
      ensures Good(st')
      decreases |sections[k].Body()| - index
    {
      if index == |sections[k].Body()| then st
      else
        var (st', to) := PlaceChunk(k, index, st);
        PlaceSection(k, to, st')
    }

    function Start(): Packing {
      Packing([], if summary == [] then [] else [Summary])
    }

    /** The packing when the first n sections are placed. */
    function PlaceSections(n: nat): (st: Packing)
      requires n <= |sections|
      ensures Good(st)
    {
      if n == 0 then Start() else PlaceSection(n - 1, 0, PlaceSections(n - 1))
    }

    function PlaceFooter(st: Packing): (st': Packing)
      requires Good(st)
      ensures Good(st')
    {
      if sections == [] then st
      else
        var st' := if Size(PartLines(st.current)) + |footer| + 1 > limit then st.Flush() else st;
        st'.(current := st'.current + [Footer])
    }

    /** The parts of split_comments, as items. */
    function Split(): (parts: seq<seq<Item>>)
      ensures forall i :: 0 <= i < |parts| ==> AllFine(parts[i])
    {
      PlaceFooter(PlaceSections(|sections|)).Flush().parts
    }

    // ---- nothing is lost, repeated or reordered ----

    ghost predicate AllPartsFine(parts: seq<seq<Item>>) {
      forall i :: 0 <= i < |parts| ==> AllFine(parts[i])
    }

    /** The report's own lines in all parts, in order. */
    function OwnOfParts(parts: seq<seq<Item>>): seq<string>
      requires AllPartsFine(parts)
    {
      if parts == [] then [] else OwnOfParts(parts[..|parts| - 1]) + OwnLines(parts[|parts| - 1])
    }

    function Written(st: Packing): seq<string>
      requires Good(st)
    {
      OwnOfParts(st.parts) + OwnLines(st.current)
    }

    lemma FlushKeepsWritten(st: Packing)
      requires Good(st)
      ensures Good(st.Flush()) && Written(st.Flush()) == Written(st)
      ensures OwnOfParts(st.Flush().parts) == Written(st)
    {
      assert st.Flush().parts[..|st.parts|] == st.parts;
    }

    lemma AddWritten(st: Packing, item: Item)
      requires Good(st) && Fine(item)
      ensures var st' := st.(current := st.current + [item]);
              Good(st') && Written(st') == Written(st) + Own(item)
    {
      hide Own, OwnOfParts, Fine;
      assert (st.current + [item])[..|st.current|] == st.current;
    }

    lemma ChunkWritten(k: nat, index: nat, st: Packing)
      requires k < |sections| && index < |sections[k].Body()| && Good(st)
      ensures var (st', to) := PlaceChunk(k, index, st);
              Written(st') == Written(st) + Own(Chunk(k, index, to))
    {
      hide FillTo, Written, Own, AllFine, RowSize, Opening;
      var (st', to) := PlaceChunk(k, index, st);
      var room := MakeRoom(k, index, st);
      FlushKeepsWritten(st);
      AddWritten(room, Chunk(k, index, to));
      FlushKeepsWritten(room.(current := room.current + [Chunk(k, index, to)]));
    }

    /** What is still to come of section k from `index` on. */
    function Rest(k: nat, index: nat): seq<string>
      requires k < |sections| && index <= |sections[k].Body()|
    {
      var s := sections[k];
      if index == |s.Body()| then []
      else (if index == 0 then s.Open(false) + s.Header() else []) + s.Body()[index..] + close
    }

    lemma RestSplits(k: nat, index: nat, to: nat)
      requires k < |sections| && index < to <= |sections[k].Body()|
      ensures Rest(k, index) == Own(Chunk(k, index, to)) + Rest(k, to)
    {
      hide Section.Open, Section.Header, Section.Body, Own, Rest;
      var body := sections[k].Body();
      OwnOrRest(k, index, to);
      OwnOrRest(k, index, |body|);
      OwnOrRest(k, to, |body|);
      Regrouped(if index == 0 then sections[k].Open(false) + sections[k].Header() else [], body, index, to, close);
    }

    lemma OwnOrRest(k: nat, index: nat, to: nat)
      requires k < |sections| && index <= to <= |sections[k].Body()|
      ensures var s := sections[k];
              var opening := if index == 0 then s.Open(false) + s.Header() else [];
              && Rest(k, index) == (if index == |s.Body()| then [] else opening + s.Body()[index..] + close)
              && (index < to ==>
                    Own(Chunk(k, index, to))
                    == opening + s.Body()[index..to] + (if to == |s.Body()| then close else []))
    {
      hide Section.Open, Section.Header, Section.Body;
    }

    lemma Regrouped(opening: seq<string>, body: seq<string>, index: nat, to: nat, end: seq<string>)
      requires index <= to <= |body|
      ensures opening + body[index..] + end
           == (opening + body[index..to] + (if to == |body| then end else []))
              + (if to == |body| then [] else [] + body[to..] + end)
    {
      assert body[index..] == body[index..to] + body[to..];
    }

    lemma {:induction false} SectionWritten(k: nat, index: nat, st: Packing)
      requires k < |sections| && index <= |sections[k].Body()| && Good(st)
      ensures Written(PlaceSection(k, index, st)) == Written(st) + Rest(k, index)
      decreases |sections[k].Body()| - index
    {
      hide PlaceChunk, Written, Rest, Own;
      if index < |sections[k].Body()| {
        var (st', to) := PlaceChunk(k, index, st);
        ChunkWritten(k, index, st);
        SectionWritten(k, to, st');
        RestSplits(k, index, to);
        assert (Written(st) + Own(Chunk(k, index, to))) + Rest(k, to)
            == Written(st) + (Own(Chunk(k, index, to)) + Rest(k, to));
      } else {
        RestEmpty(k);
      }
    }

    lemma RestEmpty(k: nat)
      requires k < |sections|
      ensures Rest(k, |sections[k].Body()|) == []
      ensures Rest(k, 0) == SectionLines(k)
    {
    }

    lemma StartWritten()
      ensures Written(Start()) == summary
    {
      if summary != [] {
        assert OwnLines([Summary]) == OwnLines([]) + summary;
      }
    }

    lemma {:induction false} SectionsWritten(n: nat)
      requires n <= |sections|
      ensures Written(PlaceSections(n)) == summary + SectionsLines(n)
    {
      hide Written, PlaceSection, SectionLines, Start;
      if n > 0 {
        SectionsWritten(n - 1);
        SectionWritten(n - 1, 0, PlaceSections(n - 1));
        RestEmpty(n - 1);
        assert (summary + SectionsLines(n - 1)) + SectionLines(n - 1)
            == summary + (SectionsLines(n - 1) + SectionLines(n - 1));
      } else {
        StartWritten();
      }
    }

    /** Without the re-openers and early closers, the parts are the report. */
    lemma SplitIsReport()
      ensures OwnOfParts(Split()) == ReportLines()
    {
      var st := PlaceSections(|sections|);
      SectionsWritten(|sections|);
      FlushKeepsWritten(st);
      AddWritten(st, Footer);
      AddWritten(st.Flush(), Footer);
      FlushKeepsWritten(PlaceFooter(st));
    }

    // ---- sizes, and no part cut short without need ----

    /** What the splitter cannot cut: an end of the report, or one framed row. */
    ghost predicate Smallest(item: Item) {
      item.Chunk? ==> item.to == item.from + 1
    }

    /** Within the limit, unless a single piece alone exceeds it. */
    ghost predicate Bounded(part: seq<Item>) {
      && AllFine(part) && part != []
      && (Size(PartLines(part)) <= limit || (|part| == 1 && Smallest(part[0])))
    }

    /** The part had no room for the next piece, which is the first of `item`. */
    ghost predicate CannotTake(part: seq<Item>, item: Item)
      requires AllFine(part) && Fine(item)
    {
      match item
      case Summary => false
      case Footer => Size(PartLines(part)) + |footer| + 1 > limit
      case Chunk(k, from, _) =>
        if from == 0 then Size(PartLines(part)) + RowSize(k, 0) > limit
        else Size(PartLines(part)) + |sections[k].Body()[from]| + 1 > limit
    }

    ghost predicate Packed(parts: seq<seq<Item>>) {
      && (forall n :: 0 <= n < |parts| ==> Bounded(parts[n]))
      && (forall n :: 0 < n < |parts| ==> CannotTake(parts[n - 1], parts[n][0]))
    }

    /** Before section k is continued at `index`. */
    ghost predicate Ready(k: nat, index: nat, st: Packing)
      requires k < |sections| && index < |sections[k].Body()|
    {
      if st.current != [] then index == 0 && Packed(st.parts + [st.current])
      else
        && Packed(st.parts)
        && (if index == 0 then st.parts == []
            else st.parts != [] && CannotTake(st.parts[|st.parts| - 1], Chunk(k, index, index + 1)))
    }

    lemma {:induction false} FillFits(k: nat, index: nat, used: int)
      requires k < |sections| && index <= |sections[k].Body()|
      ensures var body, to := sections[k].Body(), FillTo(k, index, used);
              && (to > index ==> used + Size(body[index..to]) + Size(close) <= limit)
              && (to < |body| ==>
                    used + Size(body[index..to]) + |body[to]| + 1 + Size(close) > limit)
      decreases |sections[k].Body()| - index
    {
      hide Size;
      var body, to := sections[k].Body(), FillTo(k, index, used);
      if to > index {
        FillFits(k, index + 1, used + |body[index]| + 1);
        SizeFirst(body, index, to);
      }
      SizeEmpty(body, to);
    }

    lemma ChunkLines(k: nat, from: nat, to: nat)
      requires k < |sections| && from < to <= |sections[k].Body()|
      ensures Lines(Chunk(k, from, to)) == Opening(k, from) + sections[k].Body()[from..to] + close
    {
      var s, chunk := sections[k], Chunk(k, from, to);
      var rows := s.Body()[from..to];
      if from > 0 {
        assert Own(chunk) == rows + (if to == |s.Body()| then close else []);
      } else {
        assert Reopener(chunk) == [];
      }
      if to == |s.Body()| {
        assert Closer(chunk) == [];
      }
    }

    lemma ChunkSize(k: nat, from: nat, to: nat)
      requires k < |sections| && from < to <= |sections[k].Body()|
      ensures Size(Lines(Chunk(k, from, to)))
           == Size(Opening(k, from)) + Size(sections[k].Body()[from..to]) + Size(close)
    {
      hide Lines, Opening, Size;
      var rows := sections[k].Body()[from..to];
      ChunkLines(k, from, to);
      SizeConcat(Opening(k, from), rows);
      SizeConcat(Opening(k, from) + rows, close);
    }

    lemma PartGrows(part: seq<Item>, item: Item)
      requires AllFine(part) && Fine(item)
      ensures AllFine(part + [item]) && PartLines(part + [item]) == PartLines(part) + Lines(item)
      ensures Size(PartLines(part + [item])) == Size(PartLines(part)) + Size(Lines(item))
    {
      assert (part + [item])[..|part|] == part;
      SizeConcat(PartLines(part), Lines(item));
    }

    /** The sizes of the part a chunk is put in. */
    lemma ChunkFits(k: nat, index: nat, current: seq<Item>)
      requires k < |sections| && index < |sections[k].Body()| && AllFine(current)
      requires current != [] ==> Size(PartLines(current)) + RowSize(k, index) <= limit
      ensures var body := sections[k].Body();
              var to := FillTo(k, index + 1, UsedBy(k, index, current));
              var part := current + [Chunk(k, index, to)];
              Bounded(part) && (to < |body| ==> CannotTake(part, Chunk(k, to, to + 1)))
    {
      hide AllFine, PartLines, Opening, FillTo, Size, Lines;
      var body := sections[k].Body();
      var used := Size(PartLines(current)) + Size(Opening(k, index)) + |body[index]| + 1;
      var to := FillTo(k, index + 1, used);
      FillFits(k, index + 1, used);
      ChunkSize(k, index, to);
      PartGrows(current, Chunk(k, index, to));
      SizeFirst(body, index, to);
      SizeEmpty(body, to);
      SizeNone();
      if to == index + 1 && current == [] {
        assert |current + [Chunk(k, index, to)]| == 1;
      }
    }

    lemma PackedAppend(parts: seq<seq<Item>>, part: seq<Item>)
      requires Packed(parts) && Bounded(part)
      requires parts != [] ==> CannotTake(parts[|parts| - 1], part[0])
      ensures Packed(parts + [part])
    {
      hide CannotTake, PartLines, Size;
      var all := parts + [part];
      forall n | 0 <= n < |all|
        ensures Bounded(all[n])
      {
        if n < |parts| {
          assert all[n] == parts[n];
        }
      }
      forall n | 0 < n < |all|
        ensures CannotTake(all[n - 1], all[n][0])
      {
        assert all[n - 1] == parts[n - 1];
        if n < |parts| {
          assert all[n] == parts[n];
        }
      }
    }

    /** Making room keeps everything packed. */
    lemma RoomPacked(k: nat, index: nat, st: Packing)
      requires k < |sections| && index < |sections[k].Body()| && Good(st) && Ready(k, index, st)
      ensures var room := MakeRoom(k, index, st);
              && Packed(room.parts)
              && (room.current != [] ==> Size(PartLines(room.current)) + RowSize(k, index) <= limit)
              && (room.parts != [] ==>
                    CannotTake(room.parts[|room.parts| - 1],
                               if room.current != [] then room.current[0] else Chunk(k, index, index + 1)))
    {
      hide Packed, PartLines, Size, RowSize;
      if st.current != [] {
        PackedPrefix(st.parts, st.current);
      }
    }

    /** Putting the chunk into the part that has room for its first row. */
    lemma PlacedPacked(k: nat, index: nat, room: Packing, to: nat)
      requires k < |sections| && index < to <= |sections[k].Body()| && Good(room)
      requires Packed(room.parts) && Bounded(room.current + [Chunk(k, index, to)])
      requires room.parts != [] ==>
                 CannotTake(room.parts[|room.parts| - 1],
                            if room.current != [] then room.current[0] else Chunk(k, index, index + 1))
      ensures Packed(room.parts + [room.current + [Chunk(k, index, to)]])
    {
      hide Bounded, Packed, PartLines, RowSize, Size;
      var part := room.current + [Chunk(k, index, to)];
      assert part[0] == if room.current != [] then room.current[0] else Chunk(k, index, to);
      PackedAppend(room.parts, part);
    }

    lemma ChunkPacked(k: nat, index: nat, st: Packing)
      requires k < |sections| && index < |sections[k].Body()| && Good(st) && Ready(k, index, st)
      ensures var (st', to) := PlaceChunk(k, index, st);
              if to < |sections[k].Body()| then Ready(k, to, st')
              else st'.current != [] && Packed(st'.parts + [st'.current])
    {
      hide FillTo, Opening, PartLines, Bounded, AllFine, MakeRoom, Packed, RowSize, Size, CannotTake;
      var room := MakeRoom(k, index, st);
      RoomPacked(k, index, st);
      ChunkFits(k, index, room.current);
      var (st', to) := PlaceChunk(k, index, st);
      PlacedPacked(k, index, room, to);
    }

    lemma PackedPrefix(parts: seq<seq<Item>>, part: seq<Item>)
      requires Packed(parts + [part])
      ensures Packed(parts) && Bounded(part)
      ensures parts != [] ==> CannotTake(parts[|parts| - 1], part[0])
    {
      var all := parts + [part];
      assert forall n :: 0 <= n < |parts| ==> parts[n] == all[n];
      assert all[|parts|] == part;
    }

    lemma {:induction false} SectionPacked(k: nat, index: nat, st: Packing)
      requires k < |sections| && index < |sections[k].Body()| && Good(st) && Ready(k, index, st)
      ensures var st' := PlaceSection(k, index, st);
              st'.current != [] && Packed(st'.parts + [st'.current])
      decreases |sections[k].Body()| - index
    {
      hide Ready, Packed, PlaceChunk;
      ChunkPacked(k, index, st);
      var (st', to) := PlaceChunk(k, index, st);
      if to < |sections[k].Body()| {
        SectionPacked(k, to, st');
      }
    }

    lemma StartPacked()
      ensures Start().parts == []
      ensures Start().current != [] ==> Packed([] + [Start().current])
    {
      if summary != [] {
        PackedAppend([], [Summary]);
      }
    }

    lemma ReadyToBegin(k: nat, st: Packing)
      requires k < |sections| && Good(st)
      requires if st.current != [] then Packed(st.parts + [st.current]) else st.parts == []
      ensures Ready(k, 0, st)
    {
    }

    lemma {:induction false} SectionsPacked(n: nat)
      requires n <= |sections|
      ensures var st := PlaceSections(n);
              if st.current != [] then Packed(st.parts + [st.current]) else n == 0 && st.parts == []
    {
      hide Packed, PlaceSection, Ready, Start;
      if n > 0 {
        SectionsPacked(n - 1);
        ReadyToBegin(n - 1, PlaceSections(n - 1));
        SectionPacked(n - 1, 0, PlaceSections(n - 1));
      } else {
        StartPacked();
      }
    }

    lemma FooterPacked(st: Packing)
      requires sections != [] && Good(st) && st.current != [] && Packed(st.parts + [st.current])
      ensures Packed(PlaceFooter(st).Flush().parts)
    {
      hide Packed, PartLines, Size, AllFine;
      if Size(PartLines(st.current)) + |footer| + 1 > limit {
        FooterAlone();
        LastPart(st.parts, st.current);
        assert [] + [Footer] == [Footer];
        PackedAppend(st.parts + [st.current], [Footer]);
      } else {
        PackedPrefix(st.parts, st.current);
        FooterFits(st.current);
        assert (st.current + [Footer])[0] == st.current[0];
        PackedAppend(st.parts, st.current + [Footer]);
      }
    }

    lemma LastPart(parts: seq<seq<Item>>, part: seq<Item>)
      ensures (parts + [part])[|parts + [part]| - 1] == part
    {
    }

    /** Every comment has something in it, keeps to the limit unless one single
        piece cannot, and had no room for what the next comment starts with. */
    lemma SplitIsPacked()
      requires summary != [] || sections != []
      ensures Packed(Split())
    {
      hide Packed, PlaceFooter;
      SectionsPacked(|sections|);
      if sections != [] {
        FooterPacked(PlaceSections(|sections|));
      } else {
        StartPacked();
        FooterlessSplit();
      }
    }

    lemma FooterlessSplit()
      requires sections == []
      ensures Split() == [Start().current] == [] + [Start().current]
    {
      assert PlaceSections(0) == Start() && Start().parts == [];
      assert Split() == Start().Flush().parts;
    }

    lemma FooterAlone()
      ensures Bounded([Footer])
    {
    }

    lemma FooterFits(part: seq<Item>)
      requires part != [] && AllFine(part) && Size(PartLines(part)) + |footer| + 1 <= limit
      ensures Bounded(part + [Footer])
    {
      hide Size, PartLines, Lines;
      PartGrows(part, Footer);
      FooterLines();
      SizeOne(footer);
    }

    /** Each piece that cannot be cut fits the limit on its own. */
    ghost predicate PiecesFit() {
      && Size(summary) <= limit && |footer| + 1 <= limit
      && forall k, i :: 0 <= k < |sections| && 0 <= i < |sections[k].Body()| ==>
           Size(sections[k].Open(true)) + Size(sections[k].Header()) + |sections[k].Body()[i]| + 1
             + Size(close) <= limit
    }

    lemma OpenSize(k: nat, continued: bool)
      requires k < |sections|
      ensures Size(sections[k].Open(continued)) <= Size(sections[k].Open(true))
    {
      var a, b := sections[k].Open(continued), sections[k].Open(true);
      assert a[..2] == [a[0], a[1]] && b[..2] == [b[0], b[1]] && a[..1] == [a[0]] && b[..1] == [b[0]];
      assert a[..2][..1] == a[..1] && b[..2][..1] == b[..1] && a[..1][..0] == [] && b[..1][..0] == [];
    }

    lemma OpeningIs(k: nat, index: nat)
      requires k < |sections|
      ensures Opening(k, index) == sections[k].Open(index > 0) + sections[k].Header()
    {
    }

    lemma SmallestFits(item: Item)
      requires PiecesFit() && Fine(item) && Smallest(item)
      ensures Size(Lines(item)) <= limit
    {
      match item
      case Summary => assert Lines(Summary) == summary;
      case Footer =>
        assert Lines(Footer) == [footer];
        SizeOne(footer);
      case Chunk(k, from, to) => RowFits(k, from);
    }

    lemma RowFits(k: nat, from: nat)
      requires PiecesFit() && k < |sections| && from < |sections[k].Body()|
      ensures Size(Lines(Chunk(k, from, from + 1))) <= limit
    {
      hide Size, Lines, Opening, Section.Open;
      var s := sections[k];
      OpeningIs(k, from);
      ChunkSize(k, from, from + 1);
      SizeConcat(s.Open(from > 0), s.Header());
      OpenSize(k, from > 0);
      assert s.Body()[from..from + 1] == [s.Body()[from]];
      SizeOne(s.Body()[from]);
    }

    /** Then no part at all exceeds the limit. */
    lemma FittingPartsFit(part: seq<Item>)
      requires PiecesFit() && Bounded(part)
      ensures Size(PartLines(part)) <= limit
    {
      hide Size, Lines, Smallest, PiecesFit;
      if Size(PartLines(part)) > limit {
        SmallestFits(part[0]);
        PartGrows([], part[0]);
        assert part == [] + [part[0]];
        SizeNone();
      }
    }

    // ---- a report that fits stays whole ----

    /** With room for all of section k, the inner loop does not stop early. */
    lemma WholeBody(k: nat, used0: nat)
      requires k < |sections|
      requires used0 + Size(SectionLines(k)) <= limit
      ensures used0 + RowSize(k, 0) <= limit
      ensures FillTo(k, 1, used0 + (Size(Opening(k, 0)) + |sections[k].Body()[0]| + 1)) == |sections[k].Body()|
    {
      hide Size, FillTo, Opening;
      var body := sections[k].Body();
      SectionSize(k);
      assert body == [body[0]] + body[1..];
      SizeConcat([body[0]], body[1..]);
      SizeOne(body[0]);
      FillsUp(k, 1, used0 + Size(Opening(k, 0)) + |body[0]| + 1);
    }

    lemma NoRoomNeeded(k: nat, st: Packing)
      requires k < |sections| && Good(st) && Size(PartLines(st.current)) + RowSize(k, 0) <= limit
      ensures MakeRoom(k, 0, st) == st
    {
    }

    lemma WholeChunk(k: nat, st: Packing)
      requires k < |sections| && Good(st) && st.parts == []
      requires Size(PartLines(st.current)) + Size(SectionLines(k)) <= limit
      ensures var to := |sections[k].Body()|;
              PlaceChunk(k, 0, st) == (Packing([], st.current + [Chunk(k, 0, to)]), to)
    {
      hide Size, FillTo, RowSize, PartLines, AllFine, Opening, SectionLines, MakeRoom, Section.Body, UsedBy, Put;
      WholeBody(k, Size(PartLines(st.current)));
      NoRoomNeeded(k, st);
      UsedByFirst(k, st.current);
      assert FillTo(k, 0 + 1, UsedBy(k, 0, st.current)) == |sections[k].Body()|;
      PutWhole(k, st);
    }

    lemma UsedByFirst(k: nat, current: seq<Item>)
      requires k < |sections| && AllFine(current)
      ensures UsedBy(k, 0, current) == Size(PartLines(current)) + (Size(Opening(k, 0)) + |sections[k].Body()[0]| + 1)
    {
    }

    lemma PutWhole(k: nat, st: Packing)
      requires k < |sections| && Good(st) && st.parts == []
      ensures var to := |sections[k].Body()|; Put(k, 0, to, st) == Packing([], st.current + [Chunk(k, 0, to)])
    {
    }

    /** The section becomes one chunk of the same part. */
    lemma WholeSection(k: nat, st: Packing)
      requires k < |sections| && Good(st) && st.parts == []
      requires Size(PartLines(st.current)) + Size(SectionLines(k)) <= limit
      ensures var part := st.current + [Chunk(k, 0, |sections[k].Body()|)];
              PlaceSection(k, 0, st) == Packing([], part)
              && PartLines(part) == PartLines(st.current) + SectionLines(k)
    {
      hide Size, Lines, PartLines, AllFine, PlaceChunk, SectionLines;
      WholeChunk(k, st);
      PartGrows(st.current, Chunk(k, 0, |sections[k].Body()|));
      WholeChunkLines(k);
    }

    lemma WholeChunkLines(k: nat)
      requires k < |sections|
      ensures Lines(Chunk(k, 0, |sections[k].Body()|)) == SectionLines(k)
    {
      ChunkLines(k, 0, |sections[k].Body()|);
    }

    lemma SectionSize(k: nat)
      requires k < |sections|
      ensures Size(SectionLines(k))
           == Size(Opening(k, 0)) + Size(sections[k].Body()) + Size(close)
    {
      hide Size;
      SizeConcat(Opening(k, 0), sections[k].Body());
      SizeConcat(Opening(k, 0) + sections[k].Body(), close);
    }

    /** If all remaining rows fit, the inner loop takes them all. */
    lemma {:induction false} FillsUp(k: nat, index: nat, used: int)
      requires k < |sections| && index <= |sections[k].Body()|
      requires used + Size(sections[k].Body()[index..]) + Size(close) <= limit
      ensures FillTo(k, index, used) == |sections[k].Body()|
      decreases |sections[k].Body()| - index
    {
      hide Size, Section.Body;
      var body := sections[k].Body();
      assert body[index..|body|] == body[index..];
      if index < |body| {
        SizeFirst(body, index, |body|);
        assert body[index + 1..|body|] == body[index + 1..];
        FillsUp(k, index + 1, used + |body[index]| + 1);
      }
    }

    lemma WholeSummary()
      ensures PartLines(Start().current) == summary
    {
      if summary != [] {
        PartGrows([], Summary);
        assert [] + [Summary] == [Summary] && Lines(Summary) == summary;
      }
    }

    lemma {:induction false} WholeSections(n: nat)
      requires n <= |sections| && Size(summary + SectionsLines(n)) <= limit
      ensures var st := PlaceSections(n);
              st.parts == [] && PartLines(st.current) == summary + SectionsLines(n)
    {
      hide SectionLines, PlaceSection, Size, PartLines, Good, AllFine;
      if n > 0 {
        var before := summary + SectionsLines(n - 1);
        assert summary + SectionsLines(n) == before + SectionLines(n - 1);
        SizeConcat(before, SectionLines(n - 1));
        WholeSections(n - 1);
        WholeSection(n - 1, PlaceSections(n - 1));
      } else {
        WholeSummary();
      }
    }

    /** A report within the limit is one comment: the report. */
    lemma FittingReportIsWhole()
      requires Size(ReportLines()) <= limit
      ensures |Split()| == 1 && PartLines(Split()[0]) == ReportLines()
    {
      hide SectionsLines, Size, PlaceSections, PartLines, Lines;
      var all := summary + SectionsLines(|sections|);
      if sections != [] {
        SizeConcat(all, [footer]);
        SizeOne(footer);
      } else {
        assert ReportLines() == all;
      }
      WholeSections(|sections|);
      var st := PlaceSections(|sections|);
      PartGrows(st.current, Footer);
      FooterLines();
    }

    lemma ChunkGrowsParts(k: nat, index: nat, st: Packing)
      requires k < |sections| && index < |sections[k].Body()| && Good(st)
      ensures st.parts <= PlaceChunk(k, index, st).0.parts
      ensures PlaceChunk(k, index, st).1 < |sections[k].Body()| ==>
                |PlaceChunk(k, index, st).0.parts| > |st.parts|
    {
    }

    lemma {:induction false} SectionGrowsParts(k: nat, index: nat, st: Packing)
      requires k < |sections| && index <= |sections[k].Body()| && Good(st)
      ensures st.parts <= PlaceSection(k, index, st).parts
      decreases |sections[k].Body()| - index
    {
      hide PlaceChunk;
      if index < |sections[k].Body()| {
        ChunkGrowsParts(k, index, st);
        var (st', to) := PlaceChunk(k, index, st);
        SectionGrowsParts(k, to, st');
      }
    }

    lemma UnsplitStart()
      ensures PartLines(Start().current) == OwnLines(Start().current)
    {
      WholeSummary();
      StartWritten();
    }

    /** As long as no part is finished, nothing was opened twice or closed early. */
    lemma {:induction false} UnsplitSoFar(n: nat)
      requires n <= |sections| && PlaceSections(n).parts == []
      ensures PartLines(PlaceSections(n).current) == OwnLines(PlaceSections(n).current)
    {
      hide PlaceChunk, FillTo, PartLines, OwnLines, AllFine, Good, Section.Body, Start;
      if n == 0 {
        UnsplitStart();
      } else {
        var st := PlaceSections(n - 1);
        SectionGrowsParts(n - 1, 0, st);
        UnsplitSoFar(n - 1);
        ChunkGrowsParts(n - 1, 0, st);
        var (st', to) := PlaceChunk(n - 1, 0, st);
        SectionGrowsParts(n - 1, to, st');
        UnsplitChunk(n - 1, st);
      }
    }

    lemma UnsplitChunk(k: nat, st: Packing)
      requires k < |sections| && Good(st)
      requires PlaceChunk(k, 0, st).1 == |sections[k].Body()| && PlaceChunk(k, 0, st).0.parts == []
      requires PartLines(st.current) == OwnLines(st.current)
      ensures var st' := PlaceChunk(k, 0, st).0; PartLines(st'.current) == OwnLines(st'.current)
    {
      hide FillTo, PartLines, OwnLines, Lines, Own;
      var chunk := Chunk(k, 0, |sections[k].Body()|);
      assert PlaceChunk(k, 0, st).0.current == st.current + [chunk];
      UnsplitItem(st.current, chunk);
      WholeIsOwn(k);
    }

    lemma UnsplitItem(part: seq<Item>, item: Item)
      requires AllFine(part) && Fine(item)
      ensures AllFine(part + [item]) && PartLines(part + [item]) == PartLines(part) + Lines(item)
      ensures OwnLines(part + [item]) == OwnLines(part) + Own(item)
    {
      hide Lines, Own;
      assert (part + [item])[..|part|] == part;
    }

    lemma WholeIsOwn(k: nat)
      requires k < |sections|
      ensures var whole := Chunk(k, 0, |sections[k].Body()|); Lines(whole) == Own(whole)
    {
    }

    /** When each piece fits, there is one comment exactly if the report fits. */
    lemma OneCommentIff()
      requires PiecesFit() && (summary != [] || sections != [])
      ensures |Split()| == 1 <==> Size(ReportLines()) <= limit
    {
      if Size(ReportLines()) <= limit {
        FittingReportIsWhole();
      }
      if |Split()| == 1 {
        SplitIsPacked();
        FittingPartsFit(Split()[0]);
        SplitIsReport();
        OnlyPartIsOwn();
        assert Split()[..0] == [];
        assert OwnOfParts(Split()) == OwnLines(Split()[0]);
      }
    }

    lemma OnlyPartIsOwn()
      requires |Split()| == 1
      ensures PartLines(Split()[0]) == OwnLines(Split()[0])
    {
      var st := PlaceSections(|sections|);
      UnsplitSoFar(|sections|);
      if sections != [] {
        assert Split()[0] == st.current + [Footer];
        assert (st.current + [Footer])[..|st.current|] == st.current;
        assert Lines(Footer) == Own(Footer);
      }
    }

    lemma FooterLines()
      ensures Lines(Footer) == [footer] && Fine(Footer)
    {
    }

    lemma PartLinesOfNone()
      ensures PartLines([]) == []
    {
    }

    // ---- every part is balanced Markdown ----

    /** No line of the report's own text opens or closes a details block. */
    ghost predicate PlainText() {
      && AllPlain(summary) && AllPlain([footer])
      && forall k :: 0 <= k < |sections| ==> AllPlain(sections[k].Header()) && AllPlain(sections[k].Body())
    }

    lemma ItemBalanced(item: Item)
      requires PlainText() && Fine(item) && close == SECTION_CLOSE
      ensures Nesting(Lines(item), 0) == 0
    {
      match item
      case Summary =>
        assert Lines(Summary) == summary;
        PlainNesting(summary, 0);
      case Footer =>
        assert Lines(Footer) == [footer];
        PlainNesting([footer], 0);
      case Chunk(k, from, to) =>
        ChunkBalanced(k, from, to);
    }

    lemma ChunkBalanced(k: nat, from: nat, to: nat)
      requires PlainText() && Fine(Chunk(k, from, to)) && close == SECTION_CLOSE
      ensures Nesting(Lines(Chunk(k, from, to)), 0) == 0
    {
      var s := sections[k];
      assert AllPlain(s.Header()) && AllPlain(s.Body()[from..to]);
      hide Nesting, Section.Open, Lines, Opening, AllPlain, PlainText;
      OpeningIs(k, from);
      ChunkLines(k, from, to);
      OpenNesting(s, from > 0);
      NestingConcat(s.Open(from > 0), s.Header(), 0);
      PlainNesting(s.Header(), 1);
      NestingConcat(Opening(k, from), s.Body()[from..to], 0);
      PlainNesting(s.Body()[from..to], 1);
      NestingConcat(Opening(k, from) + s.Body()[from..to], close, 0);
      CloseNesting();
    }

    /** Each comment closes every table it opens, and only those. */
    lemma {:induction false} PartBalanced(part: seq<Item>)
      requires PlainText() && AllFine(part) && close == SECTION_CLOSE
      ensures Nesting(PartLines(part), 0) == 0
    {
      if part != [] {
        var n := |part| - 1;
        PartBalanced(part[..n]);
        ItemBalanced(part[n]);
        NestingConcat(PartLines(part[..n]), Lines(part[n]), 0);
      }
    }
  }

  datatype Packing = Packing(parts: seq<seq<Item>>, current: seq<Item>)
  {
    function Flush(): Packing {
      Packing(parts + [current], [])
    }
  }

  function TheReport(summary: seq<string>, sections: seq<Section>, limit: int): Report {
    Report(summary, sections, limit, SECTION_CLOSE, FOOTER)
  }

  method FormatReport(summary: seq<string>, sections: seq<Section>) returns (text: string)
    ensures forall limit :: text == JoinLines(TheReport(summary, sections, limit).ReportLines()) + "\n"
    ensures forall limit :: OneLiners(TheReport(summary, sections, limit).ReportLines()) ==>
              TextLines(text) == Seen(TheReport(summary, sections, limit).ReportLines())
  {
    hide TextLines, OneLiners, Seen, JoinLines, Section.Open, Report.SectionLines, Report.SectionsLines;
    ghost var r := TheReport(summary, sections, 0);
    var lines := summary;
    NoSections(r);
    for i := 0 to |sections|
      invariant lines == summary + r.SectionsLines(i)
    {
      var section := sections[i];
      ghost var before := lines;
      lines := lines + section.Open(false);
      if section.rows != [] {
        lines := lines + section.header;
        lines := lines + section.rows;
      } else {
        lines := lines + [section.empty];
      }
      lines := lines + SECTION_CLOSE;
      OneMoreSection(r, i, summary);
    }
    if sections != [] {
      lines := lines + [FOOTER];
    }
    assert lines == r.ReportLines();
    text := JoinLines(lines) + "\n";
    TextReadBack(lines);
    forall limit
      ensures TheReport(summary, sections, limit).ReportLines() == r.ReportLines()
    {
      SameReport(TheReport(summary, sections, limit), r, |sections|);
    }
  }

  lemma TextReadBack(lines: seq<string>)
    ensures OneLiners(lines) ==> TextLines(JoinLines(lines) + "\n") == Seen(lines)
  {
    hide JoinLines, Seen;
    if OneLiners(lines) {
      TextRead(lines, "");
      assert JoinLines(lines) + "\n" + "" == JoinLines(lines) + "\n" && Seen(lines) + [] == Seen(lines);
    }
  }

  lemma NoSections(r: Report)
    ensures r.SectionsLines(0) == []
  {
  }

  lemma OneMoreSection(r: Report, i: nat, before: seq<string>)
    requires i < |r.sections|
    ensures before + r.SectionsLines(i + 1)
         == before + r.SectionsLines(i) + r.sections[i].Open(false) + r.sections[i].Header()
            + r.sections[i].Body() + r.close
  {
    hide Section.Open;
  }

  lemma {:induction false} SameReport(a: Report, b: Report, n: nat)
    requires a == b.(limit := a.limit) && n <= |a.sections|
    ensures a.SectionsLines(n) == b.SectionsLines(n)
  {
    if n > 0 {
      SameReport(a, b, n - 1);
    }
  }

  // ---- the comments ----

  function Decimal(n: nat): (d: string)
    ensures |d| > 0 && (n > 0 ==> d[0] != '0')
  {
    if n < 10 then ["0123456789"[n]] else Decimal(n / 10) + ["0123456789"[n % 10]]
  }

  function Comment(lines: seq<string>, number: nat, count: nat): string {
    JoinLines(lines) + "\n"
    + if count > 1 then "\n<sub>Part " + Decimal(number) + " of " + Decimal(count) + ".</sub>\n" else ""
  }

  /** The number that decimal digits spell. */
  function DecimalValue(d: string): int {
    if d == [] then 0 else 10 * DecimalValue(d[..|d| - 1]) + (d[|d| - 1] as int - '0' as int)
  }

  lemma {:induction false} DecimalReads(n: nat)
    ensures DecimalValue(Decimal(n)) == n
    ensures forall i :: 0 <= i < |Decimal(n)| ==> '0' <= Decimal(n)[i] <= '9'
  {
    if n < 10 {
      DigitIs(n);
      assert Decimal(n)[..0] == [];
    } else {
      DecimalReads(n / 10);
      DigitIs(n % 10);
      assert Decimal(n)[..|Decimal(n)| - 1] == Decimal(n / 10);
    }
  }

  lemma DigitIs(n: nat)
    requires n < 10
    ensures "0123456789"[n] as int == '0' as int + n
  {
  }

  /** The last line of a numbered comment. */
  function Marker(number: nat, count: nat): string {
    "<sub>Part " + Decimal(number) + " of " + Decimal(count) + ".</sub>"
  }

  /** A reader of the comment sees the lines of the part, and behind an empty line
      which part of how many it is. */
  lemma CommentRead(lines: seq<string>, number: nat, count: nat)
    requires OneLiners(lines)
    ensures TextLines(Comment(lines, number, count))
         == Seen(lines) + if count > 1 then ["", Marker(number, count)] else []
  {
    hide TextLines, JoinLines, Seen, Decimal;
    if count > 1 {
      MarkerRead(number, count);
      var end := "\n" + Marker(number, count) + "\n";
      TextRead(lines, end);
      assert Comment(lines, number, count) == JoinLines(lines) + "\n" + end;
    } else {
      TextReadBack(lines);
      assert Comment(lines, number, count) == JoinLines(lines) + "\n" && Seen(lines) + [] == Seen(lines);
    }
  }

  lemma MarkerRead(number: nat, count: nat)
    ensures TextLines("\n" + Marker(number, count) + "\n") == ["", Marker(number, count)]
  {
    var marker := Marker(number, count);
    DecimalReads(number);
    DecimalReads(count);
    hide Decimal, DecimalValue, TextLines;
    NoNewline(number, count);
    LineRead(marker, "");
    LineRead("", marker + "\n");
    NothingToRead();
    assert "\n" + marker + "\n" == "" + ['\n'] + (marker + "\n");
    assert marker + ['\n'] + "" == marker + "\n";
    assert [marker] + [] == [marker] && [""] + [marker] == ["", marker];
  }

  lemma NothingToRead()
    ensures TextLines("") == []
  {
  }

  lemma NoNewline(number: nat, count: nat)
    requires forall i :: 0 <= i < |Decimal(number)| ==> '0' <= Decimal(number)[i] <= '9'
    requires forall i :: 0 <= i < |Decimal(count)| ==> '0' <= Decimal(count)[i] <= '9'
    ensures '\n' !in Marker(number, count)
  {
    hide Decimal;
  }

  /** The lists of lines hold the lines of the packing. */
  ghost predicate Mirrors(r: Report, st: Packing, parts: seq<seq<string>>, current: seq<string>)
    requires r.Good(st)
  {
    && |parts| == |st.parts| && (forall i :: 0 <= i < |parts| ==> parts[i] == r.PartLines(st.parts[i]))
    && current == r.PartLines(st.current) && (current == [] <==> st.current == [])
  }

  lemma StartMirrored(r: Report)
    ensures Mirrors(r, r.Start(), [], r.summary)
  {
    r.WholeSummary();
  }

  lemma FlushMirrored(r: Report, st: Packing, parts: seq<seq<string>>, current: seq<string>)
    requires r.Good(st) && Mirrors(r, st, parts, current)
    ensures r.Good(st.Flush()) && Mirrors(r, st.Flush(), parts + [current], [])
  {
    hide Report.PartLines;
    r.PartLinesOfNone();
  }

  lemma ItemMirrored(r: Report, st: Packing, parts: seq<seq<string>>, current: seq<string>, item: Item)
    requires r.Good(st) && Mirrors(r, st, parts, current) && r.Fine(item) && r.Lines(item) != []
    ensures var st' := st.(current := st.current + [item]);
            r.Good(st') && Mirrors(r, st', parts, current + r.Lines(item))
  {
    hide Report.PartLines, Report.Lines;
    r.PartGrows(st.current, item);
  }

  /** Lines of a part while a chunk of it is being filled, up to row `index`. */
  ghost predicate Filling(r: Report, k: nat, from: nat, index: nat, before: seq<string>, current: seq<string>)
    requires k < |r.sections|
  {
    && from < index <= |r.sections[k].Body()|
    && current == before + r.Opening(k, from) + r.sections[k].Body()[from..index]
    && Size(current) == Size(before) + Size(r.Opening(k, from)) + Size(r.sections[k].Body()[from..index])
  }

  lemma FillOne(r: Report, k: nat, from: nat, index: nat, before: seq<string>, current: seq<string>)
    requires k < |r.sections| && index < |r.sections[k].Body()|
    requires Filling(r, k, from, index, before, current)
    ensures var row := r.sections[k].Body()[index];
            Size(current + [row]) == Size(current) + |row| + 1
            && Filling(r, k, from, index + 1, before, current + [row])
  {
    hide Size, Report.Opening;
    var body := r.sections[k].Body();
    SizeOne(body[index]);
    SizeConcat(current, [body[index]]);
    SizeConcat(body[from..index], [body[index]]);
    assert body[from..index + 1] == body[from..index] + [body[index]];
  }

  lemma FillFirst(r: Report, k: nat, from: nat, before: seq<string>)
    requires k < |r.sections| && from < |r.sections[k].Body()|
    ensures var body := r.sections[k].Body();
            var current := before + r.Opening(k, from) + [body[from]];
            Filling(r, k, from, from + 1, before, current)
            && Size(current) == Size(before) + Size(r.Opening(k, from)) + |body[from]| + 1
  {
    hide Size, Report.Opening;
    var body := r.sections[k].Body();
    SizeOne(body[from]);
    SizeConcat(before, r.Opening(k, from));
    SizeConcat(before + r.Opening(k, from), [body[from]]);
    assert body[from..from + 1] == [body[from]];
  }

  lemma FilledIsChunk(r: Report, k: nat, from: nat, to: nat, before: seq<string>, current: seq<string>)
    requires k < |r.sections| && Filling(r, k, from, to, before, current)
    ensures current + r.close == before + r.Lines(Chunk(k, from, to))
    ensures r.Lines(Chunk(k, from, to)) != []
  {
    hide Size, Report.Lines, Report.Opening, Section.Body;
    r.ChunkLines(k, from, to);
    OpeningNotEmpty(r, k, from);
    var opening, rows := r.Opening(k, from), r.sections[k].Body()[from..to];
    assert before + opening + rows + r.close == before + (opening + rows + r.close);
  }

  lemma OpeningNotEmpty(r: Report, k: nat, from: nat)
    requires k < |r.sections|
    ensures r.Opening(k, from) != []
  {
    assert |r.sections[k].Open(from > 0)| == 3;
  }

  /** One round of the loop over a section: opens the table, places at least one
      row and then every row that still fits, and closes the table. */
  method PlaceRows(r: Report, k: nat, from: nat, current0: seq<string>) returns (current: seq<string>, index: nat)
    requires k < |r.sections| && from < |r.sections[k].Body()|
    ensures index == r.FillTo(k, from + 1, Size(current0) + Size(r.Opening(k, from)) + |r.sections[k].Body()[from]| + 1)
    ensures from < index && current == current0 + r.Lines(Chunk(k, from, index)) && r.Lines(Chunk(k, from, index)) != []
  {
    hide Size, Report.Opening, Report.Lines, Filling, Section.Body;
    var body := r.sections[k].Body();
    current := current0 + r.Opening(k, from);
    current := current + [body[from]];
    index := from + 1;
    FillFirst(r, k, from, current0);
    ghost var goal := r.FillTo(k, index, Size(current));
    while index < |body| && Size(current) + |body[index]| + 1 + Size(r.close) <= r.limit
      invariant from < index <= |body| && Filling(r, k, from, index, current0, current)
      invariant r.FillTo(k, index, Size(current)) == goal
    {
      FillOne(r, k, from, index, current0, current);
      current := current + [body[index]];
      index := index + 1;
    }
    FilledIsChunk(r, k, from, index, current0, current);
    current := current + r.close;
  }

  /** The loop over the body of section k. */
  method PlaceBody(r: Report, k: nat, parts0: seq<seq<string>>, current0: seq<string>, ghost st0: Packing)
    returns (parts: seq<seq<string>>, current: seq<string>, ghost st: Packing)
    requires k < |r.sections| && r.Good(st0) && Mirrors(r, st0, parts0, current0)
    ensures st == r.PlaceSection(k, 0, st0) && Mirrors(r, st, parts, current)
  {
    hide Size, Report.Lines, Section.Body, Mirrors, Report.PartLines, Report.FillTo, Report.AllFine;
    var body := r.sections[k].Body();
    var index := 0;
    parts, current, st := parts0, current0, st0;
    while index < |body|
      invariant index <= |body| && r.Good(st) && Mirrors(r, st, parts, current)
      invariant r.PlaceSection(k, index, st) == r.PlaceSection(k, 0, st0)
    {
      parts, current, index, st := PlaceRound(r, k, index, parts, current, st);
    }
  }

  method PlaceRound(r: Report, k: nat, from: nat, parts0: seq<seq<string>>, current0: seq<string>, ghost st0: Packing)
    returns (parts: seq<seq<string>>, current: seq<string>, index: nat, ghost st: Packing)
    requires k < |r.sections| && from < |r.sections[k].Body()|
    requires r.Good(st0) && Mirrors(r, st0, parts0, current0)
    ensures (st, index) == r.PlaceChunk(k, from, st0) && Mirrors(r, st, parts, current)
  {
    hide Size, Report.Lines, Section.Body, Report.PartLines, Report.FillTo, Report.AllFine, Report.Opening;
    var body := r.sections[k].Body();
    parts, current, st := parts0, current0, st0;
    if current != [] && Size(current) + r.RowSize(k, from) > r.limit {
      FlushMirrored(r, st, parts, current);
      parts, current, st := parts + [current], [], st.Flush();
    }
    ghost var before := current;
    current, index := PlaceRows(r, k, from, current);
    ItemMirrored(r, st, parts, before, Chunk(k, from, index));
    st := st.(current := st.current + [Chunk(k, from, index)]);
    if index < |body| {
      FlushMirrored(r, st, parts, current);
      parts, current, st := parts + [current], [], st.Flush();
    }
  }

  /** split_comments: the texts are those of the greedy packing. */
  method SplitComments(summary: seq<string>, sections: seq<Section>, limit: int) returns (comments: seq<string>)
    ensures var r := TheReport(summary, sections, limit);
            && |comments| == |r.Split()|
            && forall i :: 0 <= i < |comments| ==>
                 && comments[i] == Comment(r.PartLines(r.Split()[i]), i + 1, |comments|)
                 && (OneLiners(r.PartLines(r.Split()[i])) ==>
                       TextLines(comments[i])
                       == Seen(r.PartLines(r.Split()[i]))
                          + if |comments| > 1 then ["", Marker(i + 1, |comments|)] else [])
  {
    hide Comment, TextLines, OneLiners, Seen, Marker, Report.Split, Report.PartLines;
    var r := TheReport(summary, sections, limit);
    var parts := PackParts(r);
    comments := [];
    for i := 0 to |parts|
      invariant |comments| == i
      invariant forall j :: 0 <= j < i ==> comments[j] == Comment(parts[j], j + 1, |parts|)
    {
      comments := comments + [Comment(parts[i], i + 1, |parts|)];
    }
    forall i | 0 <= i < |comments| && OneLiners(r.PartLines(r.Split()[i]))
      ensures TextLines(comments[i])
           == Seen(r.PartLines(r.Split()[i])) + if |comments| > 1 then ["", Marker(i + 1, |comments|)] else []
    {
      CommentRead(r.PartLines(r.Split()[i]), i + 1, |comments|);
    }
  }

  method PackParts(r: Report) returns (parts: seq<seq<string>>)
    ensures |parts| == |r.Split()|
    ensures forall i :: 0 <= i < |parts| ==> parts[i] == r.PartLines(r.Split()[i])
  {
    ghost var st := r.Start();
    parts := [];
    var current := r.summary;
    StartMirrored(r);
    hide Size, Report.Lines, Report.PartLines, Report.AllFine, Report.Start, Report.PlaceSection;
    for k := 0 to |r.sections|
      invariant st == r.PlaceSections(k) && Mirrors(r, st, parts, current)
    {
      parts, current, st := PlaceBody(r, k, parts, current, st);
    }
    if r.sections != [] {
      if Size(current) + |r.footer| + 1 > r.limit {
        FlushMirrored(r, st, parts, current);
        parts, current, st := parts + [current], [], st.Flush();
      }
      r.FooterLines();
      ItemMirrored(r, st, parts, current, Footer);
      st := st.(current := st.current + [Footer]);
      current := current + [r.footer];
    }
    FlushMirrored(r, st, parts, current);
    parts := parts + [current];
  }

  // ---- the size of the texts ----

  function Pow10(d: nat): nat {
    if d == 0 then 1 else 10 * Pow10(d - 1)
  }

  lemma {:induction false} DecimalLength(n: nat, d: nat)
    requires d > 0 && n < Pow10(d)
    ensures |Decimal(n)| <= d
  {
    if n >= 10 {
      assert Pow10(1) == 10 * Pow10(0);
      DecimalLength(n / 10, d - 1);
    }
  }

  /** A numbered comment is longer than its lines by the part marker. */
  lemma CommentSize(lines: seq<string>, number: nat, count: nat)
    requires lines != []
    ensures |Comment(lines, number, count)|
         == Size(lines) + if count > 1 then 23 + |Decimal(number)| + |Decimal(count)| else 0
  {
    JoinSize(lines);
  }

  const MAX_COMMENT_CHARS := 60000
  const GITHUB_LIMIT := 65536

  lemma PartHasLines(r: Report, part: seq<Item>)
    requires r.AllFine(part) && part != []
    ensures r.PartLines(part) != []
  {
    var item := part[|part| - 1];
    assert r.Fine(item);
    assert r.Lines(item) != [] by {
      if item.Chunk? {
        r.ChunkLines(item.section, item.from, item.to);
      } else {
        assert r.Lines(item) == r.Own(item);
      }
    }
  }

  /** What a caller can check: any bound that exceeds the limit by the longest
      marker holds for every comment. */
  lemma CommentsFit(r: Report, i: nat, d: nat, bound: int)
    requires r.PiecesFit() && (r.summary != [] || r.sections != [])
    requires i < |r.Split()| < Pow10(d) && 0 < d && r.limit + 23 + 2 * d <= bound
    ensures |Comment(r.PartLines(r.Split()[i]), i + 1, |r.Split()|)| <= bound
  {
    hide Decimal, Pow10, Comment, Size, Report.PartLines, Report.Split;
    var part := r.Split()[i];
    r.SplitIsPacked();
    assert r.Bounded(part) && part != [];
    r.FittingPartsFit(part);
    DecimalLength(i + 1, d);
    DecimalLength(|r.Split()|, d);
    PartHasLines(r, part);
    CommentSize(r.PartLines(part), i + 1, |r.Split()|);
  }

  /** With the limit the tool uses, every comment is within what GitHub accepts,
      marker included, for any number of comments of up to 2756 digits. */
  lemma CommentsFitGitHub(r: Report, i: nat, d: nat)
    requires r.limit == MAX_COMMENT_CHARS && r.PiecesFit() && (r.summary != [] || r.sections != [])
    requires i < |r.Split()| < Pow10(d) && 0 < d <= 2756
    ensures |Comment(r.PartLines(r.Split()[i]), i + 1, |r.Split()|)| <= GITHUB_LIMIT
  {
    CommentsFit(r, i, d, GITHUB_LIMIT);
  }

  /** The marker is not counted against the limit: a summary that fills it
      becomes a comment beyond it, whatever the sections are. */
  lemma MarkerExceedsLimit(r: Report)
    requires r.summary != [] && Size(r.summary) == r.limit && r.sections != []
    ensures |r.Split()| > 1 && r.Split()[0] == [Summary]
    ensures |Comment(r.PartLines(r.Split()[0]), 1, |r.Split()|)| > r.limit
  {
    hide Report.Split, Size, Comment;
    r.WholeSummary();
    assert r.Start().current == [Summary];
    FirstPartFull(r);
    CommentSize(r.summary, 1, |r.Split()|);
  }

  lemma FirstPartFull(r: Report)
    requires r.summary != [] && Size(r.summary) == r.limit && r.sections != []
    ensures |r.Split()| > 1 && r.Split()[0] == [Summary]
  {
    hide Size, Report.PlaceChunk, Report.PlaceSection;
    FirstChunkFlushes(r);
    var (st, to) := r.PlaceChunk(0, 0, r.Start());
    r.SectionGrowsParts(0, to, st);
    assert r.PlaceSections(1) == r.PlaceSection(0, 0, r.PlaceSections(0)) == r.PlaceSection(0, to, st) by {
      PlaceSectionStep(r, r.Start());
    }
    LaterSectionsGrowParts(r, |r.sections|);
    assert [[Summary]] <= r.PlaceSections(|r.sections|).parts;
  }

  lemma PlaceSectionStep(r: Report, st: Packing)
    requires r.sections != [] && r.Good(st)
    ensures var (st', to) := r.PlaceChunk(0, 0, st); r.PlaceSection(0, 0, st) == r.PlaceSection(0, to, st')
  {
  }

  lemma FirstChunkFlushes(r: Report)
    requires r.summary != [] && Size(r.summary) == r.limit && r.sections != []
    ensures [[Summary]] <= r.PlaceChunk(0, 0, r.Start()).0.parts
  {
    hide Size, Section.Open, Report.FillTo;
    r.WholeSummary();
    assert r.MakeRoom(0, 0, r.Start()) == Packing([[Summary]], []);
  }

  lemma {:induction false} LaterSectionsGrowParts(r: Report, n: nat)
    requires 0 < n <= |r.sections|
    ensures r.PlaceSections(1).parts <= r.PlaceSections(n).parts
  {
    hide Report.PlaceSection;
    if n > 1 {
      LaterSectionsGrowParts(r, n - 1);
      r.SectionGrowsParts(n - 1, 0, r.PlaceSections(n - 1));
    }
  }
}
