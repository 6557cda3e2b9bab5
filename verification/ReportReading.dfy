// What a reader finds in the lines of tools/github_report.py: the collapsible
// tables with their titles and rows, in the whole report and in every comment.
module ReportReading {
  import opened ReportSplitter

  /** A collapsible block: whether it starts open, the line that heads it, and
      what stands in it. */
  datatype Table = Table(open_: bool, heading: string, content: seq<string>)

  /** How many lines stand before the first that closes a block. */
  function CloseAt(lines: seq<string>): (n: nat)
    ensures n <= |lines|
  {
    if lines == [] || Closes(lines[0]) then 0 else 1 + CloseAt(lines[1..])
  }

  /** The tables in the lines: two lines open one, an empty one stands behind them
      and another in front of the line that closes it. */
  function Tables(lines: seq<string>): seq<Table>
    decreases |lines|
  {
    if lines == [] then []
    else if !Opens(lines[0]) then Tables(lines[1..])
    else
      var n := CloseAt(lines);
      if n < 4 || n == |lines| then []
      else [Table(lines[0] == "<details open>", lines[1], lines[3..n - 1])] + Tables(lines[n + 1..])
  }

  /** The heading line of a section. */
  function Heading(title: string): string {
    "<summary><b>" + title + "</b></summary>"
  }

  /** The opening of a section says whether it is open and has its title, marked
      when it goes on from an earlier comment. */
  lemma OpeningRead(s: Section, continued: bool)
    ensures var lines := s.Open(continued);
            && |lines| == 3 && Opens(lines[0]) && !Closes(lines[0]) && (lines[0] == "<details open>" <==> s.open_)
            && lines[1] == Heading(s.title + if continued then " (continued)" else "")
            && !Closes(lines[1]) && lines[2] == ""
  {
    assert s.Open(continued)[1][1] == 's';
    assert "<details>" != "<details open>" by { assert |"<details>"| == 9; }
  }

  lemma {:induction false} PlainRead(a: seq<string>, b: seq<string>)
    requires AllPlain(a)
    ensures Tables(a + b) == Tables(b)
  {
    if a == [] {
      assert a + b == b;
    } else {
      assert (a + b)[1..] == a[1..] + b;
      PlainRead(a[1..], b);
    }
  }

  lemma {:induction false} CloseFound(a: seq<string>, b: seq<string>)
    requires forall i :: 0 <= i < |a| ==> !Closes(a[i])
    requires b != [] && Closes(b[0])
    ensures CloseAt(a + b) == |a|
  {
    if a == [] {
      assert a + b == b;
    } else {
      assert (a + b)[1..] == a[1..] + b;
      CloseFound(a[1..], b);
    }
  }

  /** One framed table is read as such. */
  lemma BlockRead(opening: seq<string>, content: seq<string>, rest: seq<string>)
    requires |opening| == 3 && Opens(opening[0]) && !Closes(opening[0]) && !Closes(opening[1]) && opening[2] == ""
    requires AllPlain(content)
    ensures Tables(opening + content + SECTION_CLOSE + rest)
         == [Table(opening[0] == "<details open>", opening[1], content)] + Tables(rest)
  {
    var all := opening + content + SECTION_CLOSE + rest;
    var head := opening + content + [""];
    var tail := SECTION_CLOSE[1..] + rest;
    assert all == head + tail;
    assert Closes(tail[0]);
    CloseFound(head, tail);
    var n := |head|;
    assert all[3..n - 1] == content;
    assert all[n + 1..] == [""] + rest;
    assert ([""] + rest)[1..] == rest;
    assert Tables([""] + rest) == Tables(rest);
    assert all[0] == opening[0] && all[1] == opening[1];
  }

  /** The body lines of a section with the header that goes with rows: what a
      table of it holds. */
  function Content(s: Section, from: nat, to: nat): seq<string>
    requires from <= to <= if s.rows == [] then 1 else |s.rows|
  {
    if s.rows == [] then [s.empty][from..to] else s.header + s.rows[from..to]
  }

  /** The table an item of a part is to be read as. */
  function ItemTables(r: Report, item: Item): seq<Table>
    requires r.Fine(item)
  {
    if !item.Chunk? then []
    else
      var s := r.sections[item.section];
      [Table(s.open_, Heading(s.title + if item.from > 0 then " (continued)" else ""),
             Content(s, item.from, item.to))]
  }

  function PartTables(r: Report, part: seq<Item>): seq<Table>
    requires r.AllFine(part)
  {
    if part == [] then [] else PartTables(r, part[..|part| - 1]) + ItemTables(r, part[|part| - 1])
  }

  /** The report as tables: each section once, with all its rows, or the note. */
  function SectionTables(sections: seq<Section>): seq<Table> {
    if sections == [] then []
    else
      var s := sections[|sections| - 1];
      SectionTables(sections[..|sections| - 1])
      + [Table(s.open_, Heading(s.title), if s.rows == [] then [s.empty] else s.header + s.rows)]
  }

  lemma ItemRead(r: Report, item: Item, rest: seq<string>)
    requires r.PlainText() && r.close == SECTION_CLOSE && r.Fine(item)
    ensures Tables(r.Lines(item) + rest) == ItemTables(r, item) + Tables(rest)
  {
    match item
    case Summary =>
      assert r.Lines(item) == r.summary;
      PlainRead(r.summary, rest);
    case Footer =>
      r.FooterLines();
      PlainRead([r.footer], rest);
    case Chunk(k, from, to) => ChunkRead(r, k, from, to, rest);
  }

  lemma ChunkRead(r: Report, k: nat, from: nat, to: nat, rest: seq<string>)
    requires r.PlainText() && r.close == SECTION_CLOSE && r.Fine(Chunk(k, from, to))
    ensures Tables(r.Lines(Chunk(k, from, to)) + rest) == ItemTables(r, Chunk(k, from, to)) + Tables(rest)
  {
    var s := r.sections[k];
    var opening, content := s.Open(from > 0), Content(s, from, to);
    ContentIs(r, k, from, to);
    hide Tables, Section.Open, Section.Header, Section.Body, Content, AllPlain;
    r.ChunkLines(k, from, to);
    r.OpeningIs(k, from);
    OpeningRead(s, from > 0);
    BlockRead(opening, content, rest);
    Regroup(opening, s.Header(), s.Body()[from..to]);
    hide Report.Lines, Report.Opening, ItemTables;
    ChunkTable(r, k, from, to);
  }

  lemma ChunkTable(r: Report, k: nat, from: nat, to: nat)
    requires r.Fine(Chunk(k, from, to))
    ensures var s := r.sections[k];
            ItemTables(r, Chunk(k, from, to))
            == [Table(s.open_, Heading(s.title + if from > 0 then " (continued)" else ""), Content(s, from, to))]
  {
  }

  lemma ContentIs(r: Report, k: nat, from: nat, to: nat)
    requires r.PlainText() && r.Fine(Chunk(k, from, to))
    ensures var s := r.sections[k];
            Content(s, from, to) == s.Header() + s.Body()[from..to] && AllPlain(Content(s, from, to))
  {
    var s := r.sections[k];
    assert AllPlain(s.Header()) && AllPlain(s.Body());
  }

  /** In every part a reader finds exactly the tables packed into it, each with its
      title, its header and its rows. */
  lemma {:induction false} PartRead(r: Report, part: seq<Item>, rest: seq<string>)
    requires r.PlainText() && r.close == SECTION_CLOSE && r.AllFine(part)
    ensures Tables(r.PartLines(part) + rest) == PartTables(r, part) + Tables(rest)
  {
    hide Tables, Report.Lines, ItemTables;
    if part == [] {
      r.PartLinesOfNone();
      assert [] + rest == rest && [] + Tables(rest) == Tables(rest);
    } else {
      var n := |part| - 1;
      var item := part[n];
      assert r.Fine(item);
      ItemRead(r, item, rest);
      PartRead(r, part[..n], r.Lines(item) + rest);
      assert r.PartLines(part) + rest == r.PartLines(part[..n]) + (r.Lines(item) + rest);
      assert PartTables(r, part[..n]) + (ItemTables(r, item) + Tables(rest))
          == PartTables(r, part) + Tables(rest);
    }
  }

  /** In the unsplit report a reader finds each section once, in order. */
  lemma ReportRead(r: Report)
    requires r.PlainText() && r.close == SECTION_CLOSE
    ensures Tables(r.ReportLines()) == SectionTables(r.sections)
  {
    var end := if r.sections == [] then [] else [r.footer];
    SectionsRead(r, |r.sections|, end);
    PlainRead(r.summary, r.SectionsLines(|r.sections|) + end);
    PlainRead(end, []);
    assert end + [] == end && r.sections[..|r.sections|] == r.sections;
    assert r.ReportLines() == r.summary + (r.SectionsLines(|r.sections|) + end);
    assert SectionTables(r.sections) + [] == SectionTables(r.sections);
  }

  lemma {:induction false} SectionsRead(r: Report, n: nat, rest: seq<string>)
    requires r.PlainText() && r.close == SECTION_CLOSE && n <= |r.sections|
    ensures Tables(r.SectionsLines(n) + rest) == SectionTables(r.sections[..n]) + Tables(rest)
  {
    hide Tables, SectionTables, ItemTables, Report.SectionsLines, Report.SectionLines, Report.Lines;
    SectionsStep(r, n);
    if n == 0 {
      assert [] + rest == rest && [] + Tables(rest) == Tables(rest);
    } else {
      var whole := Chunk(n - 1, 0, |r.sections[n - 1].Body()|);
      SectionIsChunk(r, n - 1);
      ItemRead(r, whole, rest);
      SectionsRead(r, n - 1, r.SectionLines(n - 1) + rest);
      Regroup(r.SectionsLines(n - 1), r.SectionLines(n - 1), rest);
      Regroup(SectionTables(r.sections[..n - 1]), ItemTables(r, whole), Tables(rest));
    }
  }

  lemma Regroup<T>(a: seq<T>, b: seq<T>, c: seq<T>)
    ensures a + b + c == a + (b + c)
  {
  }

  lemma SectionsStep(r: Report, n: nat)
    requires n <= |r.sections|
    ensures n == 0 ==> r.SectionsLines(0) == [] && SectionTables(r.sections[..0]) == []
    ensures n > 0 ==>
              var whole := Chunk(n - 1, 0, |r.sections[n - 1].Body()|);
              && r.SectionsLines(n) == r.SectionsLines(n - 1) + r.SectionLines(n - 1)
              && r.Fine(whole)
              && SectionTables(r.sections[..n]) == SectionTables(r.sections[..n - 1]) + ItemTables(r, whole)
  {
    if n > 0 {
      hide ItemTables, Report.SectionLines;
      WholeTable(r, n - 1);
      assert r.sections[..n][..n - 1] == r.sections[..n - 1];
    }
  }

  lemma SectionIsChunk(r: Report, k: nat)
    requires k < |r.sections|
    ensures r.Fine(Chunk(k, 0, |r.sections[k].Body()|))
    ensures r.SectionLines(k) == r.Lines(Chunk(k, 0, |r.sections[k].Body()|))
  {
    var body := r.sections[k].Body();
    r.ChunkLines(k, 0, |body|);
    r.OpeningIs(k, 0);
    assert body[0..|body|] == body;
  }

  lemma WholeTable(r: Report, k: nat)
    requires k < |r.sections| && r.Fine(Chunk(k, 0, |r.sections[k].Body()|))
    ensures var s := r.sections[k];
            ItemTables(r, Chunk(k, 0, |s.Body()|))
            == [Table(s.open_, Heading(s.title), if s.rows == [] then [s.empty] else s.header + s.rows)]
  {
    var s := r.sections[k];
    assert s.title + "" == s.title;
    if s.rows == [] {
      assert [s.empty][0..1] == [s.empty];
    } else {
      assert s.rows[0..|s.rows|] == s.rows;
    }
  }
}
