// How long the comments of tools/github_report.py can get: the exact bound over
// all reports, shown by reports that reach it.
module CommentBound {
  import opened ReportSplitter

  /** If r is a report for this limit whose pieces fit, in fewer than 10^d parts,
      every comment is within the bound. */
  ghost predicate Within(r: Report, limit: int, d: nat, bound: int) {
    && r.limit == limit && r.close == SECTION_CLOSE && r.footer == FOOTER
    && r.PiecesFit() && (r.summary != [] || r.sections != []) && |r.Split()| < Pow10(d)
    ==> forall i :: 0 <= i < |r.Split()| ==>
          |Comment(r.PartLines(r.Split()[i]), i + 1, |r.Split()|)| <= bound
  }

  // ---- a report whose comments get that long ----

  /** One table of n rows of m characters each. */
  function Rows(n: nat, m: nat): seq<string> {
    seq(n, _ => seq(m, _ => 'x'))
  }

  function Tall(n: nat, limit: int): Report {
    TheReport([], [Section("", [], Rows(n, if limit < 64 then 0 else limit - 64), "", false)], limit)
  }

  /** The sizes of the frame around a row. */
  lemma FrameSizes(s: Section)
    requires s.title == "" && !s.open_
    ensures Size(s.Open(true)) == 50 && Size(s.Open(false)) == 38
    ensures Size(SECTION_CLOSE) == 13 && |FOOTER| == 78
  {
    SizeOfThree(s.Open(true));
    SizeOfThree(s.Open(false));
    SizeOfThree(SECTION_CLOSE);
  }

  lemma SizeOfThree(lines: seq<string>)
    requires |lines| == 3
    ensures Size(lines) == |lines[0]| + |lines[1]| + |lines[2]| + 3
  {
    hide Size;
    assert lines == [lines[0]] + [lines[1]] + [lines[2]];
    SizeConcat([lines[0]] + [lines[1]], [lines[2]]);
    SizeConcat([lines[0]], [lines[1]]);
    SizeOne(lines[0]);
    SizeOne(lines[1]);
    SizeOne(lines[2]);
  }

  /** The sizes the packing looks at. */
  lemma TallSizes(n: nat, limit: int, index: nat)
    requires limit > |FOOTER| && index < n
    ensures var r := Tall(n, limit);
            && |r.sections[0].Body()| == n && Size(r.close) == 13
            && |r.sections[0].Body()[index]| == limit - 64
            && Size(r.Opening(0, index)) == if index > 0 then 50 else 38
  {
    var r := Tall(n, limit);
    FrameSizes(r.sections[0]);
    hide Size, Section.Open;
    r.OpeningIs(0, index);
    assert r.sections[0].Open(index > 0) + [] == r.sections[0].Open(index > 0);
  }

  lemma TallFits(n: nat, limit: int)
    requires limit > |FOOTER| && n > 0
    ensures Tall(n, limit).PiecesFit()
  {
    var r := Tall(n, limit);
    FrameSizes(r.sections[0]);
    SizeNone();
    hide Size, Section.Open;
    forall k, i | 0 <= k < |r.sections| && 0 <= i < |r.sections[k].Body()|
      ensures Size(r.sections[k].Open(true)) + Size(r.sections[k].Header()) + |r.sections[k].Body()[i]| + 1
                + Size(r.close) <= r.limit
    {
      TallSizes(n, limit, i);
      assert r.sections[k].Header() == [];
    }
  }

  /** One row is placed: after an empty part there is no room for a second one. */
  lemma OneRowPlaced(n: nat, limit: int, index: nat, parts: seq<seq<Item>>)
    requires limit > |FOOTER| && index < n && Tall(n, limit).Good(Packing(parts, []))
    ensures var (st, to) := Tall(n, limit).PlaceChunk(0, index, Packing(parts, []));
            && to == index + 1
            && st == if to < n then Packing(parts + [[Chunk(0, index, to)]], [])
                     else Packing(parts, [Chunk(0, index, to)])
  {
    var r := Tall(n, limit);
    TallSizes(n, limit, index);
    if index + 1 < n {
      TallSizes(n, limit, index + 1);
    }
    r.PartLinesOfNone();
    SizeNone();
    hide Size, Report.Opening;
    assert r.MakeRoom(0, index, Packing(parts, [])) == Packing(parts, []);
    assert r.FillTo(0, index + 1, r.UsedBy(0, index, [])) == index + 1;
    assert [] + [Chunk(0, index, index + 1)] == [Chunk(0, index, index + 1)];
  }

  /** So every row but the last fills a part. */
  lemma {:induction false} RowsPlaced(n: nat, limit: int, index: nat, parts: seq<seq<Item>>)
    requires limit > |FOOTER| && index < n && Tall(n, limit).Good(Packing(parts, []))
    requires |Tall(n, limit).sections[0].Body()| == n
    ensures var st := Tall(n, limit).PlaceSection(0, index, Packing(parts, []));
            |st.parts| == |parts| + (n - 1 - index) && st.current == [Chunk(0, n - 1, n)]
    decreases n - index
  {
    var r := Tall(n, limit);
    OneRowPlaced(n, limit, index, parts);
    hide Report.PlaceChunk;
    if index + 1 < n {
      RowsPlaced(n, limit, index + 1, parts + [[Chunk(0, index, index + 1)]]);
    }
  }

  /** The part of the last row is exactly full. */
  lemma LastRowFull(n: nat, limit: int)
    requires limit > |FOOTER| && n > 1 && |Tall(n, limit).sections[0].Body()| == n
    ensures var r := Tall(n, limit);
            r.AllFine([Chunk(0, n - 1, n)]) && Size(r.PartLines([Chunk(0, n - 1, n)])) == limit
  {
    var r := Tall(n, limit);
    var chunk := Chunk(0, n - 1, n);
    var body := r.sections[0].Body();
    TallSizes(n, limit, n - 1);
    r.PartLinesOfNone();
    hide Size, Report.Opening, Report.Lines, Report.PartLines;
    r.PartGrows([], chunk);
    SizeNone();
    r.ChunkSize(0, n - 1, n);
    assert body[n - 1..n] == [body[n - 1]];
    SizeOne(body[n - 1]);
    assert [] + [chunk] == [chunk];
  }

  /** One part a row, the last of them full, and one for the footer. */
  lemma TallSplit(n: nat, limit: int)
    requires limit > |FOOTER| && n > 1
    ensures var r := Tall(n, limit);
            |r.Split()| == n + 1 && Size(r.PartLines(r.Split()[n - 1])) == limit
  {
    var r := Tall(n, limit);
    TallSizes(n, limit, 0);
    hide Size, Report.PlaceSection, Report.PartLines, Report.Opening;
    RowsPlaced(n, limit, 0, []);
    LastRowFull(n, limit);
    assert r.PlaceSections(0) == Packing([], []);
    assert r.PlaceSections(1) == r.PlaceSection(0, 0, r.PlaceSections(0));
  }

  lemma {:induction false} DecimalAtLeast(n: nat, d: nat)
    requires d > 0 && n >= Pow10(d - 1)
    ensures |Decimal(n)| >= d
  {
    if d > 1 {
      Pow10Positive(d - 2);
      assert Pow10(d - 1) == 10 * Pow10(d - 2);
      DecimalAtLeast(n / 10, d - 1);
    }
  }

  lemma {:induction false} Pow10Positive(d: nat)
    ensures Pow10(d) > 0
  {
    if d > 0 {
      Pow10Positive(d - 1);
    }
  }

  /** For each number of digits some report has a comment with the longest marker
      on a full part. */
  lemma LongestComment(limit: int, d: nat) returns (r: Report, i: nat)
    requires limit > |FOOTER| && d > 0
    ensures r.limit == limit && r.close == SECTION_CLOSE && r.footer == FOOTER
    ensures r.PiecesFit() && r.sections != [] && i < |r.Split()| < Pow10(d)
    ensures |Comment(r.PartLines(r.Split()[i]), i + 1, |r.Split()|)| >= limit + 23 + 2 * d
  {
    hide Size, Comment, Decimal, Report.Split, Report.PartLines, Report.PiecesFit;
    var n := if d == 1 then 2 else Pow10(d - 1);
    Pow10Positive(d - 1);
    assert Pow10(d) == 10 * Pow10(d - 1);
    assert d > 1 ==> Pow10(d - 1) == 10 * Pow10(d - 2);
    if d > 1 {
      Pow10Positive(d - 2);
    }
    r, i := Tall(n, limit), n - 1;
    TallFits(n, limit);
    TallSplit(n, limit);
    SizeNone();
    assert r.PartLines(r.Split()[i]) != [];
    DecimalAtLeast(n, d);
    DecimalAtLeast(n + 1, d);
    CommentSize(r.PartLines(r.Split()[i]), n, n + 1);
  }

  /** A bound holds for the comments of all reports if and only if it exceeds the
      limit by the longest marker; a limit below the footer fits no report. */
  lemma BoundIff(limit: int, d: nat, bound: int)
    requires d > 0
    ensures (forall r: Report :: Within(r, limit, d, bound)) <==> limit <= |FOOTER| || limit + 23 + 2 * d <= bound
  {
    hide Comment, Report.Split, Report.PartLines, Pow10;
    if limit <= |FOOTER| || limit + 23 + 2 * d <= bound {
      forall r: Report
        ensures Within(r, limit, d, bound)
      {
        WithinBound(r, limit, d, bound);
      }
    } else {
      var r, i := LongestComment(limit, d);
      assert !Within(r, limit, d, bound);
    }
  }

  lemma WithinBound(r: Report, limit: int, d: nat, bound: int)
    requires d > 0 && (limit <= |FOOTER| || limit + 23 + 2 * d <= bound)
    ensures Within(r, limit, d, bound)
  {
    hide Comment, Report.Split, Report.PartLines, Pow10;
    if r.limit == limit && r.footer == FOOTER && r.PiecesFit() && (r.summary != [] || r.sections != [])
      && |r.Split()| < Pow10(d) {
      forall i | 0 <= i < |r.Split()|
        ensures |Comment(r.PartLines(r.Split()[i]), i + 1, |r.Split()|)| <= bound
      {
        CommentsFit(r, i, d, bound);
      }
    }
  }
}
