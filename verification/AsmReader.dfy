// read_functions of tools/generate_asm_sequences.py: the line state machine that
// collects functions from retail assembly.  The line patterns are taken as read.
module AsmReader {
  import opened Basics
  import opened AsmBlock

  /** What the patterns make of a line. */
  datatype AsmLine =
    | FnStart(name: string)
    | Sym(mark: string)
    | FnEnd(name: string)
    | Insn(address: nat, instruction: Instruction)
    | Other

  /** A finished function; labels carry their byte offset. */
  datatype Function = Function(body: Sequence, labels: seq<(string, nat)>)

  /** The function being read; its address is that of its first instruction. */
  datatype Active =
    Active(name: string, address: Option<nat>, instructions: seq<Instruction>, labels: seq<(string, nat)>)

  datatype Error = Nested | Unmatched | NoInstructions | Duplicate | BadAddress | Unterminated

  /** The dictionary of functions keeps the order of insertion. */
  datatype State = Reading(active: Option<Active>, functions: seq<Function>) | Failed(error: Error)

  predicate Known(functions: seq<Function>, name: string) {
    exists i :: 0 <= i < |functions| && functions[i].body.name == name
  }

  /** One line of the loop. */
  function Step(s: State, line: AsmLine): State {
    if s.Failed? then s
    else
      match line
      case FnStart(name) =>
        if s.active.Some? then Failed(Nested) else Reading(Some(Active(name, None, [], [])), s.functions)
      case Sym(mark) =>
        if s.active.None? then s
        else
          var a := s.active.value;
          s.(active := Some(a.(labels := a.labels + [(mark, 4 * |a.instructions|)])))
      case FnEnd(name) =>
        if s.active.None? || name != s.active.value.name then Failed(Unmatched)
        else
          var a := s.active.value;
          if a.address.None? || a.instructions == [] then Failed(NoInstructions)
          else if Known(s.functions, a.name) then Failed(Duplicate)
          else Reading(None, s.functions + [Function(Sequence(a.name, a.address.value, a.instructions), a.labels)])
      case Insn(address, instruction) =>
        if s.active.None? then s
        else
          var a := s.active.value;
          var start := if a.address.Some? then a.address.value else address;
          if address != start + 4 * |a.instructions| then Failed(BadAddress)
          else s.(active := Some(a.(address := Some(start), instructions := a.instructions + [instruction])))
      case Other => s
  }

  function Steps(s: State, lines: seq<AsmLine>): State {
    if lines == [] then s else Step(Steps(s, lines[..|lines| - 1]), lines[|lines| - 1])
  }

  function ReadLines(lines: seq<AsmLine>): State {
    Steps(Reading(None, []), lines)
  }

  function Finished(s: State): Result<seq<Function>> {
    if s.Failed? then Err("malformed assembly")
    else if s.active.Some? then Err("unterminated function")
    else Ok(s.functions)
  }

  /** read_functions */
  method ReadFunctions(lines: seq<AsmLine>) returns (r: Result<seq<Function>>)
    ensures r == Finished(ReadLines(lines))
  {
    var s := Reading(None, []);
    for i := 0 to |lines|
      invariant s == ReadLines(lines[..i])
    {
      assert lines[..i + 1][..i] == lines[..i];
      s := Step(s, lines[i]);
    }
    assert lines[..|lines|] == lines;
    r := Finished(s);
  }

  // ---- what a file says, independently of the state machine ----

  /** Whether a function is open after the lines. */
  predicate Open(lines: seq<AsmLine>) {
    lines != []
    && var line := lines[|lines| - 1];
       line.FnStart? || (!line.FnEnd? && Open(lines[..|lines| - 1]))
  }

  /** The lines that matter: the ends of functions, and the instructions and
      labels inside them. */
  function Relevant(lines: seq<AsmLine>): seq<AsmLine> {
    if lines == [] then []
    else
      var n := |lines| - 1;
      Relevant(lines[..n])
      + match lines[n]
        case FnStart(_) => [lines[n]]
        case FnEnd(_) => [lines[n]]
        case Other => []
        case _ => if Open(lines[..n]) then [lines[n]] else []
  }

  /** The first n instructions and m labels of a function as assembly lines. */
  function Inside(f: Function, n: nat, m: nat): seq<AsmLine>
    requires n <= |f.body.instructions| && m <= |f.labels|
    decreases n + m
  {
    if m > 0 && f.labels[m - 1].1 == 4 * n then Inside(f, n, m - 1) + [Sym(f.labels[m - 1].0)]
    else if n > 0 then Inside(f, n - 1, m) + [Insn(f.body.At(n - 1), f.body.instructions[n - 1])]
    else []
  }

  function Begun(f: Function): seq<AsmLine> {
    [FnStart(f.body.name)] + Inside(f, |f.body.instructions|, |f.labels|)
  }

  function Rendered(f: Function): seq<AsmLine> {
    Begun(f) + [FnEnd(f.body.name)]
  }

  function RenderedAll(functions: seq<Function>): seq<AsmLine> {
    if functions == [] then []
    else RenderedAll(functions[..|functions| - 1]) + Rendered(functions[|functions| - 1])
  }

  /** Labels mark instructions of the function, or its end, in order. */
  ghost predicate LabelsPlaced(f: Function) {
    forall k :: 0 <= k < |f.labels| ==>
      && f.labels[k].1 % 4 == 0 && f.labels[k].1 <= 4 * |f.body.instructions|
      && (k > 0 ==> f.labels[k - 1].1 <= f.labels[k].1)
  }

  ghost predicate WellFormedFunctions(functions: seq<Function>) {
    && (forall i :: 0 <= i < |functions| ==>
          functions[i].body.instructions != [] && LabelsPlaced(functions[i]))
    && (forall i, j :: 0 <= i < j < |functions| ==> functions[i].body.name != functions[j].body.name)
  }

  // ---- only the relevant lines count ----

  ghost predicate OpenAgrees(lines: seq<AsmLine>, s: State) {
    s.Reading? ==> (Open(lines) <==> s.active.Some?)
  }

  lemma {:induction false} ReadAgrees(lines: seq<AsmLine>)
    ensures OpenAgrees(lines, ReadLines(lines))
  {
    if lines != [] {
      ReadAgrees(lines[..|lines| - 1]);
    }
  }

  lemma {:induction false} RelevantRead(lines: seq<AsmLine>)
    ensures ReadLines(Relevant(lines)) == ReadLines(lines)
  {
    if lines != [] {
      var n := |lines| - 1;
      hide Relevant, ReadLines, Open;
      RelevantRead(lines[..n]);
      ReadAgrees(lines[..n]);
      assert lines[..n] + [lines[n]] == lines;
      OneMore(lines[..n], lines[n]);
      OneMore(Relevant(lines[..n]), lines[n]);
      assert Relevant(lines[..n]) + [] == Relevant(lines[..n]);
    }
  }

  lemma OneMore(lines: seq<AsmLine>, line: AsmLine)
    ensures ReadLines(lines + [line]) == Step(ReadLines(lines), line)
    ensures Relevant(lines + [line])
         == Relevant(lines)
            + if line.FnStart? || line.FnEnd? || (!line.Other? && Open(lines)) then [line] else []
  {
    hide Step;
    assert (lines + [line])[..|lines|] == lines;
  }

  // ---- an accepted file is the rendering of its functions ----

  /** The function being read, were it to end here. */
  function SoFar(a: Active): Function {
    Function(Sequence(a.name, if a.address.Some? then a.address.value else 0, a.instructions), a.labels)
  }

  ghost predicate Faithful(lines: seq<AsmLine>, s: State) {
    s.Reading? ==>
      && WellFormedFunctions(s.functions)
      && (s.active.Some? ==>
            && (s.active.value.address.None? <==> s.active.value.instructions == [])
            && LabelsPlaced(SoFar(s.active.value)))
      && Relevant(lines)
         == RenderedAll(s.functions) + if s.active.Some? then Begun(SoFar(s.active.value)) else []
  }

  lemma {:induction false} ReadsFaithfully(lines: seq<AsmLine>)
    ensures Faithful(lines, ReadLines(lines))
  {
    hide Step;
    if lines != [] {
      var n := |lines| - 1;
      ReadsFaithfully(lines[..n]);
      ReadAgrees(lines[..n]);
      StepFaithful(lines[..n], ReadLines(lines[..n]), lines[n]);
      assert lines[..n] + [lines[n]] == lines;
    }
  }

  lemma StepFaithful(lines: seq<AsmLine>, s: State, line: AsmLine)
    requires Faithful(lines, s) && OpenAgrees(lines, s)
    ensures Faithful(lines + [line], Step(s, line))
  {
    hide Open, Relevant, Begun, RenderedAll, WellFormedFunctions, LabelsPlaced;
    if s.Reading? && Step(s, line).Reading? {
      OneMore(lines, line);
      if s.active.None? {
        if line.FnStart? {
          StartFaithful(Step(s, line).active.value, line);
        }
      } else if line.FnEnd? {
        EndFaithful(lines, s, line);
      } else if !line.Other? {
        InsideFaithful(lines, s, line);
      }
    }
  }

  lemma InsideFaithful(lines: seq<AsmLine>, s: State, line: AsmLine)
    requires Faithful(lines, s) && OpenAgrees(lines, s)
    requires s.Reading? && s.active.Some? && (line.Insn? || line.Sym?) && Step(s, line).Reading?
    ensures Faithful(lines + [line], Step(s, line))
  {
    OneMore(lines, line);
    hide Open, Relevant, Begun, RenderedAll, WellFormedFunctions, LabelsPlaced;
    var a, a' := s.active.value, Step(s, line).active.value;
    if line.Insn? {
      InsnFaithful(a, a', line);
    } else {
      SymFaithful(a, a', line);
    }
    assert RenderedAll(s.functions) + (Begun(SoFar(a)) + [line]) == RenderedAll(s.functions) + Begun(SoFar(a)) + [line];
  }

  lemma StartFaithful(a: Active, line: AsmLine)
    requires line.FnStart? && a == Active(line.name, None, [], [])
    ensures LabelsPlaced(SoFar(a)) && Begun(SoFar(a)) == [line]
  {
  }

  lemma EndFaithful(lines: seq<AsmLine>, s: State, line: AsmLine)
    requires Faithful(lines, s) && OpenAgrees(lines, s)
    requires s.Reading? && line.FnEnd? && Step(s, line).Reading?
    ensures Faithful(lines + [line], Step(s, line))
  {
    hide Open, Relevant, Begun, RenderedAll, WellFormedFunctions, LabelsPlaced, Known;
    OneMore(lines, line);
    OneMoreFunction(s.functions, SoFar(s.active.value));
    assert RenderedAll(s.functions) + (Begun(SoFar(s.active.value)) + [line])
        == RenderedAll(s.functions) + Begun(SoFar(s.active.value)) + [line];
  }

  lemma OneMoreFunction(functions: seq<Function>, f: Function)
    ensures RenderedAll(functions + [f]) == RenderedAll(functions) + Rendered(f)
    ensures WellFormedFunctions(functions) && !Known(functions, f.body.name) && f.body.instructions != []
         && LabelsPlaced(f)
         ==> WellFormedFunctions(functions + [f])
  {
    hide Rendered, LabelsPlaced;
    assert (functions + [f])[..|functions|] == functions;
  }

  /** More instructions or labels do not change the lines before them. */
  lemma {:induction false} InsideKept(f: Function, g: Function, n: nat, m: nat)
    requires n <= |f.body.instructions| && m <= |f.labels|
    requires f.body.instructions <= g.body.instructions && f.labels <= g.labels
    requires n > 0 ==> f.body.address == g.body.address
    ensures Inside(f, n, m) == Inside(g, n, m)
    decreases n + m
  {
    if m > 0 && f.labels[m - 1].1 == 4 * n {
      InsideKept(f, g, n, m - 1);
    } else if n > 0 {
      InsideKept(f, g, n - 1, m);
    }
  }

  lemma InsnFaithful(a: Active, a': Active, line: AsmLine)
    requires line.Insn? && Step(Reading(Some(a), []), line) == Reading(Some(a'), [])
    requires a.address.None? <==> a.instructions == []
    requires LabelsPlaced(SoFar(a))
    ensures LabelsPlaced(SoFar(a')) && Begun(SoFar(a')) == Begun(SoFar(a)) + [line]
  {
    hide Inside;
    var f, g := SoFar(a), SoFar(a');
    assert g.body.instructions[..|a.instructions|] == a.instructions;
    InsideKept(f, g, |a.instructions|, |a.labels|);
    AppendedInside(g);
  }

  /** The last line of a function that ends in an instruction, or in a label. */
  lemma AppendedInside(g: Function)
    requires LabelsPlaced(g)
    ensures var n, m := |g.body.instructions|, |g.labels|;
            && (m > 0 && g.labels[m - 1].1 == 4 * n ==>
                  Inside(g, n, m) == Inside(g, n, m - 1) + [Sym(g.labels[m - 1].0)])
            && (n > 0 && !(m > 0 && g.labels[m - 1].1 == 4 * n) ==>
                  Inside(g, n, m) == Inside(g, n - 1, m) + [Insn(g.body.At(n - 1), g.body.instructions[n - 1])])
  {
  }

  lemma SymFaithful(a: Active, a': Active, line: AsmLine)
    requires line.Sym? && Step(Reading(Some(a), []), line) == Reading(Some(a'), [])
    requires LabelsPlaced(SoFar(a))
    ensures LabelsPlaced(SoFar(a')) && Begun(SoFar(a')) == Begun(SoFar(a)) + [line]
  {
    hide Inside;
    var f, g := SoFar(a), SoFar(a');
    assert g.labels[..|a.labels|] == a.labels;
    InsideKept(f, g, |a.instructions|, |a.labels|);
    AppendedInside(g);
  }

  /** The lines that matter of an accepted file are the functions read, each with
      its name, its labels and its instructions at address + 4k, in order; no
      function is empty and no name occurs twice. */
  lemma AcceptedIsFaithful(lines: seq<AsmLine>)
    requires Finished(ReadLines(lines)).Ok?
    ensures var functions := Finished(ReadLines(lines)).value;
            WellFormedFunctions(functions) && Relevant(lines) == RenderedAll(functions)
  {
    hide Step, RenderedAll, Relevant;
    ReadsFaithfully(lines);
  }

  // ---- every such file is accepted ----

  lemma {:induction false} StepsConcat(s: State, a: seq<AsmLine>, b: seq<AsmLine>)
    ensures Steps(s, a + b) == Steps(Steps(s, a), b)
  {
    hide Step;
    if b == [] {
      assert a + b == a;
    } else {
      assert (a + b)[..|a + b| - 1] == a + b[..|b| - 1];
      StepsConcat(s, a, b[..|b| - 1]);
    }
  }

  lemma StepsOne(s: State, lines: seq<AsmLine>, line: AsmLine)
    ensures Steps(s, lines + [line]) == Step(Steps(s, lines), line)
    ensures Steps(s, []) == s
  {
    hide Step;
    assert (lines + [line])[..|lines|] == lines;
  }

  /** The state when the first n instructions and m labels are read. */
  function Partly(f: Function, n: nat, m: nat, functions: seq<Function>): State
    requires n <= |f.body.instructions| && m <= |f.labels|
  {
    var address := if n == 0 then None else Some(f.body.address);
    Reading(Some(Active(f.body.name, address, f.body.instructions[..n], f.labels[..m])), functions)
  }

  lemma OneInstruction(f: Function, n: nat, m: nat, functions: seq<Function>)
    requires 0 < n <= |f.body.instructions| && m <= |f.labels|
    ensures Step(Partly(f, n - 1, m, functions), Insn(f.body.At(n - 1), f.body.instructions[n - 1]))
         == Partly(f, n, m, functions)
  {
    assert f.body.instructions[..n] == f.body.instructions[..n - 1] + [f.body.instructions[n - 1]];
  }

  lemma OneLabel(f: Function, n: nat, m: nat, functions: seq<Function>)
    requires n <= |f.body.instructions| && 0 < m <= |f.labels| && f.labels[m - 1].1 == 4 * n
    ensures Step(Partly(f, n, m - 1, functions), Sym(f.labels[m - 1].0)) == Partly(f, n, m, functions)
  {
    assert f.labels[..m] == f.labels[..m - 1] + [f.labels[m - 1]];
  }

  lemma {:induction false} InsideRead(f: Function, n: nat, m: nat, functions: seq<Function>)
    requires LabelsPlaced(f) && n <= |f.body.instructions| && m <= |f.labels|
    requires m > 0 ==> f.labels[m - 1].1 <= 4 * n
    ensures Steps(Partly(f, 0, 0, functions), Inside(f, n, m)) == Partly(f, n, m, functions)
    decreases n + m
  {
    hide Step, Steps, Partly;
    var start := Partly(f, 0, 0, functions);
    if m > 0 && f.labels[m - 1].1 == 4 * n {
      InsideRead(f, n, m - 1, functions);
      StepsOne(start, Inside(f, n, m - 1), Sym(f.labels[m - 1].0));
      OneLabel(f, n, m, functions);
    } else if n > 0 {
      InsideRead(f, n - 1, m, functions);
      StepsOne(start, Inside(f, n - 1, m), Insn(f.body.At(n - 1), f.body.instructions[n - 1]));
      OneInstruction(f, n, m, functions);
    } else {
      StepsOne(start, [], Other);
    }
  }

  /** Between functions, the lines of a new one add just that function. */
  lemma RenderedIsRead(f: Function, functions: seq<Function>)
    requires f.body.instructions != [] && LabelsPlaced(f) && !Known(functions, f.body.name)
    ensures Steps(Reading(None, functions), Rendered(f)) == Reading(None, functions + [f])
  {
    hide Steps, Inside, LabelsPlaced, Known;
    var s, n, m := Reading(None, functions), |f.body.instructions|, |f.labels|;
    var start := [FnStart(f.body.name)];
    assert Step(s, FnStart(f.body.name)) == Partly(f, 0, 0, functions);
    StepsOne(s, [], FnStart(f.body.name));
    assert [] + start == start;
    assert m > 0 ==> f.labels[m - 1].1 <= 4 * n by { if m > 0 { LastLabel(f); } }
    InsideRead(f, n, m, functions);
    StepsConcat(s, start, Inside(f, n, m));
    StepsOne(s, Begun(f), FnEnd(f.body.name));
    assert f.body.instructions[..n] == f.body.instructions && f.labels[..m] == f.labels;
  }

  lemma LastLabel(f: Function)
    requires LabelsPlaced(f) && f.labels != []
    ensures f.labels[|f.labels| - 1].1 <= 4 * |f.body.instructions|
  {
  }

  lemma {:induction false} AllRenderedAreRead(functions: seq<Function>)
    requires WellFormedFunctions(functions)
    ensures ReadLines(RenderedAll(functions)) == Reading(None, functions)
  {
    hide Step, Rendered, LabelsPlaced;
    if functions != [] {
      var n := |functions| - 1;
      AllRenderedAreRead(functions[..n]);
      StepsConcat(Reading(None, []), RenderedAll(functions[..n]), Rendered(functions[n]));
      assert !Known(functions[..n], functions[n].body.name);
      RenderedIsRead(functions[n], functions[..n]);
      assert functions[..n] + [functions[n]] == functions;
    }
  }

  /** The reader yields these functions if and only if they are well formed and
      the lines that matter spell exactly them; every other file is refused. */
  lemma ReadIff(lines: seq<AsmLine>, functions: seq<Function>)
    ensures Finished(ReadLines(lines)) == Ok(functions)
       <==> WellFormedFunctions(functions) && Relevant(lines) == RenderedAll(functions)
  {
    hide ReadLines, RenderedAll, Relevant, WellFormedFunctions;
    if Finished(ReadLines(lines)).Ok? {
      AcceptedIsFaithful(lines);
    }
    if WellFormedFunctions(functions) && Relevant(lines) == RenderedAll(functions) {
      AllRenderedAreRead(functions);
      RelevantRead(lines);
    }
  }
}
