// The include flattener of tools/decompctx.py: process_file, import_c_file and
// import_h_file over a finite set of files.
module IncludeFlattener {
  import opened Basics

  type Path = string

  /** What the first line of a file does: name a guard macro, or once, or neither. */
  datatype First = Guard(macro: string) | Once | Neither

  /** A line is copied, or names a file to be looked up. */
  datatype Line = Text(text: string) | Include(name: string)

  datatype File = File(first: First, lines: seq<Line>)

  /** What is written: a copied line, a marker around an include, or a note. */
  datatype Out =
    | Copied(file: Path, index: nat)
    | Opened(file: Path, index: nat)
    | Skipped
    | Closed(file: Path, index: nat)

  /** The files, where an include is looked for, in order, and what is excluded. */
  datatype Tree = Tree(
    files: map<Path, File>,
    candidates: map<(Path, string), seq<Path>>,
    excluded: set<string>)
  {
    /** The key a file puts into `defines`, if its first line makes it do so. */
    function Key(p: Path): Option<string>
      requires p in files
    {
      if files[p].lines == [] then None
      else
        match files[p].first
        case Guard(m) => Some(m)
        case Once => Some(p)
        case Neither => None
    }

    predicate Guarded(p: Path)
      requires p in files
    {
      Key(p).Some?
    }

    /** A first line that guards the file is not itself an include. */
    ghost predicate WellRead() {
      forall p :: p in files && Guarded(p) ==> files[p].lines[0].Text?
    }

    /** The first candidate that exists. */
    function FirstFile(paths: seq<Path>): (r: Option<Path>)
      ensures r.Some? ==> exists i :: 0 <= i < |paths| && paths[i] == r.value && r.value in files
                                   && forall j :: 0 <= j < i ==> paths[j] !in files
      ensures r.None? ==> forall i :: 0 <= i < |paths| ==> paths[i] !in files
    {
      if paths == [] then None else if paths[0] in files then Some(paths[0]) else FirstFile(paths[1..])
    }

    /** import_h_file's search for an include in file p. */
    function Resolve(p: Path, name: string): (r: Option<Path>)
      ensures r.Some? ==> r.value in files && (p, name) in candidates && r == FirstFile(candidates[(p, name)])
      ensures r.None? && (p, name) in candidates ==>
                forall i :: 0 <= i < |candidates[(p, name)]| ==> candidates[(p, name)][i] !in files
    {
      if (p, name) in candidates then FirstFile(candidates[(p, name)]) else None
    }

    /** The file that line i of p pulls in, if any. */
    function Target(p: Path, i: nat): (r: Option<Path>)
      requires p in files && i < |files[p].lines|
      ensures r.Some? ==> r.value in files
      ensures files[p].lines[i].Include? && files[p].lines[i].name !in excluded ==>
                r == Resolve(p, files[p].lines[i].name)
    {
      match files[p].lines[i]
      case Text(_) => None
      case Include(name) => if name in excluded then None else Resolve(p, name)
    }

    /** p pulls in q. */
    ghost predicate Includes(p: Path, q: Path) {
      p in files && q in files && exists i :: 0 <= i < |files[p].lines| && Target(p, i) == Some(q)
    }

    /** A chain of includes through files that have no guard. */
    ghost predicate Chain(c: seq<Path>) {
      && |c| > 0
      && (forall i :: 0 <= i < |c| ==> c[i] in files && !Guarded(c[i]))
      && (forall i :: 0 <= i < |c| - 1 ==> Includes(c[i], c[i + 1]))
    }

    /** Every include cycle passes through a file with a guard. */
    ghost predicate CyclesGuarded() {
      forall c :: Chain(c) && |c| > 1 ==> c[0] != c[|c| - 1]
    }

    /** The unguarded files that can be reached from p through unguarded files. */
    ghost function Reach(p: Path): (r: set<Path>)
      ensures r <= files.Keys
    {
      set q | q in files && exists c :: Chain(c) && c[0] == p && c[|c| - 1] == q
    }

    ghost function Rank(p: Path): nat {
      |Reach(p)|
    }

    /** All keys there are. */
    ghost function Keys(): set<string> {
      set p | p in files && Guarded(p) :: Key(p).value
    }
  }

  lemma SubsetSmaller<T>(a: set<T>, b: set<T>)
    requires a < b
    ensures |a| < |b|
  {
    var x :| x in b && x !in a;
    assert a <= b - {x};
    SubsetNoLarger(a, b - {x});
  }

  lemma {:induction false} SubsetNoLarger<T>(a: set<T>, b: set<T>)
    requires a <= b
    ensures |a| <= |b|
    decreases a
  {
    if a != {} {
      var x :| x in a;
      SubsetNoLarger(a - {x}, b - {x});
    }
  }

  /** Along an include between unguarded files the rank drops. */
  lemma RankDrops(t: Tree, p: Path, q: Path)
    requires t.CyclesGuarded() && t.Includes(p, q) && !t.Guarded(p) && !t.Guarded(q)
    ensures t.Rank(q) < t.Rank(p)
  {
    assert t.Chain([p]);
    assert [p][0] == p;
    assert p in t.Reach(p);
    forall r | r in t.Reach(q)
      ensures r in t.Reach(p) && r != p
    {
      var c :| t.Chain(c) && c[0] == q && c[|c| - 1] == r;
      var d := [p] + c;
      assert t.Chain(d) && d[0] == p && d[|d| - 1] == r;
    }
    SubsetSmaller(t.Reach(q), t.Reach(p));
  }

  // ---- what is written, with a bound on the depth of includes ----

  /** Text written, `defines` afterwards, and files visited. */
  datatype Flattened = Flattened(out: seq<Out>, defines: set<string>, deps: seq<Path>)

  /** import_c_file; None if `fuel` nested includes are not enough. */
  function Import(t: Tree, fuel: nat, p: Path, defines: set<string>): Option<Flattened>
    requires p in t.files
    decreases fuel, |t.files[p].lines| + 1
  {
    if fuel == 0 then None
    else
      var key := t.Key(p);
      if key.Some? && key.value in defines then Some(Flattened([], defines, [p]))
      else
        var r := Body(t, fuel, p, 0, if key.Some? then defines + {key.value} else defines);
        if r.None? then None else Some(r.value.(deps := [p] + r.value.deps))
  }

  /** process_file from line i on, past the check of the first line. */
  function Body(t: Tree, fuel: nat, p: Path, i: nat, defines: set<string>): Option<Flattened>
    requires p in t.files && i <= |t.files[p].lines| && fuel > 0
    decreases fuel, |t.files[p].lines| - i
  {
    if i == |t.files[p].lines| then Some(Flattened([], defines, []))
    else
      var here := LineResult(t, fuel, p, i, defines);
      if here.None? then None
      else
        var rest := Body(t, fuel, p, i + 1, here.value.defines);
        if rest.None? then None
        else Some(Flattened(here.value.out + rest.value.out, rest.value.defines, here.value.deps + rest.value.deps))
  }

  function LineResult(t: Tree, fuel: nat, p: Path, i: nat, defines: set<string>): Option<Flattened>
    requires p in t.files && i < |t.files[p].lines| && fuel > 0
    decreases fuel, 0
  {
    match t.files[p].lines[i]
    case Text(_) => Some(Flattened([Copied(p, i)], defines, []))
    case Include(name) =>
      if name in t.excluded then Some(Flattened([Opened(p, i), Skipped, Closed(p, i)], defines, []))
      else
        var target := t.Resolve(p, name);
        if target.None? then Some(Flattened([Opened(p, i), Closed(p, i)], defines, []))
        else
          var r := Import(t, fuel - 1, target.value, defines);
          if r.None? then None
          else Some(Flattened([Opened(p, i)] + r.value.out + [Closed(p, i)], r.value.defines, r.value.deps))
  }

  // ---- more depth changes nothing ----

  lemma {:induction false} MoreFuelImport(t: Tree, fuel: nat, fuel': nat, p: Path, defines: set<string>)
    requires p in t.files && fuel <= fuel' && Import(t, fuel, p, defines).Some?
    ensures Import(t, fuel', p, defines) == Import(t, fuel, p, defines)
    decreases fuel, |t.files[p].lines| + 1
  {
    var key := t.Key(p);
    if !(key.Some? && key.value in defines) {
      MoreFuelBody(t, fuel, fuel', p, 0, if key.Some? then defines + {key.value} else defines);
    }
  }

  lemma {:induction false} MoreFuelBody(t: Tree, fuel: nat, fuel': nat, p: Path, i: nat, defines: set<string>)
    requires p in t.files && i <= |t.files[p].lines| && 0 < fuel <= fuel' && Body(t, fuel, p, i, defines).Some?
    ensures Body(t, fuel', p, i, defines) == Body(t, fuel, p, i, defines)
    decreases fuel, |t.files[p].lines| - i
  {
    if i < |t.files[p].lines| {
      var target := t.Target(p, i);
      if target.Some? {
        MoreFuelImport(t, fuel - 1, fuel' - 1, target.value, defines);
      }
      MoreFuelBody(t, fuel, fuel', p, i + 1, LineResult(t, fuel, p, i, defines).value.defines);
    }
  }

  /** Body, one line at a time. */
  lemma BodyStep(t: Tree, fuel: nat, p: Path, i: nat, defines: set<string>)
    requires p in t.files && i <= |t.files[p].lines| && fuel > 0 && Body(t, fuel, p, i, defines).Some?
    ensures i == |t.files[p].lines| ==> Body(t, fuel, p, i, defines) == Some(Flattened([], defines, []))
    ensures i < |t.files[p].lines| ==>
              var here := LineResult(t, fuel, p, i, defines);
              && here.Some? && Body(t, fuel, p, i + 1, here.value.defines).Some?
              && var rest := Body(t, fuel, p, i + 1, here.value.defines).value;
                 Body(t, fuel, p, i, defines)
                 == Some(Flattened(here.value.out + rest.out, rest.defines, here.value.deps + rest.deps))
  {
    hide LineResult;
  }

  // ---- the keys only grow, and each body is written once ----

  /** How often a file with this key has its body written. */
  function Bodies(t: Tree, out: seq<Out>, key: string): nat {
    if out == [] then 0
    else
      var o := out[|out| - 1];
      Bodies(t, out[..|out| - 1], key)
      + if o.Copied? && o.index == 0 && o.file in t.files && t.Key(o.file) == Some(key) then 1 else 0
  }

  lemma {:induction false} BodiesConcat(t: Tree, a: seq<Out>, b: seq<Out>, key: string)
    ensures Bodies(t, a + b, key) == Bodies(t, a, key) + Bodies(t, b, key)
  {
    if b == [] {
      assert a + b == a;
    } else {
      assert (a + b)[..|a + b| - 1] == a + b[..|b| - 1];
      BodiesConcat(t, a, b[..|b| - 1], key);
    }
  }

  /** From `before` on, one body with this key was written if the key has become
      known since, and otherwise none. */
  ghost predicate Once(t: Tree, before: set<string>, r: Flattened, key: string) {
    && before <= r.defines
    && Bodies(t, r.out, key) == if key in r.defines && key !in before then 1 else 0
  }

  lemma {:induction false} ImportOnce(t: Tree, fuel: nat, p: Path, defines: set<string>, key: string)
    requires t.WellRead() && p in t.files && Import(t, fuel, p, defines).Some?
    ensures Once(t, defines, Import(t, fuel, p, defines).value, key)
    decreases fuel, |t.files[p].lines| + 1
  {
    var k := t.Key(p);
    if k.Some? && k.value !in defines {
      GuardedBody(t, fuel, p, defines + {k.value}, key);
      BodyOnce(t, fuel, p, 1, defines + {k.value}, key);
    } else if k.None? {
      BodyOnce(t, fuel, p, 0, defines, key);
    }
  }

  /** The first line of a guarded file counts as its body. */
  lemma GuardedBody(t: Tree, fuel: nat, p: Path, defines: set<string>, key: string)
    requires t.WellRead() && p in t.files && t.Guarded(p) && fuel > 0
    requires Body(t, fuel, p, 0, defines).Some?
    ensures Body(t, fuel, p, 1, defines).Some?
    ensures Body(t, fuel, p, 0, defines).value.defines == Body(t, fuel, p, 1, defines).value.defines
    ensures Bodies(t, Body(t, fuel, p, 0, defines).value.out, key)
         == Bodies(t, Body(t, fuel, p, 1, defines).value.out, key) + if t.Key(p) == Some(key) then 1 else 0
  {
    var first := [Copied(p, 0)];
    assert LineResult(t, fuel, p, 0, defines) == Some(Flattened(first, defines, []));
    BodiesConcat(t, first, Body(t, fuel, p, 1, defines).value.out, key);
    assert first[..0] == [];
  }

  /** Past the first line of a guarded file, or anywhere in an unguarded one. */
  lemma {:induction false} BodyOnce(t: Tree, fuel: nat, p: Path, i: nat, defines: set<string>, key: string)
    requires t.WellRead() && p in t.files && i <= |t.files[p].lines| && fuel > 0
    requires i == 0 ==> t.Key(p).None?
    requires Body(t, fuel, p, i, defines).Some?
    ensures Once(t, defines, Body(t, fuel, p, i, defines).value, key)
    decreases fuel, |t.files[p].lines| - i
  {
    if i < |t.files[p].lines| {
      var here := LineResult(t, fuel, p, i, defines).value;
      LineOnce(t, fuel, p, i, defines, key);
      var rest := Body(t, fuel, p, i + 1, here.defines).value;
      BodyOnce(t, fuel, p, i + 1, here.defines, key);
      BodiesConcat(t, here.out, rest.out, key);
    }
  }

  lemma {:induction false} LineOnce(t: Tree, fuel: nat, p: Path, i: nat, defines: set<string>, key: string)
    requires t.WellRead() && p in t.files && i < |t.files[p].lines| && fuel > 0
    requires i == 0 ==> t.Key(p).None?
    requires LineResult(t, fuel, p, i, defines).Some?
    ensures Once(t, defines, LineResult(t, fuel, p, i, defines).value, key)
    decreases fuel, 0
  {
    var r := LineResult(t, fuel, p, i, defines).value;
    var target := t.Target(p, i);
    if target.Some? {
      ImportOnce(t, fuel - 1, target.value, defines, key);
      var inner := Import(t, fuel - 1, target.value, defines).value.out;
      NoBodyIn(t, [Opened(p, i)], key);
      NoBodyIn(t, [Closed(p, i)], key);
      BodiesConcat(t, [Opened(p, i)], inner, key);
      BodiesConcat(t, [Opened(p, i)] + inner, [Closed(p, i)], key);
    } else {
      NoBodyIn(t, r.out, key);
    }
  }

  lemma {:induction false} NoBodyIn(t: Tree, out: seq<Out>, key: string)
    requires forall j :: 0 <= j < |out| ==>
               !out[j].Copied? || out[j].index > 0 || (out[j].file in t.files && t.Key(out[j].file).None?)
    ensures Bodies(t, out, key) == 0
  {
    if out != [] {
      NoBodyIn(t, out[..|out| - 1], key);
    }
  }

  // ---- what is written is the files' own text, properly bracketed ----

  function Level(o: Out, depth: int): int {
    if o.Opened? then depth + 1 else if o.Closed? then depth - 1 else depth
  }

  /** Markers open after `out`, from `depth` on; once negative it stays so. */
  function Depth(out: seq<Out>, depth: int): int
    decreases |out|
  {
    if out == [] || depth < 0 then depth
    else Depth(out[1..], Level(out[0], depth))
  }

  /** The lines that stand outside all markers. */
  function Outside(out: seq<Out>, depth: int): seq<Out>
    decreases |out|
  {
    if out == [] || depth < 0 then []
    else
      (if depth == 0 && out[0].Copied? then [out[0]] else [])
      + Outside(out[1..], Level(out[0], depth))
  }

  lemma {:induction false} BracketsConcat(a: seq<Out>, b: seq<Out>, depth: int)
    ensures Depth(a + b, depth) == Depth(b, Depth(a, depth))
    ensures Outside(a + b, depth) == Outside(a, depth) + Outside(b, Depth(a, depth))
    decreases |a|
  {
    hide Depth, Outside;
    BracketsEnd(depth);
    if a == [] {
      assert a + b == b;
    } else if depth >= 0 {
      BracketsConcat(a[1..], b, Level(a[0], depth));
      BracketsFirst(a[0], a[1..] + b, depth);
      BracketsFirst(a[0], a[1..], depth);
      assert a + b == [a[0]] + (a[1..] + b) && a == [a[0]] + a[1..];
    } else {
      BracketsNegative(a, depth);
      BracketsNegative(b, depth);
      BracketsNegative(a + b, depth);
    }
  }

  lemma BracketsEnd(depth: int)
    ensures Depth([], depth) == depth && Outside([], depth) == []
  {
  }

  lemma BracketsNegative(out: seq<Out>, depth: int)
    requires depth < 0
    ensures Depth(out, depth) == depth && Outside(out, depth) == []
  {
  }

  lemma BracketsFirst(o: Out, rest: seq<Out>, depth: nat)
    ensures Depth([o] + rest, depth) == Depth(rest, Level(o, depth))
    ensures Outside([o] + rest, depth)
         == (if depth == 0 && o.Copied? then [o] else []) + Outside(rest, Level(o, depth))
  {
    assert ([o] + rest)[1..] == rest;
  }

  /** The text lines of a file from line i on. */
  function OwnText(t: Tree, p: Path, i: nat): seq<Out>
    requires p in t.files && i <= |t.files[p].lines|
    decreases |t.files[p].lines| - i
  {
    if i == |t.files[p].lines| then []
    else (if t.files[p].lines[i].Text? then [Copied(p, i)] else []) + OwnText(t, p, i + 1)
  }

  /** Inside a marker nothing stands outside. */
  ghost predicate Enclosed(out: seq<Out>) {
    forall depth :: depth >= 0 ==> Depth(out, depth) == depth && (depth > 0 ==> Outside(out, depth) == [])
  }

  lemma EnclosedConcat(a: seq<Out>, b: seq<Out>)
    requires Enclosed(a) && Enclosed(b)
    ensures Enclosed(a + b) && Outside(a + b, 0) == Outside(a, 0) + Outside(b, 0)
  {
    hide Depth, Outside;
    forall depth | depth >= 0
      ensures Depth(a + b, depth) == depth && (depth > 0 ==> Outside(a + b, depth) == [])
    {
      BracketsConcat(a, b, depth);
    }
    BracketsConcat(a, b, 0);
  }

  lemma EnclosedMarkers(inner: seq<Out>, p: Path, i: nat)
    requires Enclosed(inner)
    ensures Enclosed([Opened(p, i)] + inner + [Closed(p, i)])
    ensures Outside([Opened(p, i)] + inner + [Closed(p, i)], 0) == []
  {
    var open, close := [Opened(p, i)], [Closed(p, i)];
    forall depth | depth >= 0
      ensures Depth(open + inner + close, depth) == depth && Outside(open + inner + close, depth) == []
    {
      BracketsConcat(open + inner, close, depth);
      BracketsConcat(open, inner, depth);
      assert open[1..] == [] && close[1..] == [];
    }
  }

  lemma EnclosedPlain(o: Out)
    requires o.Copied? || o.Skipped?
    ensures Enclosed([o]) && Outside([o], 0) == if o.Copied? then [o] else []
  {
    assert [o][1..] == [];
    forall depth | depth >= 0
      ensures Depth([o], depth) == depth && (depth > 0 ==> Outside([o], depth) == [])
    {
      assert Level(o, depth) == depth;
    }
  }

  /** A file's body: its own text lines in order, with every include in its
      place as one bracketed piece. */
  lemma {:induction false} BodyBrackets(t: Tree, fuel: nat, p: Path, i: nat, defines: set<string>)
    requires p in t.files && i <= |t.files[p].lines| && fuel > 0 && Body(t, fuel, p, i, defines).Some?
    ensures Enclosed(Body(t, fuel, p, i, defines).value.out)
    ensures Outside(Body(t, fuel, p, i, defines).value.out, 0) == OwnText(t, p, i)
    decreases fuel, |t.files[p].lines| - i
  {
    BodyStep(t, fuel, p, i, defines);
    if i < |t.files[p].lines| {
      hide Body, Enclosed, Outside, LineResult;
      var here := LineResult(t, fuel, p, i, defines).value;
      LineBrackets(t, fuel, p, i, defines);
      BodyBrackets(t, fuel, p, i + 1, here.defines);
      EnclosedConcat(here.out, Body(t, fuel, p, i + 1, here.defines).value.out);
    }
  }

  lemma {:induction false} LineBrackets(t: Tree, fuel: nat, p: Path, i: nat, defines: set<string>)
    requires p in t.files && i < |t.files[p].lines| && fuel > 0 && LineResult(t, fuel, p, i, defines).Some?
    ensures Enclosed(LineResult(t, fuel, p, i, defines).value.out)
    ensures Outside(LineResult(t, fuel, p, i, defines).value.out, 0)
         == if t.files[p].lines[i].Text? then [Copied(p, i)] else []
    decreases fuel, 0
  {
    var out := LineResult(t, fuel, p, i, defines).value.out;
    hide Enclosed, Outside, Body;
    match t.files[p].lines[i]
    case Text(_) =>
      EnclosedPlain(Copied(p, i));
    case Include(name) =>
      var target := t.Resolve(p, name);
      if name in t.excluded {
        EnclosedPlain(Skipped);
        EnclosedMarkers([Skipped], p, i);
        assert out == [Opened(p, i)] + [Skipped] + [Closed(p, i)];
      } else if target.None? {
        EnclosedNone();
        EnclosedMarkers([], p, i);
        assert out == [Opened(p, i)] + [] + [Closed(p, i)];
      } else {
        ImportBrackets(t, fuel - 1, target.value, defines);
        EnclosedMarkers(Import(t, fuel - 1, target.value, defines).value.out, p, i);
      }
  }

  lemma EnclosedNone()
    ensures Enclosed([])
  {
  }

  /** Importing a file writes its own text, or nothing if its key was in use. */
  lemma {:induction false} ImportBrackets(t: Tree, fuel: nat, p: Path, defines: set<string>)
    requires p in t.files && Import(t, fuel, p, defines).Some?
    ensures Enclosed(Import(t, fuel, p, defines).value.out)
    ensures Outside(Import(t, fuel, p, defines).value.out, 0)
         == if t.Guarded(p) && t.Key(p).value in defines then [] else OwnText(t, p, 0)
    decreases fuel, |t.files[p].lines| + 1
  {
    var key := t.Key(p);
    if key.Some? && key.value in defines {
      EnclosedNone();
    } else {
      BodyBrackets(t, fuel, p, 0, if key.Some? then defines + {key.value} else defines);
    }
  }

  // ---- termination ----

  /** Keys not used yet. */
  ghost function Unused(t: Tree, defines: set<string>): nat {
    |t.Keys() - defines|
  }

  /** Nested includes that suffice for p: unused keys first, then the rank among
      unguarded files. */
  ghost function Need(t: Tree, p: Path, unused: nat): (n: nat)
    requires p in t.files
    ensures n > 0
  {
    MultiplesGrow(|t.files| + 2, 0, unused);
    (|t.files| + 2) * unused + (if t.Guarded(p) then 0 else t.Rank(p)) + 1
  }

  lemma RankBounds(t: Tree, p: Path)
    requires p in t.files && !t.Guarded(p)
    ensures 0 < t.Rank(p) <= |t.files|
  {
    assert t.Chain([p]) && [p][0] == p;
    assert p in t.Reach(p);
    SubsetNoLarger(t.Reach(p), t.files.Keys);
  }

  lemma FewerUnused(t: Tree, d: set<string>, d': set<string>)
    requires d <= d'
    ensures Unused(t, d') <= Unused(t, d)
  {
    SubsetNoLarger(t.Keys() - d', t.Keys() - d);
  }

  lemma KeyUsed(t: Tree, p: Path, d: set<string>)
    requires p in t.files && t.Guarded(p) && t.Key(p).value !in d
    ensures Unused(t, d + {t.Key(p).value}) < Unused(t, d)
  {
    var k := t.Key(p).value;
    assert k in t.Keys();
    SubsetSmaller(t.Keys() - (d + {k}), t.Keys() - d);
  }

  lemma NeedGrows(t: Tree, p: Path, u: nat, v: nat)
    requires p in t.files && u <= v
    ensures Need(t, p, u) <= Need(t, p, v)
    ensures u < v ==> Need(t, p, u) + 1 <= (|t.files| + 2) * v
  {
    var f := |t.files| + 2;
    if !t.Guarded(p) {
      RankBounds(t, p);
    }
    MultiplesGrow(f, u, v);
    if u < v {
      MultiplesGrow(f, u + 1, v);
      assert f * (u + 1) == f * u + f;
    }
  }

  /** Going from p into a file q it includes, when p's key is in use by now. */
  lemma NeedDrops(t: Tree, p: Path, q: Path, before: nat, now: nat)
    requires t.CyclesGuarded() && t.Includes(p, q)
    requires if t.Guarded(p) then now < before else now <= before
    ensures Need(t, q, now) < Need(t, p, before)
  {
    NeedGrows(t, q, now, before);
    if !t.Guarded(p) {
      RankBounds(t, p);
      if !t.Guarded(q) {
        RankDrops(t, p, q);
      }
    }
  }

  lemma TargetIncluded(t: Tree, p: Path, i: nat)
    requires p in t.files && i < |t.files[p].lines| && t.Target(p, i).Some?
    ensures t.Includes(p, t.Target(p, i).value)
  {
  }

  /** With all cycles guarded, flattening any file terminates. */
  lemma {:induction false} ImportTerminates(t: Tree, fuel: nat, p: Path, defines: set<string>)
    requires t.CyclesGuarded() && p in t.files && fuel >= Need(t, p, Unused(t, defines))
    ensures Import(t, fuel, p, defines).Some?
    decreases fuel, |t.files[p].lines| + 1
  {
    hide Need, Unused, Tree.CyclesGuarded;
    var key := t.Key(p);
    if key.None? {
      BodyTerminates(t, fuel, p, 0, defines, Unused(t, defines));
    } else if key.value !in defines {
      KeyUsed(t, p, defines);
      BodyTerminates(t, fuel, p, 0, defines + {key.value}, Unused(t, defines));
    }
  }

  /** Inside a file a guard of its own is used up. */
  ghost predicate Fewer(t: Tree, p: Path, defines: set<string>, before: nat)
    requires p in t.files
  {
    if t.Guarded(p) then Unused(t, defines) < before else Unused(t, defines) <= before
  }

  /** Fuel for the rest of a file. */
  ghost predicate Enough(t: Tree, fuel: nat, p: Path, defines: set<string>, before: nat)
    requires p in t.files
  {
    t.CyclesGuarded() && Fewer(t, p, defines, before) && fuel >= Need(t, p, before)
  }

  lemma {:induction false} BodyTerminates(t: Tree, fuel: nat, p: Path, i: nat, defines: set<string>, before: nat)
    requires p in t.files && i <= |t.files[p].lines| && Enough(t, fuel, p, defines, before)
    ensures Body(t, fuel, p, i, defines).Some?
    decreases fuel, |t.files[p].lines| - i
  {
    hide Need, Unused, Tree.CyclesGuarded, Tree.Includes, Body, Import, LineResult;
    if i < |t.files[p].lines| {
      var target := t.Target(p, i);
      if target.Some? {
        TargetIncluded(t, p, i);
        NeedDrops(t, p, target.value, before, Unused(t, defines));
        ImportTerminates(t, fuel - 1, target.value, defines);
        DefinesGrowImport(t, fuel - 1, target.value, defines);
      }
      LineTerminates(t, fuel, p, i, defines);
      var here := LineResult(t, fuel, p, i, defines).value;
      FewerUnused(t, defines, here.defines);
      BodyTerminates(t, fuel, p, i + 1, here.defines, before);
    }
    BodyFromLine(t, fuel, p, i, defines);
  }

  lemma LineTerminates(t: Tree, fuel: nat, p: Path, i: nat, defines: set<string>)
    requires p in t.files && i < |t.files[p].lines| && fuel > 0
    requires var target := t.Target(p, i);
             target.Some? ==>
               && Import(t, fuel - 1, target.value, defines).Some?
               && defines <= Import(t, fuel - 1, target.value, defines).value.defines
    ensures LineResult(t, fuel, p, i, defines).Some?
    ensures defines <= LineResult(t, fuel, p, i, defines).value.defines
  {
    hide Import;
  }

  lemma BodyFromLine(t: Tree, fuel: nat, p: Path, i: nat, defines: set<string>)
    requires p in t.files && i <= |t.files[p].lines| && fuel > 0
    requires i < |t.files[p].lines| ==>
               && LineResult(t, fuel, p, i, defines).Some?
               && Body(t, fuel, p, i + 1, LineResult(t, fuel, p, i, defines).value.defines).Some?
    ensures Body(t, fuel, p, i, defines).Some?
  {
    hide LineResult;
  }

  lemma {:induction false} DefinesGrowImport(t: Tree, fuel: nat, p: Path, defines: set<string>)
    requires p in t.files && Import(t, fuel, p, defines).Some?
    ensures defines <= Import(t, fuel, p, defines).value.defines
    decreases fuel, |t.files[p].lines| + 1
  {
    var key := t.Key(p);
    if !(key.Some? && key.value in defines) {
      DefinesGrowBody(t, fuel, p, 0, if key.Some? then defines + {key.value} else defines);
    }
  }

  lemma {:induction false} DefinesGrowBody(t: Tree, fuel: nat, p: Path, i: nat, defines: set<string>)
    requires p in t.files && i <= |t.files[p].lines| && fuel > 0 && Body(t, fuel, p, i, defines).Some?
    ensures defines <= Body(t, fuel, p, i, defines).value.defines
    decreases fuel, |t.files[p].lines| - i
  {
    if i < |t.files[p].lines| {
      var target := t.Target(p, i);
      if target.Some? {
        DefinesGrowImport(t, fuel - 1, target.value, defines);
      }
      DefinesGrowBody(t, fuel, p, i + 1, LineResult(t, fuel, p, i, defines).value.defines);
    }
  }

  // ---- divergence ----

  /** No depth is enough for q, whatever is defined. */
  ghost predicate Stuck(t: Tree, fuel: nat, q: Path)
    requires q in t.files
  {
    forall d :: Import(t, fuel, q, d).None?
  }

  lemma {:induction false} BodyStuck(t: Tree, fuel: nat, p: Path, i: nat, defines: set<string>, j: nat)
    requires p in t.files && i <= j < |t.files[p].lines| && fuel > 0
    requires t.Target(p, j).Some? && Stuck(t, fuel - 1, t.Target(p, j).value)
    ensures Body(t, fuel, p, i, defines).None?
    decreases j - i
  {
    if i < j && LineResult(t, fuel, p, i, defines).Some? {
      BodyStuck(t, fuel, p, i + 1, LineResult(t, fuel, p, i, defines).value.defines, j);
    } else if i == j {
      assert Import(t, fuel - 1, t.Target(p, j).value, defines).None?;
      assert LineResult(t, fuel, p, i, defines).None?;
    }
  }

  /** A file on a cycle of unguarded files is flattened for ever. */
  lemma {:induction false} CycleStuck(t: Tree, fuel: nat, c: seq<Path>, i: nat)
    requires t.Chain(c) && |c| > 1 && c[0] == c[|c| - 1] && i < |c|
    ensures Stuck(t, fuel, c[i])
  {
    var k := if i == |c| - 1 then 0 else i;
    assert c[k] == c[i] && t.Includes(c[k], c[k + 1]);
    if fuel > 0 {
      CycleStuck(t, fuel - 1, c, k + 1);
      var j :| 0 <= j < |t.files[c[k]].lines| && t.Target(c[k], j) == Some(c[k + 1]);
      forall d
        ensures Import(t, fuel, c[k], d).None?
      {
        BodyStuck(t, fuel, c[k], 0, d, j);
      }
    }
  }

  ghost predicate Terminates(t: Tree, p: Path, defines: set<string>)
    requires p in t.files
  {
    exists fuel: nat :: Import(t, fuel, p, defines).Some?
  }

  /** Flattening terminates for every file exactly when every include cycle
      passes through a guarded file. */
  lemma TerminatesIff(t: Tree)
    ensures t.CyclesGuarded() <==> forall p, d :: p in t.files ==> Terminates(t, p, d)
  {
    if t.CyclesGuarded() {
      forall p, d | p in t.files
        ensures Terminates(t, p, d)
      {
        ImportTerminates(t, Need(t, p, Unused(t, d)), p, d);
      }
    } else {
      var c :| t.Chain(c) && |c| > 1 && c[0] == c[|c| - 1];
      var p, d: set<string> := c[0], {};
      if Terminates(t, p, d) {
        var fuel: nat :| Import(t, fuel, p, d).Some?;
        CycleStuck(t, fuel, c, 0);
      }
      assert p in t.files && !Terminates(t, p, d);
    }
  }

  // ---- the recursion of the tool ----

  class Flattener {
    var defines: set<string>
    var deps: seq<Path>

    constructor ()
      ensures defines == {} && deps == []
    {
      defines, deps := {}, [];
    }

    /** import_c_file with the global state, without any bound on the depth. */
    method ImportFile(t: Tree, p: Path) returns (out: seq<Out>, ghost fuel: nat)
      requires t.CyclesGuarded() && p in t.files
      modifies this
      ensures old(deps) <= deps
      ensures Import(t, fuel, p, old(defines)) == Some(Flattened(out, defines, deps[|old(deps)|..]))
      decreases Unused(t, defines), if t.Guarded(p) then 0 else t.Rank(p), 2
    {
      hide Need, Unused, Tree.CyclesGuarded, Body, Tree.Rank;
      deps := deps + [p];
      out := [];
      fuel := 1;
      var key := t.Key(p);
      if key.Some? {
        if key.value in defines {
          return;
        }
        KeyUsed(t, p, defines);
        defines := defines + {key.value};
      }
      out, fuel := ProcessLines(t, p, Unused(t, old(defines)));
      assert deps[|old(deps)|..] == [p] + deps[|old(deps)| + 1..];
    }

    /** process_file once its first line has been checked. */
    method ProcessLines(t: Tree, p: Path, ghost before: nat) returns (out: seq<Out>, ghost fuel: nat)
      requires t.CyclesGuarded() && p in t.files
      requires Fewer(t, p, defines, before)
      modifies this
      ensures old(deps) <= deps
      ensures fuel > 0 && Body(t, fuel, p, 0, old(defines)) == Some(Flattened(out, defines, deps[|old(deps)|..]))
      decreases before, if t.Guarded(p) then 0 else t.Rank(p), 1
    {
      hide Need, Unused, Tree.CyclesGuarded, LineResult, Tree.Rank, Body;
      out := [];
      fuel := Need(t, p, before);
      BodyTerminates(t, fuel, p, 0, defines, before);
      ghost var whole := Body(t, fuel, p, 0, defines).value;
      var i := 0;
      while i < |t.files[p].lines|
        invariant i <= |t.files[p].lines| && old(deps) <= deps
        invariant Fewer(t, p, defines, before)
        invariant Body(t, fuel, p, i, defines).Some?
        invariant var r := Body(t, fuel, p, i, defines).value;
                  whole == Flattened(out + r.out, r.defines, deps[|old(deps)|..] + r.deps)
      {
        ghost var was := deps;
        BodyStep(t, fuel, p, i, defines);
        var piece := ProcessLine(t, p, i, fuel, before);
        out := out + piece;
        assert deps[|old(deps)|..] == was[|old(deps)|..] + deps[|was|..];
        i := i + 1;
      }
      BodyStep(t, fuel, p, i, defines);
      assert out + [] == out && deps[|old(deps)|..] + [] == deps[|old(deps)|..];
    }

    /** One line: copied, or replaced by what it includes. */
    method ProcessLine(t: Tree, p: Path, i: nat, ghost fuel: nat, ghost before: nat) returns (out: seq<Out>)
      requires t.CyclesGuarded() && p in t.files && i < |t.files[p].lines|
      requires Fewer(t, p, defines, before)
      requires fuel > 0 && LineResult(t, fuel, p, i, defines).Some?
      modifies this
      ensures old(deps) <= deps
      ensures LineResult(t, fuel, p, i, old(defines)) == Some(Flattened(out, defines, deps[|old(deps)|..]))
      ensures old(defines) <= defines && Unused(t, defines) <= old(Unused(t, defines))
      decreases before, if t.Guarded(p) then 0 else t.Rank(p), 0
    {
      hide Need, Unused, Tree.CyclesGuarded, Body, Import, Tree.Rank, Tree.Includes;
      assert deps[|deps|..] == [];
      match t.files[p].lines[i] {
        case Text(_) =>
          out := [Copied(p, i)];
        case Include(name) =>
          out := [Opened(p, i)];
          var target := t.Resolve(p, name);
          if name in t.excluded {
            out := out + [Skipped];
            out := out + [Closed(p, i)];
            assert out == [Opened(p, i), Skipped, Closed(p, i)];
          } else if target.None? {
            out := out + [Closed(p, i)];
            assert out == [Opened(p, i), Closed(p, i)];
          } else {
            var q := target.value;
            TargetIncluded(t, p, i);
            if !t.Guarded(p) {
              NextIsSmaller(t, p, q);
            }
            var inner, f := ImportFile(t, q);
            SameAnyFuel(t, f, fuel - 1, q, old(defines));
            DefinesGrowImport(t, f, q, old(defines));
            FewerUnused(t, old(defines), defines);
            out := out + inner;
            out := out + [Closed(p, i)];
          }
      }
    }
  }

  lemma NextIsSmaller(t: Tree, p: Path, q: Path)
    requires t.CyclesGuarded() && t.Includes(p, q) && !t.Guarded(p)
    ensures (if t.Guarded(q) then 0 else t.Rank(q)) < t.Rank(p)
  {
    RankBounds(t, p);
    if !t.Guarded(q) {
      RankDrops(t, p, q);
    }
  }

  lemma SameAnyFuel(t: Tree, f: nat, g: nat, p: Path, defines: set<string>)
    requires p in t.files && Import(t, f, p, defines).Some? && Import(t, g, p, defines).Some?
    ensures Import(t, f, p, defines) == Import(t, g, p, defines)
  {
    if f <= g {
      MoreFuelImport(t, f, g, p, defines);
    } else {
      MoreFuelImport(t, g, f, p, defines);
    }
  }
}
