// What stands between the markers that tools/decompctx.py puts around an
// include: exactly the text of the file it resolves to, unless that file's key
// was in use by then.
module IncludeContents {
  import opened Basics
  import opened IncludeFlattener

  /** The file a marker's include pulls in. */
  function Pulled(t: Tree, o: Out): Option<Path> {
    if o.Opened? && o.file in t.files && o.index < |t.files[o.file].lines| then t.Target(o.file, o.index) else None
  }

  /** The key that is in use once a marker has been opened. */
  function KeyOf(t: Tree, o: Out): set<string> {
    var q := Pulled(t, o);
    if q.None? || q.value !in t.files || t.files[q.value].lines == [] then {}
    else
      match t.files[q.value].first
      case Guard(macro) => {macro}
      case Once => {q.value}
      case Neither => {}
  }

  function OpenedKeys(t: Tree, out: seq<Out>): set<string> {
    if out == [] then {} else OpenedKeys(t, out[..|out| - 1]) + KeyOf(t, out[|out| - 1])
  }

  /** The files pulled in, in order. */
  function AllPulled(t: Tree, out: seq<Out>): seq<Path> {
    if out == [] then []
    else
      var q := Pulled(t, out[|out| - 1]);
      AllPulled(t, out[..|out| - 1]) + if q.Some? then [q.value] else []
  }

  lemma {:induction false} OpenedConcat(t: Tree, a: seq<Out>, b: seq<Out>)
    ensures OpenedKeys(t, a + b) == OpenedKeys(t, a) + OpenedKeys(t, b)
    ensures AllPulled(t, a + b) == AllPulled(t, a) + AllPulled(t, b)
  {
    hide Pulled, KeyOf;
    if b == [] {
      assert a + b == a;
    } else {
      assert (a + b)[..|a + b| - 1] == a + b[..|b| - 1];
      OpenedConcat(t, a, b[..|b| - 1]);
    }
  }

  lemma OpenedOne(t: Tree, o: Out)
    ensures OpenedKeys(t, [o]) == KeyOf(t, o)
    ensures AllPulled(t, [o]) == if Pulled(t, o).Some? then [Pulled(t, o).value] else []
  {
    hide Pulled, KeyOf;
    assert [o][..0] == [];
  }

  /** The first line of the file tells that it was read before: its guard macro is
      defined, or it is to be read once and was. */
  predicate Spent(t: Tree, used: set<string>, q: Path)
    requires q in t.files
  {
    && t.files[q].lines != []
    && match t.files[q].first
       case Guard(macro) => macro in used
       case Once => q in used
       case Neither => false
  }

  /** What the markers of include i of p should hold when the keys in use are known. */
  function Expected(t: Tree, used: set<string>, p: Path, i: nat): seq<Out>
    requires p in t.files && i < |t.files[p].lines|
  {
    var q := t.Target(p, i);
    if q.None? || Spent(t, used, q.value) then [] else OwnText(t, q.value, 0)
  }

  /** The marker at j opens an include, is closed at m, and in between stands, apart
      from inner markers and what they hold, what should; nothing at all, or the
      note, if no file is pulled in. */
  ghost predicate HoldsUpTo(t: Tree, used: set<string>, out: seq<Out>, j: nat, m: nat) {
    && j < m < |out| && out[j].Opened? && out[m] == Closed(out[j].file, out[j].index)
    && var p, i := out[j].file, out[j].index;
       && p in t.files && i < |t.files[p].lines| && t.files[p].lines[i].Include?
       && Enclosed(out[j + 1..m]) && Outside(out[j + 1..m], 0) == Expected(t, used, p, i)
       && (t.files[p].lines[i].name in t.excluded ==> out[j + 1..m] == [Skipped])
       && (t.files[p].lines[i].name !in t.excluded && t.Target(p, i).None? ==> out[j + 1..m] == [])
  }

  ghost predicate Holds(t: Tree, used: set<string>, out: seq<Out>, j: nat) {
    exists m: nat :: HoldsUpTo(t, used, out, j, m)
  }

  /** So it is for every marker, the keys in use being those from before and those
      of the includes opened up to it. */
  ghost predicate Filled(t: Tree, before: set<string>, out: seq<Out>) {
    forall j :: 0 <= j < |out| && out[j].Opened? ==> Holds(t, before + OpenedKeys(t, out[..j]), out, j)
  }

  lemma HoldsUpToShifted(t: Tree, used: set<string>, a: seq<Out>, b: seq<Out>, c: seq<Out>, j: nat, m: nat)
    requires HoldsUpTo(t, used, b, j, m)
    ensures HoldsUpTo(t, used, a + b + c, |a| + j, |a| + m)
  {
    hide Enclosed, Outside, Expected;
    var all := a + b + c;
    assert all[|a| + j + 1..|a| + m] == b[j + 1..m];
  }

  lemma HoldsShifted(t: Tree, used: set<string>, a: seq<Out>, b: seq<Out>, c: seq<Out>, j: nat)
    requires Holds(t, used, b, j)
    ensures Holds(t, used, a + b + c, |a| + j)
  {
    hide HoldsUpTo;
    var m: nat :| HoldsUpTo(t, used, b, j, m);
    HoldsUpToShifted(t, used, a, b, c, j, m);
  }

  lemma FilledBefore(t: Tree, before: set<string>, a: seq<Out>, b: seq<Out>, j: nat)
    requires Filled(t, before, a) && j < |a| && a[j].Opened?
    ensures Holds(t, before + OpenedKeys(t, (a + b)[..j]), a + b, j)
  {
    hide Holds, OpenedKeys;
    assert (a + b)[..j] == a[..j] && [] + a + b == a + b;
    HoldsShifted(t, before + OpenedKeys(t, a[..j]), [], a, b, j);
  }

  lemma FilledBehind(t: Tree, before: set<string>, a: seq<Out>, b: seq<Out>, c: seq<Out>, k: nat)
    requires Filled(t, before + OpenedKeys(t, a), b) && k < |b| && b[k].Opened?
    ensures Holds(t, before + OpenedKeys(t, (a + b + c)[..|a| + k]), a + b + c, |a| + k)
  {
    hide Holds, OpenedKeys;
    assert (a + b + c)[..|a| + k] == a + b[..k];
    OpenedConcat(t, a, b[..k]);
    assert before + OpenedKeys(t, a) + OpenedKeys(t, b[..k]) == before + OpenedKeys(t, (a + b + c)[..|a| + k]);
    HoldsShifted(t, before + OpenedKeys(t, a) + OpenedKeys(t, b[..k]), a, b, c, k);
  }

  lemma FilledAt(t: Tree, before: set<string>, a: seq<Out>, b: seq<Out>, j: nat)
    requires Filled(t, before, a) && Filled(t, before + OpenedKeys(t, a), b)
    requires j < |a + b| && (a + b)[j].Opened?
    ensures Holds(t, before + OpenedKeys(t, (a + b)[..j]), a + b, j)
  {
    hide Holds, OpenedKeys, Filled;
    if j < |a| {
      FilledBefore(t, before, a, b, j);
    } else {
      FilledBehind(t, before, a, b, [], j - |a|);
      assert a + b + [] == a + b;
    }
  }

  lemma FilledConcat(t: Tree, before: set<string>, a: seq<Out>, b: seq<Out>)
    requires Filled(t, before, a) && Filled(t, before + OpenedKeys(t, a), b)
    ensures Filled(t, before, a + b)
  {
    hide Holds, OpenedKeys;
    forall j | 0 <= j < |a + b| && (a + b)[j].Opened?
      ensures Holds(t, before + OpenedKeys(t, (a + b)[..j]), a + b, j)
    {
      FilledAt(t, before, a, b, j);
    }
  }

  /** A piece between its markers. */
  lemma FilledMarkers(t: Tree, before: set<string>, p: Path, i: nat, inner: seq<Out>)
    requires p in t.files && i < |t.files[p].lines| && t.files[p].lines[i].Include?
    requires Enclosed(inner) && Outside(inner, 0) == Expected(t, before, p, i)
    requires t.files[p].lines[i].name in t.excluded ==> inner == [Skipped]
    requires t.files[p].lines[i].name !in t.excluded && t.Target(p, i).None? ==> inner == []
    requires Filled(t, before + KeyOf(t, Opened(p, i)), inner)
    ensures Filled(t, before, [Opened(p, i)] + inner + [Closed(p, i)])
  {
    var open, close := Opened(p, i), Closed(p, i);
    var all := [open] + inner + [close];
    OpenedOne(t, open);
    forall j | 0 <= j < |all| && all[j].Opened?
      ensures Holds(t, before + OpenedKeys(t, all[..j]), all, j)
    {
      hide OpenedKeys, Enclosed, Outside, Expected, KeyOf, Filled;
      if j == 0 {
        assert all[1..|inner| + 1] == inner && all[..0] == [];
        NoneOpened(t);
        assert before + {} == before;
        assert HoldsUpTo(t, before, all, 0, |inner| + 1);
      } else {
        hide HoldsUpTo, Holds;
        FilledBehind(t, before, [open], inner, [close], j - 1);
      }
    }
  }

  lemma NoneOpened(t: Tree)
    ensures OpenedKeys(t, []) == {} && AllPulled(t, []) == []
  {
  }

  /** What an output says about keys and files: `keys` were in use before, and
      `first` are the files visited before its markers. */
  ghost predicate Told(t: Tree, keys: set<string>, first: seq<Path>, r: Flattened) {
    && r.defines == keys + OpenedKeys(t, r.out)
    && r.deps == first + AllPulled(t, r.out)
    && Filled(t, keys, r.out)
  }

  /** The keys in use once the body of p is being read. */
  function Within(t: Tree, p: Path, defines: set<string>): set<string>
    requires p in t.files
  {
    if t.files[p].lines == [] then defines
    else
      match t.files[p].first
      case Guard(macro) => defines + {macro}
      case Once => defines + {p}
      case Neither => defines
  }

  /** Importing a file: every include in the output, however deep, holds the text
      of its file or, if that file's key was in use by then, nothing; the files
      visited are the file and those that the markers pull in, in order. */
  lemma {:induction false} ImportTold(t: Tree, fuel: nat, p: Path, defines: set<string>)
    requires p in t.files && Import(t, fuel, p, defines).Some?
    ensures Told(t, Within(t, p, defines), [p], Import(t, fuel, p, defines).value)
    decreases fuel, |t.files[p].lines| + 1
  {
    var key := t.Key(p);
    if key.Some? && key.value in defines {
      NoneOpened(t);
    } else {
      BodyTold(t, fuel, p, 0, Within(t, p, defines));
      var r := Body(t, fuel, p, 0, Within(t, p, defines)).value;
      assert [p] + ([] + AllPulled(t, r.out)) == [p] + AllPulled(t, r.out);
    }
  }

  lemma {:induction false} BodyTold(t: Tree, fuel: nat, p: Path, i: nat, defines: set<string>)
    requires p in t.files && i <= |t.files[p].lines| && fuel > 0 && Body(t, fuel, p, i, defines).Some?
    ensures Told(t, defines, [], Body(t, fuel, p, i, defines).value)
    decreases fuel, |t.files[p].lines| - i
  {
    BodyStep(t, fuel, p, i, defines);
    hide Body, LineResult, Told, Import;
    if i < |t.files[p].lines| {
      var here := LineResult(t, fuel, p, i, defines).value;
      LineTold(t, fuel, p, i, defines);
      var rest := Body(t, fuel, p, i + 1, here.defines).value;
      BodyTold(t, fuel, p, i + 1, here.defines);
      ToldConcat(t, defines, here, rest);
    } else {
      NothingTold(t, defines);
    }
  }

  lemma ToldConcat(t: Tree, keys: set<string>, a: Flattened, b: Flattened)
    requires Told(t, keys, [], a) && Told(t, a.defines, [], b)
    ensures Told(t, keys, [], Flattened(a.out + b.out, b.defines, a.deps + b.deps))
  {
    hide Filled, OpenedKeys, AllPulled;
    OpenedConcat(t, a.out, b.out);
    FilledConcat(t, keys, a.out, b.out);
    assert keys + OpenedKeys(t, a.out) + OpenedKeys(t, b.out) == keys + (OpenedKeys(t, a.out) + OpenedKeys(t, b.out));
    assert [] + AllPulled(t, a.out) + ([] + AllPulled(t, b.out)) == [] + (AllPulled(t, a.out) + AllPulled(t, b.out));
  }

  lemma NothingTold(t: Tree, defines: set<string>)
    ensures Told(t, defines, [], Flattened([], defines, []))
  {
  }

  lemma {:induction false} LineTold(t: Tree, fuel: nat, p: Path, i: nat, defines: set<string>)
    requires p in t.files && i < |t.files[p].lines| && fuel > 0 && LineResult(t, fuel, p, i, defines).Some?
    ensures Told(t, defines, [], LineResult(t, fuel, p, i, defines).value)
    decreases fuel, 0
  {
    if t.files[p].lines[i].Text? {
      TextTold(t, p, i, defines);
    } else if t.Target(p, i).None? {
      NothingPulled(t, fuel, p, i, defines);
    } else {
      var q := t.Target(p, i).value;
      ImportTold(t, fuel - 1, q, defines);
      IncludeTold(t, fuel, p, i, defines);
    }
  }

  lemma TextTold(t: Tree, p: Path, i: nat, defines: set<string>)
    ensures Told(t, defines, [], Flattened([Copied(p, i)], defines, []))
  {
    OpenedOne(t, Copied(p, i));
  }

  lemma NothingPulled(t: Tree, fuel: nat, p: Path, i: nat, defines: set<string>)
    requires p in t.files && i < |t.files[p].lines| && fuel > 0
    requires t.files[p].lines[i].Include? && t.Target(p, i).None?
    ensures LineResult(t, fuel, p, i, defines).Some?
    ensures Told(t, defines, [], LineResult(t, fuel, p, i, defines).value)
  {
    hide Told, Import;
    var inner := if t.files[p].lines[i].name in t.excluded then [Skipped] else [];
    InnerTold(t, p, i, defines, inner);
    hide Enclosed, Outside, Expected;
    MarkersTold(t, p, i, defines, Flattened(inner, defines, []));
    assert [Opened(p, i), Skipped, Closed(p, i)] == [Opened(p, i)] + [Skipped] + [Closed(p, i)];
    assert [Opened(p, i), Closed(p, i)] == [Opened(p, i)] + [] + [Closed(p, i)];
  }

  lemma InnerTold(t: Tree, p: Path, i: nat, defines: set<string>, inner: seq<Out>)
    requires p in t.files && i < |t.files[p].lines| && t.Target(p, i).None?
    requires inner == [Skipped] || inner == []
    ensures Enclosed(inner) && Outside(inner, 0) == Expected(t, defines, p, i)
    ensures Told(t, defines + KeyOf(t, Opened(p, i)), AllPulled(t, [Opened(p, i)]), Flattened(inner, defines, []))
  {
    EnclosedPlain(Skipped);
    EnclosedNone();
    OpenedOne(t, Skipped);
    OpenedOne(t, Opened(p, i));
    NoneOpened(t);
  }

  lemma IncludeTold(t: Tree, fuel: nat, p: Path, i: nat, defines: set<string>)
    requires p in t.files && i < |t.files[p].lines| && fuel > 0
    requires t.Target(p, i).Some? && LineResult(t, fuel, p, i, defines).Some?
    requires var q := t.Target(p, i).value;
             && Import(t, fuel - 1, q, defines).Some?
             && Told(t, Within(t, q, defines), [q], Import(t, fuel - 1, q, defines).value)
    ensures Told(t, defines, [], LineResult(t, fuel, p, i, defines).value)
  {
    var q := t.Target(p, i).value;
    ImportBrackets(t, fuel - 1, q, defines);
    OpenedOne(t, Opened(p, i));
    assert Within(t, q, defines) == defines + KeyOf(t, Opened(p, i));
    hide Told, Import, Enclosed, Outside;
    MarkersTold(t, p, i, defines, Import(t, fuel - 1, q, defines).value);
  }

  /** An include's own markers around what was imported for it. */
  lemma MarkersTold(t: Tree, p: Path, i: nat, defines: set<string>, r: Flattened)
    requires p in t.files && i < |t.files[p].lines| && t.files[p].lines[i].Include?
    requires Enclosed(r.out) && Outside(r.out, 0) == Expected(t, defines, p, i)
    requires t.files[p].lines[i].name in t.excluded ==> r.out == [Skipped]
    requires t.files[p].lines[i].name !in t.excluded && t.Target(p, i).None? ==> r.out == []
    requires Told(t, defines + KeyOf(t, Opened(p, i)), AllPulled(t, [Opened(p, i)]), r)
    ensures Told(t, defines, [], r.(out := [Opened(p, i)] + r.out + [Closed(p, i)]))
  {
    hide Enclosed, Outside, Filled, Expected, KeyOf, Pulled, OpenedKeys, AllPulled;
    var open, close := Opened(p, i), Closed(p, i);
    FilledMarkers(t, defines, p, i, r.out);
    OpenedOne(t, open);
    OpenedOne(t, close);
    NothingClosed(t, p, i);
    OpenedConcat(t, [open], r.out);
    OpenedConcat(t, [open] + r.out, [close]);
  }

  lemma NothingClosed(t: Tree, p: Path, i: nat)
    ensures KeyOf(t, Closed(p, i)) == {} && Pulled(t, Closed(p, i)).None?
  {
  }
}
