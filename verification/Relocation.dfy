// The relocation loop of Oracle.load_object in tools/check_mpvabdec.py.  Python
// integers are unbounded and its & reads them in two's complement, so a mask of
// low bits is a remainder here, for negative values too.
module Relocation {
  import opened Basics

  const TWO16: int := 0x1_0000
  const TWO26: int := 0x400_0000

  type Memory = map<int, Byte>

  // ---- big-endian fields ----

  function LowByte(w: int): Byte {
    w % 256
  }

  /** pack: the low 32 bits, most significant byte first. */
  function Bytes4(w: int): (b: seq<Byte>)
    ensures |b| == 4
  {
    var w1 := w / 256;
    var w2 := w1 / 256;
    var w3 := w2 / 256;
    [LowByte(w3), LowByte(w2), LowByte(w1), LowByte(w)]
  }

  function Bytes2(h: int): (b: seq<Byte>)
    ensures |b| == 2
  {
    [LowByte(h / 256), LowByte(h)]
  }

  function Join4(b: seq<Byte>): (w: int)
    requires |b| == 4
    ensures 0 <= w < SPACE32
  {
    (b[0] as int) * 0x100_0000 + (b[1] as int) * TWO16 + (b[2] as int) * 256 + (b[3] as int)
  }

  function Join2(b: seq<Byte>): (h: int)
    requires |b| == 2
    ensures 0 <= h < TWO16
  {
    (b[0] as int) * 256 + (b[1] as int)
  }

  /** Unpacking gives back the packed value to the width of the field. */
  lemma JoinBytes(w: int)
    ensures Join4(Bytes4(w)) == w % SPACE32 && Join2(Bytes2(w)) == w % TWO16
  {
    var w1 := w / 256;
    var w2 := w1 / 256;
    var w3 := w2 / 256;
    var w4 := w3 / 256;
    assert w == w2 * TWO16 + Join2(Bytes2(w));
    assert w == w4 * SPACE32 + Join4(Bytes4(w));
    RemainderIs(w, w2, Join2(Bytes2(w)), TWO16);
    RemainderIs(w, w4, Join4(Bytes4(w)), SPACE32);
  }

  lemma RemainderIs(w: int, q: int, r: int, m: int)
    requires m == TWO16 || m == TWO26 || m == SPACE32
    requires w == q * m + r && 0 <= r < m
    ensures w % m == r && w / m == q
  {
    if m == TWO16 {
    } else if m == TWO26 {
    } else {
    }
  }

  /** Numbers that differ by a multiple of 2^32 are the same 32-bit value. */
  lemma SameWord(a: int, b: int, k: int)
    requires a == b + k * SPACE32
    ensures a % SPACE32 == b % SPACE32
  {
    RemainderIs(a, b / SPACE32 + k, b % SPACE32, SPACE32);
  }

  predicate Mapped(mem: Memory, at: int, n: nat) {
    forall i :: at <= i < at + n ==> i in mem
  }

  function Read(mem: Memory, at: int, n: nat): (b: seq<Byte>)
    requires Mapped(mem, at, n)
    ensures |b| == n && forall i :: 0 <= i < n ==> b[i] == mem[at + i]
  {
    seq(n, i requires 0 <= i < n => mem[at + i])
  }

  function Write(mem: Memory, at: int, b: seq<Byte>): (r: Memory)
    requires Mapped(mem, at, |b|)
    ensures r.Keys == mem.Keys
    ensures forall a :: a in mem ==> r[a] == if at <= a < at + |b| then b[a - at] else mem[a]
  {
    map a | a in mem :: if at <= a < at + |b| then b[a - at] else mem[a]
  }

  function Word(mem: Memory, at: int): (w: int)
    requires Mapped(mem, at, 4)
    ensures 0 <= w < SPACE32
  {
    Join4(Read(mem, at, 4))
  }

  function Half(mem: Memory, at: int): (h: int)
    requires Mapped(mem, at, 2)
    ensures 0 <= h < TWO16
  {
    Join2(Read(mem, at, 2))
  }

  // ---- one relocation ----

  const R_NONE := 0
  const R_ADDR32 := 1
  const R_ADDR16_LO := 4
  const R_ADDR16_HI := 5
  const R_ADDR16_HA := 6
  const R_REL24 := 10
  const R_REL32 := 26

  /** A relocation with its target address, and symbol plus addend to 32 bits
      if the symbol is known. */
  datatype Patch = Patch(at: int, kind: int, value: Option<int>)

  predicate Supported(kind: int) {
    kind in {R_NONE, R_ADDR32, R_ADDR16_LO, R_ADDR16_HI, R_ADDR16_HA, R_REL24, R_REL32}
  }

  function Width(kind: int): nat {
    if kind == R_ADDR32 || kind == R_REL24 || kind == R_REL32 then 4
    else if kind == R_ADDR16_LO || kind == R_ADDR16_HI || kind == R_ADDR16_HA then 2
    else 0
  }

  datatype Outcome = Done | UnknownSymbol | Unsupported(kind: int) | Unmapped

  /** What stops the loop at this relocation, if anything. */
  function Trouble(mem: Memory, p: Patch): Outcome {
    if p.value.None? then UnknownSymbol
    else if !Supported(p.kind) then Unsupported(p.kind)
    else if !Mapped(mem, p.at, Width(p.kind)) then Unmapped
    else Done
  }

  /** The part of an instruction word outside the branch field: & 0xfc000003. */
  function OutsideField(inst: int): int {
    inst / TWO26 * TWO26 + inst % 4
  }

  /** The bits of the branch field: & 0x3fffffc. */
  function FieldBits(d: int): (f: int)
    ensures 0 <= f < TWO26 && f % 4 == 0
  {
    d % TWO26 / 4 * 4
  }

  /** The bytes the loop stores. */
  function Stored(mem: Memory, p: Patch): (b: seq<Byte>)
    requires Trouble(mem, p) == Done
    ensures |b| == Width(p.kind)
  {
    var val := p.value.value;
    if p.kind == R_ADDR32 then Bytes4(val)
    else if p.kind == R_ADDR16_LO then Bytes2(val)
    else if p.kind == R_ADDR16_HI then Bytes2(val / TWO16)
    else if p.kind == R_ADDR16_HA then Bytes2((val + 0x8000) / TWO16)
    else if p.kind == R_REL24 then Bytes4(OutsideField(Word(mem, p.at)) + FieldBits(val - p.at))
    else if p.kind == R_REL32 then Bytes4(val - p.at)
    else []
  }

  // ---- what a reader of the field makes of it ----

  function SignExtend(x: int, size: int): int {
    if 2 * x < size then x else x - size
  }

  /** The displacement a branch instruction holds. */
  function BranchOffset(inst: int): int {
    SignExtend(FieldBits(inst), TWO26)
  }

  /** How far `val` is from `at` in the 32-bit address space, as a signed number. */
  function Displacement(val: int, at: int): int {
    SignExtend((val - at) % SPACE32, SPACE32)
  }

  predicate InBranchRange(d: int) {
    d % 4 == 0 && -0x200_0000 <= d < 0x200_0000
  }

  /** The adjusted high half makes up for the sign of the low half. */
  lemma HighAdjusted(val: int)
    ensures ((val + 0x8000) / TWO16 % TWO16 * TWO16 + SignExtend(val % TWO16, TWO16)) % SPACE32 == val % SPACE32
  {
    var low := val % TWO16;
    var q := val / TWO16;
    var h := if low < 0x8000 then q else q + 1;
    RemainderIs(val + 0x8000, h, if low < 0x8000 then low + 0x8000 else low - 0x8000, TWO16);
    SameWord(val, h % TWO16 * TWO16 + SignExtend(low, TWO16), h / TWO16);
  }

  lemma HighPlain(val: int)
    ensures (val / TWO16 % TWO16 * TWO16 + val % TWO16) % SPACE32 == val % SPACE32
  {
    var h := val / TWO16;
    SameWord(val, h % TWO16 * TWO16 + val % TWO16, h / TWO16);
  }

  /** A displacement survives the 26-bit field, modulo the address space, exactly
      when it is a multiple of four within 2^25 either way. */
  lemma BranchFieldExact(val: int, at: int)
    ensures (at + SignExtend(FieldBits(val - at), TWO26)) % SPACE32 == val % SPACE32
       <==> InBranchRange(Displacement(val, at))
  {
    hide FieldBits, InBranchRange;
    var d := Displacement(val, at);
    var o := SignExtend(FieldBits(val - at), TWO26);
    var k := (val - at) / SPACE32;
    var turn := if d >= 0 then 0 else 1;
    assert val - at == d + (k + turn) * SPACE32;
    FieldOfDisplacement(val - at, d, k + turn);
    if (at + o) % SPACE32 == val % SPACE32 {
      var c := (at + o) / SPACE32 - val / SPACE32;
      assert o == d + (k + turn + c) * SPACE32;
    } else if o == d {
      SameWord(val, at + o, k + turn);
    }
  }

  /** The sign-extended field equals the displacement exactly when that fits. */
  lemma FieldOfDisplacement(e: int, d: int, k: int)
    requires e == d + k * SPACE32 && -0x8000_0000 <= d < 0x8000_0000
    ensures SignExtend(FieldBits(e), TWO26) == d <==> InBranchRange(d)
    ensures -0x200_0000 <= SignExtend(FieldBits(e), TWO26) < 0x200_0000
  {
    var f := FieldBits(e);
    if InBranchRange(d) {
      var r := if d >= 0 then d else d + TWO26;
      RemainderIs(e, if d >= 0 then 64 * k else 64 * k - 1, r, TWO26);
      assert r == r / 4 * 4;
    }
  }

  lemma BranchFieldKeeps(inst: int, d: int)
    requires 0 <= inst < SPACE32
    ensures var w := OutsideField(inst) + FieldBits(d);
            0 <= w < SPACE32 && OutsideField(w) == OutsideField(inst) && FieldBits(w) == FieldBits(d)
  {
    var k, f := inst / TWO26, FieldBits(d);
    var w := OutsideField(inst) + f;
    RemainderIs(w, k, f + inst % 4, TWO26);
    LowBits(k, f / 4, inst % 4);
  }

  lemma LowBits(k: int, m: int, r: int)
    requires 0 <= r < 4
    ensures (k * TWO26 + 4 * m + r) % 4 == r && (4 * m + r) / 4 == m
  {
    assert k * TWO26 + 4 * m + r == 4 * (k * 0x100_0000 + m) + r;
  }

  /** The field of p, read from mem, means symbol plus addend; `before` is what
      was there, of which a branch keeps opcode, AA and LK. */
  ghost predicate Resolved(mem: Memory, before: Memory, p: Patch)
    requires p.value.Some? && Mapped(mem, p.at, Width(p.kind)) && Mapped(before, p.at, Width(p.kind))
  {
    var val := p.value.value;
    if p.kind == R_ADDR32 then Word(mem, p.at) == val % SPACE32
    else if p.kind == R_ADDR16_LO then Half(mem, p.at) == val % TWO16
    else if p.kind == R_ADDR16_HI then (Half(mem, p.at) * TWO16 + val % TWO16) % SPACE32 == val % SPACE32
    else if p.kind == R_ADDR16_HA then
      (Half(mem, p.at) * TWO16 + SignExtend(val % TWO16, TWO16)) % SPACE32 == val % SPACE32
    else if p.kind == R_REL24 then
      && OutsideField(Word(mem, p.at)) == OutsideField(Word(before, p.at))
      && ((p.at + BranchOffset(Word(mem, p.at))) % SPACE32 == val % SPACE32
          <==> InBranchRange(Displacement(val, p.at)))
    else if p.kind == R_REL32 then (p.at + Word(mem, p.at)) % SPACE32 == val % SPACE32
    else true
  }

  lemma WrittenIsRead(mem: Memory, at: int, b: seq<Byte>)
    requires Mapped(mem, at, |b|)
    ensures Read(Write(mem, at, b), at, |b|) == b
  {
  }

  /** One relocation on its own: the field then means symbol plus addend. */
  lemma StoredResolves(mem: Memory, p: Patch)
    requires Trouble(mem, p) == Done
    ensures Resolved(Write(mem, p.at, Stored(mem, p)), mem, p)
  {
    if p.kind == R_ADDR16_LO || p.kind == R_ADDR16_HI || p.kind == R_ADDR16_HA {
      HalfResolves(mem, p);
    } else if p.kind == R_REL24 {
      BranchResolves(mem, p);
    } else if p.kind == R_ADDR32 || p.kind == R_REL32 {
      WordResolves(mem, p);
    }
  }

  lemma WordResolves(mem: Memory, p: Patch)
    requires Trouble(mem, p) == Done && (p.kind == R_ADDR32 || p.kind == R_REL32)
    ensures Resolved(Write(mem, p.at, Stored(mem, p)), mem, p)
  {
    hide Write, Read, Join4, Join2, Bytes4, Bytes2, OutsideField, FieldBits, SignExtend, Displacement, InBranchRange;
    var val := p.value.value;
    WrittenIsRead(mem, p.at, Stored(mem, p));
    JoinBytes(val);
    JoinBytes(val - p.at);
    SameWord(val, p.at + (val - p.at) % SPACE32, (val - p.at) / SPACE32);
  }

  lemma HalfResolves(mem: Memory, p: Patch)
    requires Trouble(mem, p) == Done && Width(p.kind) == 2
    ensures Resolved(Write(mem, p.at, Stored(mem, p)), mem, p)
  {
    hide Write, Read, Join4, Join2, Bytes4, Bytes2, OutsideField, FieldBits, SignExtend, Displacement, InBranchRange;
    var val := p.value.value;
    WrittenIsRead(mem, p.at, Stored(mem, p));
    JoinBytes(val);
    JoinBytes(val / TWO16);
    JoinBytes((val + 0x8000) / TWO16);
    HighPlain(val);
    HighAdjusted(val);
  }

  lemma BranchResolves(mem: Memory, p: Patch)
    requires Trouble(mem, p) == Done && p.kind == R_REL24
    ensures Resolved(Write(mem, p.at, Stored(mem, p)), mem, p)
  {
    hide Write, Read, Join4, Bytes4, OutsideField, FieldBits, SignExtend, Displacement, InBranchRange;
    var val, inst := p.value.value, Word(mem, p.at);
    WrittenIsRead(mem, p.at, Stored(mem, p));
    var w := OutsideField(inst) + FieldBits(val - p.at);
    JoinBytes(w);
    BranchFieldKeeps(inst, val - p.at);
    BranchFieldExact(val, p.at);
    RemainderIs(w, 0, w, SPACE32);
  }

  // ---- the loop ----

  /** Memory after the relocations, up to the first that fails. */
  function Run(mem: Memory, ps: seq<Patch>): (r: (Memory, Outcome))
    ensures r.0.Keys == mem.Keys
  {
    if ps == [] then (mem, Done)
    else
      var n := |ps| - 1;
      var (m, outcome) := Run(mem, ps[..n]);
      if outcome != Done then (m, outcome)
      else if Trouble(m, ps[n]) != Done then (m, Trouble(m, ps[n]))
      else (Write(m, ps[n].at, Stored(m, ps[n])), Done)
  }

  predicate InField(p: Patch, a: int) {
    p.at <= a < p.at + Width(p.kind)
  }

  ghost predicate Disjoint(ps: seq<Patch>) {
    forall i, j, a :: 0 <= i < j < |ps| && InField(ps[i], a) ==> !InField(ps[j], a)
  }

  ghost predicate Untouched(mem: Memory, before: Memory, ps: seq<Patch>)
    requires mem.Keys == before.Keys
  {
    forall a :: a in mem && (forall i :: 0 <= i < |ps| ==> !InField(ps[i], a)) ==> mem[a] == before[a]
  }

  lemma SameField(m1: Memory, m2: Memory, at: int, n: nat)
    requires Mapped(m1, at, n) && Mapped(m2, at, n)
    requires forall a :: at <= a < at + n ==> m1[a] == m2[a]
    ensures Read(m1, at, n) == Read(m2, at, n)
  {
  }

  /** Resolved looks at nothing but the field. */
  lemma ResolvedTransfers(m1: Memory, b1: Memory, m2: Memory, b2: Memory, p: Patch)
    requires p.value.Some? && Mapped(m1, p.at, Width(p.kind)) && Mapped(b1, p.at, Width(p.kind))
    requires m2.Keys == m1.Keys && b2.Keys == b1.Keys && Resolved(m1, b1, p)
    requires forall a :: InField(p, a) ==> m1[a] == m2[a] && b1[a] == b2[a]
    ensures Resolved(m2, b2, p)
  {
    SameField(m1, m2, p.at, Width(p.kind));
    SameField(b1, b2, p.at, Width(p.kind));
    hide Read, Join4, Join2, OutsideField, BranchOffset, SignExtend, Displacement, InBranchRange;
  }

  /** The field of p exists and means symbol plus addend. */
  ghost predicate Means(mem: Memory, before: Memory, p: Patch) {
    && mem.Keys == before.Keys && p.value.Some? && Mapped(mem, p.at, Width(p.kind))
    && Resolved(mem, before, p)
  }

  /** If the loop runs through and no two fields overlap, each field means its
      symbol plus addend, and nothing else in memory changed. */
  lemma {:induction false} LoadResolvesAll(mem: Memory, ps: seq<Patch>)
    requires Run(mem, ps).1 == Done && Disjoint(ps)
    ensures Untouched(Run(mem, ps).0, mem, ps)
    ensures forall i :: 0 <= i < |ps| ==> Means(Run(mem, ps).0, mem, ps[i])
  {
    hide Run, Mapped, Untouched, Means, Disjoint, Trouble, Stored, Write, Resolved, InField;
    if ps != [] {
      var n := |ps| - 1;
      RunPrefix(mem, ps);
      LoadResolvesAll(mem, ps[..n]);
      LastKeepsUntouched(mem, Run(mem, ps[..n]).0, ps);
      LastResolved(mem, Run(mem, ps[..n]).0, ps);
      forall i | 0 <= i < n
        ensures Means(Run(mem, ps).0, mem, ps[i])
      {
        assert ps[..n][i] == ps[i];
        EarlierResolved(mem, Run(mem, ps[..n]).0, ps, i);
      }
    } else {
      NothingTouched(mem);
    }
  }

  lemma NothingTouched(mem: Memory)
    ensures Untouched(Run(mem, []).0, mem, [])
  {
  }

  lemma RunPrefix(mem: Memory, ps: seq<Patch>)
    requires ps != [] && Run(mem, ps).1 == Done && Disjoint(ps)
    ensures Run(mem, ps[..|ps| - 1]).1 == Done && Disjoint(ps[..|ps| - 1])
  {
    hide Trouble, Write, Stored;
  }

  /** The last entry changes nothing outside its field. */
  lemma LastWrites(mem: Memory, m: Memory, ps: seq<Patch>)
    requires ps != [] && Run(mem, ps).1 == Done && m == Run(mem, ps[..|ps| - 1]).0
    ensures m.Keys == Run(mem, ps).0.Keys
    ensures forall a :: a in m && !InField(ps[|ps| - 1], a) ==> Run(mem, ps).0[a] == m[a]
  {
    hide Stored, Trouble, Write;
    assert Trouble(m, ps[|ps| - 1]) == Done;
    StoredFits(m, ps[|ps| - 1]);
  }

  lemma StoredFits(m: Memory, p: Patch)
    requires Trouble(m, p) == Done
    ensures Mapped(m, p.at, |Stored(m, p)|)
  {
  }

  lemma EarlierResolved(mem: Memory, m: Memory, ps: seq<Patch>, i: nat)
    requires ps != [] && i < |ps| - 1 && Run(mem, ps).1 == Done && m == Run(mem, ps[..|ps| - 1]).0 && Disjoint(ps)
    requires Means(m, mem, ps[i])
    ensures Means(Run(mem, ps).0, mem, ps[i])
  {
    hide Resolved, Run;
    LastWrites(mem, m, ps);
    ResolvedTransfers(m, mem, Run(mem, ps).0, mem, ps[i]);
  }

  lemma LastResolved(mem: Memory, m: Memory, ps: seq<Patch>)
    requires ps != [] && Run(mem, ps).1 == Done && m == Run(mem, ps[..|ps| - 1]).0 && Disjoint(ps)
    requires Untouched(m, mem, ps[..|ps| - 1])
    ensures Means(Run(mem, ps).0, mem, ps[|ps| - 1])
  {
    hide Resolved, Stored, Untouched, Supported;
    var last := ps[|ps| - 1];
    StoredResolves(m, last);
    FieldStillOriginal(mem, m, ps);
    ResolvedTransfers(Run(mem, ps).0, m, Run(mem, ps).0, mem, last);
  }

  lemma LastKeepsUntouched(mem: Memory, m: Memory, ps: seq<Patch>)
    requires ps != [] && Run(mem, ps).1 == Done && m == Run(mem, ps[..|ps| - 1]).0
    requires Untouched(m, mem, ps[..|ps| - 1])
    ensures Untouched(Run(mem, ps).0, mem, ps)
  {
    var m' := Run(mem, ps).0;
    var n := |ps| - 1;
    forall a | a in m' && (forall i :: 0 <= i < |ps| ==> !InField(ps[i], a))
      ensures m'[a] == mem[a]
    {
      assert !InField(ps[n], a);
      assert forall i :: 0 <= i < n ==> ps[..n][i] == ps[i];
    }
  }

  lemma FieldStillOriginal(mem: Memory, m: Memory, ps: seq<Patch>)
    requires ps != [] && m.Keys == mem.Keys && Disjoint(ps)
    requires Untouched(m, mem, ps[..|ps| - 1])
    ensures forall a :: InField(ps[|ps| - 1], a) && a in m ==> m[a] == mem[a]
  {
    var n := |ps| - 1;
    assert forall i :: 0 <= i < n ==> ps[..n][i] == ps[i];
  }

  /** If it stops, everything before the failing entry has been stored, and
      nothing from it on. */
  lemma {:induction false} LoadStopsAtFirst(mem: Memory, ps: seq<Patch>) returns (n: nat)
    requires Run(mem, ps).1 != Done
    ensures n < |ps| && Run(mem, ps[..n]) == (Run(mem, ps).0, Done)
    ensures Trouble(mem, ps[n]) == Run(mem, ps).1
  {
    n := |ps| - 1;
    if Run(mem, ps[..n]).1 != Done {
      var k := LoadStopsAtFirst(mem, ps[..n]);
      assert ps[..n][..k] == ps[..k];
      n := k;
    }
  }

  // ---- the object file ----

  datatype Symbol = Symbol(name: string, section: int, value: int)

  datatype Rela = Rela(offset: int, info: int, addend: int)

  datatype RelaSection = RelaSection(kind: int, target: int, entries: seq<Rela>)

  const SHT_RELA := 4
  const SHN_ABS := 0xfff1

  /** Where sections were placed, the retail symbols, and the object's symbols. */
  datatype Object = Object(base: map<int, int>, retail: map<string, int>, symbols: seq<Symbol>)
  {
    function SymbolValue(s: Symbol): Option<int> {
      if s.section == SHN_ABS then Some(s.value)
      else if s.section == 0 then if s.name in retail then Some(retail[s.name]) else None
      else if s.section in base then Some(base[s.section] + s.value) else None
    }

    function PatchOf(target: int, r: Rela): Patch
      requires target in base
    {
      var index := r.info / 256;
      var value := if 0 <= index < |symbols| then SymbolValue(symbols[index]) else None;
      Patch(base[target] + r.offset, r.info % 256,
            if value.Some? then Some((value.value + r.addend) % SPACE32) else None)
    }

    function EntryPatches(target: int, entries: seq<Rela>): (ps: seq<Patch>)
      requires target in base
      ensures |ps| == |entries|
    {
      seq(|entries|, i requires 0 <= i < |entries| => PatchOf(target, entries[i]))
    }

    /** All relocations of sections that were placed, in file order. */
    function Patches(sections: seq<RelaSection>): seq<Patch> {
      if sections == [] then []
      else
        var s := sections[|sections| - 1];
        Patches(sections[..|sections| - 1])
        + if s.kind == SHT_RELA && s.target in base then EntryPatches(s.target, s.entries) else []
    }
  }

  lemma {:induction false} RunConcat(mem: Memory, a: seq<Patch>, b: seq<Patch>)
    ensures Run(mem, a).1 != Done ==> Run(mem, a + b) == Run(mem, a)
    ensures Run(mem, a).1 == Done ==> Run(mem, a + b) == Run(Run(mem, a).0, b)
  {
    hide Trouble, Write, Stored;
    if b == [] {
      assert a + b == a;
    } else {
      assert (a + b)[..|a + b| - 1] == a + b[..|b| - 1];
      RunConcat(mem, a, b[..|b| - 1]);
    }
  }

  // ---- what the object file tells ----

  /** The value of symbol number `index`: absolute, the retail one for an undefined
      symbol, or relative to where its section was placed. */
  ghost predicate Denotes(o: Object, index: int, v: int) {
    && 0 <= index < |o.symbols|
    && var s := o.symbols[index];
       || (s.section == 0xfff1 && v == s.value)
       || (s.section == 0 && s.name in o.retail && v == o.retail[s.name])
       || (s.section != 0xfff1 && s.section != 0 && s.section in o.base && v == o.base[s.section] + s.value)
  }

  /** Entry j of section i is a relocation of a section that was placed. */
  predicate Placed(o: Object, sections: seq<RelaSection>, i: nat, j: nat) {
    && i < |sections| && j < |sections[i].entries|
    && sections[i].kind == 4 && sections[i].target in o.base
  }

  function FieldAt(o: Object, sections: seq<RelaSection>, i: nat, j: nat): int
    requires Placed(o, sections, i, j)
  {
    o.base[sections[i].target] + sections[i].entries[j].offset
  }

  /** The bytes that the relocations 1, 10 and 26 and the relocations 4, 5 and 6
      of the PowerPC supplement patch. */
  function FieldSize(kind: int): nat {
    if kind in {1, 10, 26} then 4 else if kind in {4, 5, 6} then 2 else 0
  }

  ghost predicate InEntry(o: Object, sections: seq<RelaSection>, i: nat, j: nat, a: int) {
    && Placed(o, sections, i, j)
    && FieldAt(o, sections, i, j) <= a
       < FieldAt(o, sections, i, j) + FieldSize(sections[i].entries[j].info % 256)
  }

  ghost predicate EntriesDisjoint(o: Object, sections: seq<RelaSection>) {
    forall i: nat, j: nat, i': nat, j': nat, a ::
      (i, j) != (i', j') && InEntry(o, sections, i, j, a) ==> !InEntry(o, sections, i', j', a)
  }

  /** The field means `val`, by the number of the relocation; a branch keeps what
      it was apart from its field. */
  ghost predicate FieldMeans(mem: Memory, before: Memory, at: int, kind: int, val: int) {
    && Mapped(mem, at, FieldSize(kind)) && Mapped(before, at, FieldSize(kind))
    && if kind == 0 then true
       else if kind == 1 then Word(mem, at) == val
       else if kind == 4 then Half(mem, at) == val % 0x1_0000
       else if kind == 5 then (Half(mem, at) * 0x1_0000 + val % 0x1_0000) % 0x1_0000_0000 == val
       else if kind == 6 then (Half(mem, at) * 0x1_0000 + SignExtend(val % 0x1_0000, 0x1_0000)) % 0x1_0000_0000 == val
       else if kind == 10 then
         var w, was := Word(mem, at), Word(before, at);
         && w / 0x400_0000 == was / 0x400_0000 && w % 4 == was % 4
         && ((at + SignExtend(w % 0x400_0000 - w % 4, 0x400_0000)) % 0x1_0000_0000 == val
             <==> InBranchRange(Displacement(val, at)))
       else if kind == 26 then (at + Word(mem, at)) % 0x1_0000_0000 == val
       else false
  }

  /** The field of the entry means symbol plus addend. */
  ghost predicate Relocated(o: Object, sections: seq<RelaSection>, i: nat, j: nat, mem: Memory, before: Memory)
    requires Placed(o, sections, i, j)
  {
    var r := sections[i].entries[j];
    exists v :: Denotes(o, r.info / 256, v)
             && FieldMeans(mem, before, FieldAt(o, sections, i, j), r.info % 256, (v + r.addend) % 0x1_0000_0000)
  }

  /** Nothing is wrong with the entry. */
  ghost predicate Sound(o: Object, sections: seq<RelaSection>, i: nat, j: nat, before: Memory)
    requires Placed(o, sections, i, j)
  {
    var r := sections[i].entries[j];
    && (exists v :: Denotes(o, r.info / 256, v))
    && r.info % 256 in {0, 1, 4, 5, 6, 10, 26}
    && Mapped(before, FieldAt(o, sections, i, j), FieldSize(r.info % 256))
  }

  /** Where the relocations of section i begin among all of them. */
  function FirstOf(o: Object, sections: seq<RelaSection>, i: nat): nat
    requires i <= |sections|
  {
    |o.Patches(sections[..i])|
  }

  lemma {:induction false} PatchesGrow(o: Object, sections: seq<RelaSection>, i: nat)
    requires i <= |sections|
    ensures o.Patches(sections[..i]) <= o.Patches(sections)
    decreases |sections|
  {
    if i < |sections| {
      var n := |sections| - 1;
      PatchesGrow(o, sections[..n], i);
      assert sections[..n][..i] == sections[..i];
    } else {
      assert sections[..i] == sections;
    }
  }

  /** Entry j of section i is patch number FirstOf(i) + j. */
  lemma PatchOfEntry(o: Object, sections: seq<RelaSection>, i: nat, j: nat)
    requires Placed(o, sections, i, j)
    ensures var n := FirstOf(o, sections, i) + j;
            n < |o.Patches(sections)| && o.Patches(sections)[n] == o.PatchOf(sections[i].target, sections[i].entries[j])
  {
    hide Object.PatchOf;
    PatchesGrow(o, sections, i + 1);
    assert sections[..i + 1][..i] == sections[..i];
    assert o.Patches(sections[..i + 1])
        == o.Patches(sections[..i]) + o.EntryPatches(sections[i].target, sections[i].entries);
  }

  /** And every patch is one of an entry. */
  lemma {:induction false} EntryOfPatch(o: Object, sections: seq<RelaSection>, n: nat) returns (i: nat, j: nat)
    requires n < |o.Patches(sections)|
    ensures Placed(o, sections, i, j) && n == FirstOf(o, sections, i) + j
  {
    hide Object.PatchOf;
    var m := |sections| - 1;
    if n < |o.Patches(sections[..m])| {
      i, j := EntryOfPatch(o, sections[..m], n);
      assert sections[..m][..i] == sections[..i];
    } else {
      i, j := m, n - |o.Patches(sections[..m])|;
    }
  }

  /** What patch n of the list says is what its entry says. */
  lemma PatchTells(o: Object, sections: seq<RelaSection>, i: nat, j: nat)
    requires Placed(o, sections, i, j)
    ensures var p, r := o.PatchOf(sections[i].target, sections[i].entries[j]), sections[i].entries[j];
            && p.at == FieldAt(o, sections, i, j) && p.kind == r.info % 256
            && Width(p.kind) == FieldSize(r.info % 256)
            && (Supported(p.kind) <==> r.info % 256 in {0, 1, 4, 5, 6, 10, 26})
            && (p.value.Some? <==> exists v :: Denotes(o, r.info / 256, v))
            && (p.value.Some? ==>
                  exists v :: Denotes(o, r.info / 256, v) && p.value.value == (v + r.addend) % 0x1_0000_0000)
  {
    var r := sections[i].entries[j];
    var index := r.info / 256;
    if 0 <= index < |o.symbols| {
      var value := o.SymbolValue(o.symbols[index]);
      if value.Some? {
        assert Denotes(o, index, value.value);
      }
    }
  }

  /** The loop runs through exactly if nothing is wrong with any patch. */
  lemma {:induction false} RunDoneIff(mem: Memory, ps: seq<Patch>)
    ensures Run(mem, ps).1 == Done <==> forall n :: 0 <= n < |ps| ==> Trouble(mem, ps[n]) == Done
  {
    hide Write, Stored, Supported, Width;
    if ps != [] {
      var n := |ps| - 1;
      RunDoneIff(mem, ps[..n]);
      assert forall k :: 0 <= k < n ==> ps[..n][k] == ps[k];
      if Run(mem, ps[..n]).1 == Done {
        SameTrouble(mem, Run(mem, ps[..n]).0, ps[n]);
      } else {
        var k :| 0 <= k < n && Trouble(mem, ps[..n][k]) != Done;
        assert Trouble(mem, ps[k]) != Done;
      }
    }
  }

  lemma SameTrouble(m1: Memory, m2: Memory, p: Patch)
    requires m1.Keys == m2.Keys
    ensures Trouble(m1, p) == Trouble(m2, p)
  {
  }

  /** load_object stores everything exactly if nothing is wrong with any entry of
      a section that was placed. */
  lemma LoadedIff(o: Object, sections: seq<RelaSection>, before: Memory)
    ensures Run(before, o.Patches(sections)).1 == Done
       <==> forall i: nat, j: nat :: Placed(o, sections, i, j) ==> Sound(o, sections, i, j, before)
  {
    hide Run, Object.PatchOf, Denotes, Object.Patches, FirstOf;
    var ps := o.Patches(sections);
    RunDoneIff(before, ps);
    forall i: nat, j: nat | Placed(o, sections, i, j)
      ensures var n := FirstOf(o, sections, i) + j;
              n < |ps| && (Trouble(before, ps[n]) == Done <==> Sound(o, sections, i, j, before))
    {
      PatchOfEntry(o, sections, i, j);
      PatchTells(o, sections, i, j);
    }
    forall n | 0 <= n < |ps| && Trouble(before, ps[n]) != Done
      ensures exists i: nat, j: nat :: Placed(o, sections, i, j) && !Sound(o, sections, i, j, before)
    {
      var i, j := EntryOfPatch(o, sections, n);
    }
  }

  /** And if no two fields overlap, the field of every such entry then means its
      symbol plus its addend, and no other byte has changed. */
  lemma LoadedAsTold(o: Object, sections: seq<RelaSection>, before: Memory)
    requires Run(before, o.Patches(sections)).1 == Done && EntriesDisjoint(o, sections)
    ensures var mem := Run(before, o.Patches(sections)).0;
            && (forall i: nat, j: nat :: Placed(o, sections, i, j) ==> Relocated(o, sections, i, j, mem, before))
            && (forall a :: a in mem && (forall i: nat, j: nat :: !InEntry(o, sections, i, j, a)) ==>
                  mem[a] == before[a])
  {
    hide Run, Relocated, InEntry, EntriesDisjoint, Placed, Object.Patches;
    var ps, mem := o.Patches(sections), Run(before, o.Patches(sections)).0;
    PatchesDisjoint(o, sections);
    LoadResolvesAll(before, ps);
    RunDoneIff(before, ps);
    forall i: nat, j: nat | Placed(o, sections, i, j)
      ensures Relocated(o, sections, i, j, mem, before)
    {
      MeansAsTold(o, sections, i, j, mem, before);
    }
    OthersAsTold(o, sections, mem, before);
  }

  lemma MeansAsTold(o: Object, sections: seq<RelaSection>, i: nat, j: nat, mem: Memory, before: Memory)
    requires Placed(o, sections, i, j)
    requires forall n :: 0 <= n < |o.Patches(sections)| ==>
               Means(mem, before, o.Patches(sections)[n]) && Trouble(before, o.Patches(sections)[n]) == Done
    ensures Relocated(o, sections, i, j, mem, before)
  {
    hide Object.PatchOf, Object.Patches, FirstOf, Means, Relocated, Width, Supported, Mapped;
    PatchOfEntry(o, sections, i, j);
    PatchTells(o, sections, i, j);
    var p := o.Patches(sections)[FirstOf(o, sections, i) + j];
    assert Trouble(before, p) == Done;
    EntryRelocated(o, sections, i, j, mem, before);
  }

  lemma OthersAsTold(o: Object, sections: seq<RelaSection>, mem: Memory, before: Memory)
    requires mem.Keys == before.Keys && Untouched(mem, before, o.Patches(sections))
    ensures forall a :: a in mem && (forall i: nat, j: nat :: !InEntry(o, sections, i, j, a)) ==> mem[a] == before[a]
  {
    hide Object.PatchOf, Object.Patches, FirstOf, Width, FieldSize, FieldAt, Placed;
    var ps := o.Patches(sections);
    forall a | a in mem && (forall i: nat, j: nat :: !InEntry(o, sections, i, j, a))
      ensures mem[a] == before[a]
    {
      forall n | 0 <= n < |ps|
        ensures !InField(ps[n], a)
      {
        var i, j := EntryOfPatch(o, sections, n);
        PatchOfEntry(o, sections, i, j);
        PatchTells(o, sections, i, j);
        assert !InEntry(o, sections, i, j, a);
      }
    }
  }

  lemma PatchesDisjoint(o: Object, sections: seq<RelaSection>)
    requires EntriesDisjoint(o, sections)
    ensures Disjoint(o.Patches(sections))
  {
    hide Object.PatchOf, Denotes, Object.Patches, FirstOf;
    var ps := o.Patches(sections);
    forall n, n', a | 0 <= n < n' < |ps| && InField(ps[n], a)
      ensures !InField(ps[n'], a)
    {
      var i, j := EntryOfPatch(o, sections, n);
      var i', j' := EntryOfPatch(o, sections, n');
      PatchOfEntry(o, sections, i, j);
      PatchOfEntry(o, sections, i', j');
      PatchTells(o, sections, i, j);
      PatchTells(o, sections, i', j');
      assert (i, j) != (i', j') && InEntry(o, sections, i, j, a);
      assert !InEntry(o, sections, i', j', a);
    }
  }

  lemma EntryRelocated(o: Object, sections: seq<RelaSection>, i: nat, j: nat, mem: Memory, before: Memory)
    requires Placed(o, sections, i, j)
    requires Means(mem, before, o.PatchOf(sections[i].target, sections[i].entries[j]))
    requires Supported(sections[i].entries[j].info % 256)
    ensures Relocated(o, sections, i, j, mem, before)
  {
    var r := sections[i].entries[j];
    PatchTells(o, sections, i, j);
    var p := o.PatchOf(sections[i].target, r);
    hide Object.PatchOf, Denotes, Word, Half, BranchOffset, OutsideField, Displacement, SignExtend;
    var v :| Denotes(o, r.info / 256, v) && p.value.value == (v + r.addend) % 0x1_0000_0000;
    MeansField(mem, before, p);
  }

  lemma MeansField(mem: Memory, before: Memory, p: Patch)
    requires Means(mem, before, p) && Supported(p.kind) && 0 <= p.value.value < SPACE32
    ensures FieldMeans(mem, before, p.at, p.kind, p.value.value)
  {
    if p.kind == R_REL24 {
      OutsideParts(Word(mem, p.at), Word(before, p.at));
      FieldParts(Word(mem, p.at));
    }
    hide Word, Half, OutsideField, FieldBits, Displacement, SignExtend, InBranchRange;
    RemainderIs(p.value.value, 0, p.value.value, SPACE32);
  }

  lemma OutsideParts(w: int, was: int)
    requires OutsideField(w) == OutsideField(was)
    ensures w / 0x400_0000 == was / 0x400_0000 && w % 4 == was % 4
  {
  }

  lemma FieldParts(w: int)
    ensures FieldBits(w) == w % 0x400_0000 - w % 4
  {
  }

  class Emulator {
    var mem: Memory

    constructor (mem: Memory)
      ensures this.mem == mem
    {
      this.mem := mem;
    }

    /** One entry: writes the field, or says why it cannot. */
    method Relocate(p: Patch) returns (outcome: Outcome)
      modifies this
      ensures outcome == Trouble(old(mem), p)
      ensures mem == if outcome == Done then Write(old(mem), p.at, Stored(old(mem), p)) else old(mem)
    {
      outcome := Trouble(mem, p);
      if outcome == Done {
        mem := Write(mem, p.at, Stored(mem, p));
      }
    }

    /** The relocation loop of load_object. */
    method LoadObject(o: Object, sections: seq<RelaSection>) returns (outcome: Outcome)
      modifies this
      ensures (mem, outcome) == Run(old(mem), o.Patches(sections))
      ensures outcome == Done <==>
                forall i: nat, j: nat :: Placed(o, sections, i, j) ==> Sound(o, sections, i, j, old(mem))
      ensures outcome == Done && EntriesDisjoint(o, sections) ==>
                && (forall i: nat, j: nat :: Placed(o, sections, i, j) ==>
                      Relocated(o, sections, i, j, mem, old(mem)))
                && mem.Keys == old(mem).Keys
                && (forall a :: a in mem && (forall i: nat, j: nat :: !InEntry(o, sections, i, j, a)) ==>
                      mem[a] == old(mem)[a])
    {
      outcome := RunObject(o, sections);
      LoadedIff(o, sections, old(mem));
      if outcome == Done && EntriesDisjoint(o, sections) {
        LoadedAsTold(o, sections, old(mem));
      }
    }

    /** The nested loops over sections and their entries. */
    method RunObject(o: Object, sections: seq<RelaSection>) returns (outcome: Outcome)
      modifies this
      ensures (mem, outcome) == Run(old(mem), o.Patches(sections))
    {
      hide Trouble, Write, Stored;
      for i := 0 to |sections|
        invariant (mem, Done) == Run(old(mem), o.Patches(sections[..i]))
      {
        var s := sections[i];
        assert sections[..i + 1][..i] == sections[..i];
        if s.kind == SHT_RELA && s.target in o.base {
          ghost var before := mem;
          ghost var all := o.EntryPatches(s.target, s.entries);
          outcome := LoadSection(o, s);
          RunConcat(old(mem), o.Patches(sections[..i]), all);
          if outcome != Done {
            RestIgnored(o, old(mem), sections, i + 1);
            return;
          }
        } else {
          assert o.Patches(sections[..i + 1]) == o.Patches(sections[..i]);
        }
      }
      assert sections[..|sections|] == sections;
      outcome := Done;
    }

    method LoadSection(o: Object, s: RelaSection) returns (outcome: Outcome)
      requires s.target in o.base
      modifies this
      ensures (mem, outcome) == Run(old(mem), o.EntryPatches(s.target, s.entries))
    {
      hide Trouble, Write, Stored, Object.PatchOf;
      ghost var all := o.EntryPatches(s.target, s.entries);
      for j := 0 to |s.entries|
        invariant (mem, Done) == Run(old(mem), all[..j])
      {
        assert all[..j + 1][..j] == all[..j];
        outcome := Relocate(o.PatchOf(s.target, s.entries[j]));
        if outcome != Done {
          assert all == all[..j + 1] + all[j + 1..];
          RunConcat(old(mem), all[..j + 1], all[j + 1..]);
          return;
        }
      }
      assert all[..|s.entries|] == all;
      outcome := Done;
    }
  }

  lemma {:induction false} RestIgnored(o: Object, mem: Memory, sections: seq<RelaSection>, n: nat)
    requires n <= |sections| && Run(mem, o.Patches(sections[..n])).1 != Done
    ensures Run(mem, o.Patches(sections)) == Run(mem, o.Patches(sections[..n]))
    decreases |sections| - n
  {
    if n < |sections| {
      assert sections[..n + 1][..n] == sections[..n];
      RunConcat(mem, o.Patches(sections[..n]), o.Patches(sections[..n + 1])[|o.Patches(sections[..n])|..]);
      RestIgnored(o, mem, sections, n + 1);
    } else {
      assert sections[..n] == sections;
    }
  }
}
