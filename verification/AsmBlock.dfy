// Text blocks of tools/generate_asm_sequences.py: block_sequence slices a block
// out of a retail function, emit_macro prints it with its branch targets as
// labels and its registers as macro parameters, which the C preprocessor then
// replaces.  Instructions are token lists: what the regular expressions take for
// a local target `.L_XXXXXXXX`, a register or a quantization register, in quotes
// or not, the other words outside quotes, and the text between.
module AsmBlock {
  import opened Basics

  datatype Token =
    | Plain(text: string)
    | Word(name: string)
    | Local(hex: string, quoted: bool)
    | Register(name: string, quoted: bool)
    | Gqr(number: string, quoted: bool)

  datatype Instruction = Instruction(word: nat, tokens: seq<Token>)
  {
    function Last(): Token
      requires tokens != []
    {
      tokens[|tokens| - 1]
    }
  }

  datatype Sequence = Sequence(name: string, address: nat, instructions: seq<Instruction>)
  {
    function At(i: nat): nat {
      address + 4 * i
    }

    function End(): nat {
      At(|instructions|)
    }
  }

  // ---- eight hexadecimal digits ----

  predicate IsHex(c: char) {
    '0' <= c <= '9' || 'A' <= c <= 'F' || 'a' <= c <= 'f'
  }

  function HexDigitValue(c: char): (d: nat)
    requires IsHex(c)
    ensures d < 16
  {
    if c <= '9' then c as int - '0' as int
    else if c <= 'F' then c as int - 'A' as int + 10
    else c as int - 'a' as int + 10
  }

  function HexDigit(d: nat): (c: char)
    requires d < 16
    ensures IsHex(c) && HexDigitValue(c) == d
  {
    if d < 10 then '0' + d as char else 'A' + (d - 10) as char
  }

  function Upper(c: char): char
    requires IsHex(c)
  {
    HexDigit(HexDigitValue(c))
  }

  predicate AllHex(h: string) {
    forall i :: 0 <= i < |h| ==> IsHex(h[i])
  }

  /** int(h, 16) */
  function HexValue(h: string): nat
    requires AllHex(h)
  {
    if h == [] then 0 else 16 * HexValue(h[..|h| - 1]) + HexDigitValue(h[|h| - 1])
  }

  /** The last k hexadecimal digits of n, upper case. */
  function HexDigits(n: nat, k: nat): (h: string)
    ensures |h| == k && AllHex(h)
  {
    if k == 0 then [] else HexDigits(n / 16, k - 1) + [HexDigit(n % 16)]
  }

  /** As `:08X` prints an address of the 32-bit space. */
  function Hex8(n: nat): string {
    HexDigits(n, 8)
  }

  predicate Canonical(h: string) {
    AllHex(h) && forall i :: 0 <= i < |h| ==> h[i] == Upper(h[i])
  }

  /** Printing a parsed number gives the digits back in upper case. */
  lemma {:induction false} HexRoundTrip(h: string)
    requires AllHex(h)
    ensures |HexDigits(HexValue(h), |h|)| == |h|
    ensures forall i :: 0 <= i < |h| ==> HexDigits(HexValue(h), |h|)[i] == Upper(h[i])
  {
    if h != [] {
      var n := |h| - 1;
      HexRoundTrip(h[..n]);
      assert HexValue(h) / 16 == HexValue(h[..n]) && HexValue(h) % 16 == HexDigitValue(h[n]);
    }
  }

  function Pow16(k: nat): nat {
    if k == 0 then 1 else 16 * Pow16(k - 1)
  }

  lemma {:induction false} HexParsed(n: nat, k: nat)
    requires n < Pow16(k)
    ensures HexValue(HexDigits(n, k)) == n
  {
    if k > 0 {
      HexParsed(n / 16, k - 1);
      assert HexDigits(n, k)[..k - 1] == HexDigits(n / 16, k - 1);
    }
  }

  lemma AddressParsed(n: nat)
    requires n < SPACE32
    ensures HexValue(Hex8(n)) == n
  {
    assert Pow16(4) == 0x1_0000;
    assert Pow16(8) == SPACE32;
    HexParsed(n, 8);
  }

  // ---- slicing the block ----

  /** What the branch patterns say of an instruction. */
  datatype Patterns = Patterns(branchHead: seq<Token> -> bool, externalBranch: seq<Token> -> bool,
                               call: seq<Token> -> bool)
  {
    /** A branch to a local target and nothing behind it. */
    predicate LocalBranch(i: Instruction) {
      && i.tokens != [] && i.Last().Local? && !i.Last().quoted
      && branchHead(i.tokens[..|i.tokens| - 1])
    }

    /** A branch out of the function that does not come back. */
    predicate JumpsAway(i: Instruction) {
      !LocalBranch(i) && externalBranch(i.tokens) && !call(i.tokens)
    }
  }

  // ---- names ----

  predicate IsDigit(c: char) {
    '0' <= c <= '9'
  }

  predicate IsLetter(c: char) {
    'a' <= c <= 'z' || 'A' <= c <= 'Z' || c == '_'
  }

  /** SYMBOL_RE: an identifier. */
  predicate IsSymbol(name: string) {
    && name != [] && IsLetter(name[0])
    && forall i :: 0 < i < |name| ==> IsLetter(name[i]) || IsDigit(name[i])
  }

  /** REGISTER_RE: r0 to r31 and f0 to f31. */
  predicate IsRegister(name: string) {
    && 2 <= |name| <= 3 && (name[0] == 'r' || name[0] == 'f') && IsDigit(name[1])
    && (|name| == 3 ==> IsDigit(name[2]) && ('1' <= name[1] <= '2' || (name[1] == '3' && name[2] <= '1')))
  }

  /** qr0 to qr7 */
  predicate IsGqr(name: string) {
    |name| == 3 && name[0] == 'q' && name[1] == 'r' && '0' <= name[2] <= '7'
  }

  /** Macro parameters and the retail registers they stand for; the parameters
      are the keys of a dictionary. */
  type Operands = seq<(string, string)>

  predicate KeysDistinct(ops: Operands) {
    forall j, k :: 0 <= j < k < |ops| ==> ops[j].0 != ops[k].0
  }

  predicate RegistersDistinct(ops: Operands) {
    forall j, k :: 0 <= j < k < |ops| ==> ops[j].1 != ops[k].1
  }

  /** The registers an instruction names. */
  function RegistersOf(i: Instruction): set<string> {
    set k | 0 <= k < |i.tokens| && i.tokens[k].Register? :: i.tokens[k].name
  }

  function Used(s: Sequence): set<string> {
    set i, r | 0 <= i < |s.instructions| && r in RegistersOf(s.instructions[i]) :: r
  }

  /** Operands a block accepts: good names, registers of the block, none twice. */
  predicate GoodOperands(ops: Operands, s: Sequence) {
    && (forall k :: 0 <= k < |ops| ==> IsSymbol(ops[k].0) && IsRegister(ops[k].1) && ops[k].1 in Used(s))
    && RegistersDistinct(ops)
  }

  /** What the patterns take for each kind of token. */
  predicate Taken(t: Token) {
    match t
    case Plain(_) => true
    case Word(name) => !IsGqr(name)
    case Local(hex, _) => |hex| == 8 && AllHex(hex)
    case Register(name, _) => IsRegister(name)
    case Gqr(number, _) => |number| == 1 && '0' <= number[0] <= '7'
  }

  ghost predicate WellFormed(i: Instruction) {
    forall k :: 0 <= k < |i.tokens| ==> Taken(i.tokens[k])
  }

  ghost predicate AllWellFormed(s: Sequence) {
    forall i :: 0 <= i < |s.instructions| ==> WellFormed(s.instructions[i])
  }

  /** Instruction i does not leave [address, end]; with operands outside a text
      block it does not branch at all. */
  predicate Stays(p: Patterns, ops: Operands, text: bool, s: Sequence, i: nat)
    requires AllWellFormed(s) && i < |s.instructions|
  {
    && (p.LocalBranch(s.instructions[i]) ==>
          && s.address <= TargetOf(p, s, i) <= s.End()
          && (ops == [] || text))
    && !p.JumpsAway(s.instructions[i])
  }

  /** Where the local branch i goes. */
  function TargetOf(p: Patterns, s: Sequence, i: nat): nat
    requires AllWellFormed(s) && i < |s.instructions| && p.LocalBranch(s.instructions[i])
  {
    assert WellFormed(s.instructions[i]);
    assert Taken(s.instructions[i].Last());
    HexValue(s.instructions[i].Last().hex)
  }

  ghost predicate StaysInside(p: Patterns, ops: Operands, text: bool, s: Sequence)
    requires AllWellFormed(s)
  {
    forall i :: 0 <= i < |s.instructions| ==> Stays(p, ops, text, s, i)
  }

  /** The bounds of an acceptable block of `parent`. */
  predicate GoodBounds(parent: Sequence, address: nat, size: int) {
    && address % 4 == 0 && size % 4 == 0 && size > 0
    && parent.address <= address && address + size <= parent.End()
  }

  function Sliced(name: string, parent: Sequence, address: nat, size: nat): Sequence
    requires GoodBounds(parent, address, size)
  {
    var first := (address - parent.address) / 4;
    Sequence(name, address, parent.instructions[first..first + size / 4])
  }

  /** The slice covers exactly the addresses asked for; its instruction k is the
      retail instruction at address + 4k if and only if the function itself
      starts on a word boundary. */
  lemma SliceIsFaithful(name: string, parent: Sequence, address: nat, size: nat)
    requires GoodBounds(parent, address, size)
    ensures var s := Sliced(name, parent, address, size);
            var first := (address - parent.address) / 4;
            && s.name == name && s.address == address && s.End() == address + size && |s.instructions| > 0
            && (AllWellFormed(parent) ==> AllWellFormed(s))
            && (forall k :: 0 <= k < |s.instructions| ==> s.instructions[k] == parent.instructions[first + k])
            && ((forall k :: 0 <= k < |s.instructions| ==> s.At(k) == parent.At(first + k))
                <==> parent.address % 4 == 0)
  {
    var s := Sliced(name, parent, address, size);
    assert s.At(0) == address;
  }

  /** The instruction loop of block_sequence. */
  method CheckBranches(p: Patterns, ops: Operands, text: bool, block: Sequence) returns (ok: bool)
    requires AllWellFormed(block)
    ensures ok <==> StaysInside(p, ops, text, block)
  {
    hide Stays;
    for index := 0 to |block.instructions|
      invariant forall i :: 0 <= i < index ==> Stays(p, ops, text, block, i)
    {
      var stays := CheckBranch(p, ops, text, block, index);
      if !stays {
        return false;
      }
    }
    return true;
  }

  method CheckBranch(p: Patterns, ops: Operands, text: bool, block: Sequence, index: nat) returns (ok: bool)
    requires AllWellFormed(block) && index < |block.instructions|
    ensures ok <==> Stays(p, ops, text, block, index)
  {
    hide HexValue;
    if p.LocalBranch(block.instructions[index]) {
      var target := TargetOf(p, block, index);
      if !(block.address <= target <= block.End()) {
        return false;
      }
      if ops != [] && !text {
        return false;
      }
    } else if p.JumpsAway(block.instructions[index]) {
      return false;
    }
    return true;
  }

  /** set(operands.values()) */
  function RegisterSet(ops: Operands): set<string> {
    if ops == [] then {} else RegisterSet(ops[..|ops| - 1]) + {ops[|ops| - 1].1}
  }

  lemma {:induction false} RegisterSetHas(ops: Operands, register: string)
    ensures register in RegisterSet(ops) <==> exists k :: 0 <= k < |ops| && ops[k].1 == register
  {
    if ops != [] {
      var n := |ops| - 1;
      RegisterSetHas(ops[..n], register);
      if exists k :: 0 <= k < |ops| && ops[k].1 == register {
        var k :| 0 <= k < |ops| && ops[k].1 == register;
        assert k < n ==> ops[..n][k].1 == register;
      }
    }
  }

  lemma {:induction false} RegistersCounted(ops: Operands)
    ensures |RegisterSet(ops)| <= |ops| && (|RegisterSet(ops)| == |ops| <==> RegistersDistinct(ops))
  {
    if ops != [] {
      var n := |ops| - 1;
      RegistersCounted(ops[..n]);
      RegisterSetHas(ops[..n], ops[n].1);
      if ops[n].1 in RegisterSet(ops[..n]) {
        assert RegisterSet(ops) == RegisterSet(ops[..n]);
        var k :| 0 <= k < n && ops[..n][k].1 == ops[n].1;
        assert ops[k].1 == ops[n].1;
      } else {
        NewRegister(ops);
      }
    }
  }

  lemma NewRegister(ops: Operands)
    requires ops != [] && ops[|ops| - 1].1 !in RegisterSet(ops[..|ops| - 1])
    ensures RegistersDistinct(ops) <==> RegistersDistinct(ops[..|ops| - 1])
  {
    var n := |ops| - 1;
    RegisterSetHas(ops[..n], ops[n].1);
    assert forall k :: 0 <= k < n ==> ops[..n][k] == ops[k];
    if RegistersDistinct(ops[..n]) {
      forall j, k | 0 <= j < k < |ops|
        ensures ops[j].1 != ops[k].1
      {
        assert ops[..n][j] == ops[j];
      }
    }
  }

  /** The operand checks of block_sequence. */
  method CheckOperands(ops: Operands, block: Sequence) returns (ok: bool)
    ensures ok <==> GoodOperands(ops, block)
  {
    hide Used;
    var used := Used(block);
    for k := 0 to |ops|
      invariant forall j :: 0 <= j < k ==> IsSymbol(ops[j].0) && IsRegister(ops[j].1) && ops[j].1 in used
    {
      if !IsSymbol(ops[k].0) || !IsRegister(ops[k].1) || ops[k].1 !in used {
        return false;
      }
    }
    RegistersCounted(ops);
    return |RegisterSet(ops)| == |ops|;
  }

  /** block_sequence: the slice, if and only if the bounds are good, control flow
      cannot leave it and the operands fit it. */
  method BlockSequence(p: Patterns, name: string, parent: Sequence, address: nat, size: int,
                       ops: Operands, text: bool)
    returns (r: Result<Sequence>)
    requires AllWellFormed(parent) && KeysDistinct(ops)
    ensures r.Ok? <==>
              && GoodBounds(parent, address, size)
              && StaysInside(p, ops, text, Sliced(name, parent, address, size))
              && (forall k :: 0 <= k < |ops| ==>
                    && IsSymbol(ops[k].0) && IsRegister(ops[k].1)
                    && ops[k].1 in Used(Sliced(name, parent, address, size)))
              && RegistersDistinct(ops)
    ensures r.Ok? ==> r.value == Sliced(name, parent, address, size) && AllWellFormed(r.value)
  {
    hide StaysInside, AllWellFormed, KeysDistinct, Used, IsSymbol, IsRegister;
    var end := address + size;
    if address % 4 != 0 || size % 4 != 0 || size <= 0 {
      return Err("block address and size must be positive multiples of 4");
    }
    if !(parent.address <= address < end <= parent.End()) {
      return Err("block is outside the function");
    }
    SliceIsFaithful(name, parent, address, size);
    var block := Sliced(name, parent, address, size);
    var stays := CheckBranches(p, ops, text, block);
    if !stays {
      return Err("branch leaves the block");
    }
    var good := CheckOperands(ops, block);
    if !good {
      return Err("invalid operands");
    }
    return Ok(block);
  }

  // ---- what the operand checks mean ----

  lemma UsedIff(s: Sequence, register: string)
    ensures register in Used(s)
       <==> exists i, k :: 0 <= i < |s.instructions| && 0 <= k < |s.instructions[i].tokens|
                        && NamesRegister(s.instructions[i].tokens[k], register)
  {
    if register in Used(s) {
      var i :| 0 <= i < |s.instructions| && register in RegistersOf(s.instructions[i]);
      var k :| 0 <= k < |s.instructions[i].tokens| && s.instructions[i].tokens[k].Register?
               && s.instructions[i].tokens[k].name == register;
      assert NamesRegister(s.instructions[i].tokens[k], register);
    }
    if i, k :| 0 <= i < |s.instructions| && 0 <= k < |s.instructions[i].tokens|
               && NamesRegister(s.instructions[i].tokens[k], register) {
      UsedAt(s, i, k);
    }
  }

  predicate NamesRegister(t: Token, register: string) {
    t.Register? && t.name == register
  }

  /** A number below one hundred in decimal digits, without a leading zero. */
  function TwoDigits(n: nat): string
    requires n < 100
  {
    if n < 10 then ['0' + n as char] else ['0' + (n / 10) as char, '0' + (n % 10) as char]
  }

  /** The registers are r0 to r31 and f0 to f31. */
  lemma IsRegisterIff(name: string)
    ensures IsRegister(name)
       <==> exists n: nat :: n < 32 && (name == ['r'] + TwoDigits(n) || name == ['f'] + TwoDigits(n))
  {
    if IsRegister(name) {
      var n := if |name| == 2 then name[1] as int - '0' as int
               else 10 * (name[1] as int - '0' as int) + (name[2] as int - '0' as int);
      assert TwoDigits(n) == name[1..];
      assert name == [name[0]] + TwoDigits(n);
    }
  }

  // ---- where control can go ----

  /** Where control can go behind an instruction: to an address, or away. */
  datatype Flow = To(address: int) | Away

  ghost predicate Goes(p: Patterns, s: Sequence, i: nat, f: Flow)
    requires AllWellFormed(s) && i < |s.instructions|
  {
    match f
    case To(a) => a == s.At(i) + 4 || (p.LocalBranch(s.instructions[i]) && a == TargetOf(p, s, i))
    case Away =>
      var tokens := s.instructions[i].tokens;
      !p.LocalBranch(s.instructions[i]) && p.externalBranch(tokens) && !p.call(tokens)
  }

  /** The branch checks hold if and only if control stays in the block or leaves it
      at its end, and operands outside a text block have no local branches. */
  lemma FlowStaysIff(p: Patterns, ops: Operands, text: bool, s: Sequence)
    requires AllWellFormed(s)
    ensures StaysInside(p, ops, text, s)
       <==> && (forall i, f :: 0 <= i < |s.instructions| && Goes(p, s, i, f) ==>
                  f.To? && s.address <= f.address <= s.End())
            && (ops == [] || text || forall i :: 0 <= i < |s.instructions| ==> !p.LocalBranch(s.instructions[i]))
  {
    forall i | 0 <= i < |s.instructions|
      ensures Stays(p, ops, text, s, i)
         <==> && (forall f :: Goes(p, s, i, f) ==> f.To? && s.address <= f.address <= s.End())
              && (ops == [] || text || !p.LocalBranch(s.instructions[i]))
    {
      FlowAt(p, ops, text, s, i);
    }
  }

  lemma FlowAt(p: Patterns, ops: Operands, text: bool, s: Sequence, i: nat)
    requires AllWellFormed(s) && i < |s.instructions|
    ensures Stays(p, ops, text, s, i)
       <==> && (forall f :: Goes(p, s, i, f) ==> f.To? && s.address <= f.address <= s.End())
            && (ops == [] || text || !p.LocalBranch(s.instructions[i]))
  {
    hide HexValue;
    if p.LocalBranch(s.instructions[i]) {
      assert Goes(p, s, i, To(TargetOf(p, s, i)));
    }
    if p.JumpsAway(s.instructions[i]) {
      assert Goes(p, s, i, Away);
    }
  }

  // ---- printing it ----

  /** What a macro line spells: text as it is, a word the preprocessor looks at,
      text in quotes, a label `L_XXXXXXXX`, or the plain number of a quantization
      register. */
  datatype Spelled =
    | AsIs(text: string)
    | Name(name: string)
    | InQuotes(text: string)
    | LabelRef(hex: string)
    | Number(number: string)

  /** The parameter that stands for a register: of several, the last. */
  function ParameterOf(ops: Operands, register: string): Option<string> {
    if ops == [] then None
    else if ops[|ops| - 1].1 == register then Some(ops[|ops| - 1].0)
    else ParameterOf(ops[..|ops| - 1], register)
  }

  /** The renaming of local targets, and the first pass of substitute_operands. */
  function Substituted(ops: Operands, t: Token): Spelled {
    match t
    case Plain(text) => AsIs(text)
    case Word(name) => Name(name)
    case Local(hex, quoted) => if quoted then InQuotes("L_" + hex) else LabelRef(hex)
    case Register(name, quoted) =>
      var p := ParameterOf(ops, name);
      var text := if p.Some? then p.value else name;
      if quoted then InQuotes(text) else Name(text)
    case Gqr(number, quoted) => if quoted then InQuotes("qr" + number) else Name("qr" + number)
  }

  /** Its second pass goes over the result of the first: any quantization register
      it finds there becomes a number. */
  function Numbered(t: Spelled): Spelled {
    match t
    case Name(name) => if IsGqr(name) then Number(name[2..]) else t
    case InQuotes(text) => if IsGqr(text) then InQuotes(text[2..]) else t
    case _ => t
  }

  function SpellToken(ops: Operands, t: Token): Spelled {
    Numbered(Substituted(ops, t))
  }

  function Spell(ops: Operands, tokens: seq<Token>): seq<Spelled> {
    seq(|tokens|, k requires 0 <= k < |tokens| => SpellToken(ops, tokens[k]))
  }

  datatype LineKind =
    | Define(name: string, parameters: seq<string>)
    | Label(name: string)
    | Code(spelled: seq<Spelled>)

  /** One line of the macro, and whether it ends in a continuation. */
  datatype MacroLine = MacroLine(kind: LineKind, continued: bool)

  function TargetsOf(tokens: seq<Token>): set<nat>
    requires forall k :: 0 <= k < |tokens| && tokens[k].Local? ==> AllHex(tokens[k].hex)
  {
    set k | 0 <= k < |tokens| && tokens[k].Local? :: HexValue(tokens[k].hex)
  }

  /** The addresses that get a label: all local targets in the block's text. */
  function LabelAt(s: Sequence): set<nat>
    requires AllWellFormed(s)
  {
    set i, v | 0 <= i < |s.instructions| && v in TargetsOf(s.instructions[i].tokens) :: v
  }

  /** The lines from instruction i on. */
  function LinesFrom(s: Sequence, ops: Operands, labels: set<nat>, i: nat): seq<MacroLine>
    requires i <= |s.instructions|
    decreases |s.instructions| - i
  {
    if i == |s.instructions| then
      if s.End() in labels then [MacroLine(Label(Hex8(s.End())), false)] else []
    else
      var last := i + 1 == |s.instructions| && s.End() !in labels;
      (if s.At(i) in labels then [MacroLine(Label(Hex8(s.At(i))), true)] else [])
      + [MacroLine(Code(Spell(ops, s.instructions[i].tokens)), !last)]
      + LinesFrom(s, ops, labels, i + 1)
  }

  /** The dictionary's keys. */
  function Parameters(ops: Operands): seq<string> {
    seq(|ops|, k requires 0 <= k < |ops| => ops[k].0)
  }

  function Macro(s: Sequence, ops: Operands): seq<MacroLine>
    requires AllWellFormed(s)
  {
    [MacroLine(Define("SEQ_" + s.name, Parameters(ops)), true)] + LinesFrom(s, ops, LabelAt(s), 0)
  }

  /** emit_macro for a text block. */
  method EmitMacro(s: Sequence, ops: Operands) returns (lines: seq<MacroLine>)
    requires AllWellFormed(s)
    ensures lines == Macro(s, ops)
  {
    hide Spell, Hex8, TargetsOf;
    lines := [MacroLine(Define("SEQ_" + s.name, Parameters(ops)), true)];
    var labelAt: set<nat> := {};
    for i := 0 to |s.instructions|
      invariant labelAt == set j, v | 0 <= j < i && v in TargetsOf(s.instructions[j].tokens) :: v
    {
      assert WellFormed(s.instructions[i]);
      labelAt := labelAt + TargetsOf(s.instructions[i].tokens);
    }
    assert labelAt == LabelAt(s);
    hide LabelAt;
    for index := 0 to |s.instructions|
      invariant lines + LinesFrom(s, ops, labelAt, index) == Macro(s, ops)
    {
      ghost var before := lines;
      if s.At(index) in labelAt {
        lines := lines + [MacroLine(Label(Hex8(s.At(index))), true)];
      }
      var last := index + 1 == |s.instructions| && s.End() !in labelAt;
      lines := lines + [MacroLine(Code(Spell(ops, s.instructions[index].tokens)), !last)];
      assert lines + LinesFrom(s, ops, labelAt, index + 1) == before + LinesFrom(s, ops, labelAt, index);
    }
    if s.End() in labelAt {
      lines := lines + [MacroLine(Label(Hex8(s.End())), false)];
    }
  }

  // ---- the macro is the block ----

  /** The register a parameter stands for. */
  function RegisterOf(ops: Operands, parameter: string): Option<string> {
    if ops == [] then None
    else if ops[|ops| - 1].0 == parameter then Some(ops[|ops| - 1].1)
    else RegisterOf(ops[..|ops| - 1], parameter)
  }

  /** What a spelled token means when the preprocessor puts in the registers: it
      replaces any word that is a parameter, and nothing in quotes. */
  function Meaning(ops: Operands, t: Spelled): string {
    match t
    case AsIs(text) => text
    case Name(name) => (match RegisterOf(ops, name) case Some(r) => r case None => name)
    case InQuotes(text) => text
    case LabelRef(hex) => (match RegisterOf(ops, "L_" + hex) case Some(r) => r case None => ".L_" + hex)
    case Number(number) => "qr" + number
  }

  /** How the retail assembly spells a token. */
  function RetailText(t: Token): string {
    match t
    case Plain(text) => text
    case Word(name) => name
    case Local(hex, _) => ".L_" + hex
    case Register(name, _) => name
    case Gqr(number, _) => "qr" + number
  }

  lemma {:induction false} ParameterHasRegister(ops: Operands, register: string)
    requires KeysDistinct(ops) && ParameterOf(ops, register).Some?
    ensures RegisterOf(ops, ParameterOf(ops, register).value) == Some(register)
    ensures exists k :: 0 <= k < |ops| && ops[k] == (ParameterOf(ops, register).value, register)
  {
    var n := |ops| - 1;
    if ops[n].1 != register {
      ParameterHasRegister(ops[..n], register);
      var k :| 0 <= k < n && ops[..n][k] == (ParameterOf(ops[..n], register).value, register);
      assert ops[k] == ops[..n][k];
    }
  }

  lemma {:induction false} MappedRegister(ops: Operands, k: nat)
    requires RegistersDistinct(ops) && k < |ops|
    ensures ParameterOf(ops, ops[k].1) == Some(ops[k].0)
  {
    var n := |ops| - 1;
    if k < n {
      MappedRegister(ops[..n], k);
    }
  }

  function Meanings(ops: Operands, spelled: seq<Spelled>): seq<string> {
    seq(|spelled|, k requires 0 <= k < |spelled| => Meaning(ops, spelled[k]))
  }

  function RetailTexts(tokens: seq<Token>): seq<string> {
    seq(|tokens|, k requires 0 <= k < |tokens| => RetailText(tokens[k]))
  }

  /** The substitutions leave the token alone or are undone by the preprocessor:
      a register's parameter is not called like a quantization register, what is
      not replaced is not called like a parameter, and nothing is changed in
      quotes. */
  predicate Kept(ops: Operands, t: Token) {
    match t
    case Plain(_) => true
    case Word(name) => RegisterOf(ops, name).None? || RegisterOf(ops, name) == Some(name)
    case Local(hex, quoted) => !quoted && RegisterOf(ops, "L_" + hex).None?
    case Register(name, quoted) =>
      var p := ParameterOf(ops, name);
      if p.Some? then (if quoted then p.value == name else !IsGqr(p.value))
      else quoted || RegisterOf(ops, name).None?
    case Gqr(_, quoted) => !quoted
  }

  /** The registers are registers, as block_sequence demands. */
  predicate RegistersValid(ops: Operands) {
    forall k :: 0 <= k < |ops| ==> IsRegister(ops[k].1)
  }

  /** A register some parameter stands for has a parameter. */
  lemma {:induction false} RegisterHasParameter(ops: Operands, parameter: string)
    requires RegisterOf(ops, parameter).Some?
    ensures ParameterOf(ops, RegisterOf(ops, parameter).value).Some?
    ensures RegistersValid(ops) ==> IsRegister(RegisterOf(ops, parameter).value)
  {
    var n := |ops| - 1;
    if ops[n].0 != parameter {
      RegisterHasParameter(ops[..n], parameter);
    }
  }

  /** A word of the macro means its retail text if and only if it is kept. */
  lemma KeptIff(ops: Operands, t: Token)
    requires KeysDistinct(ops) && RegistersValid(ops) && Taken(t)
    ensures Meaning(ops, SpellToken(ops, t)) == RetailText(t) <==> Kept(ops, t)
  {
    hide ParameterOf, RegisterOf, KeysDistinct, RegistersValid;
    match t
    case Plain(_) =>
    case Word(_) =>
    case Local(hex, quoted) =>
      if !quoted && RegisterOf(ops, "L_" + hex).Some? {
        RegisterHasParameter(ops, "L_" + hex);
        assert RetailText(t)[0] == '.';
      } else if quoted {
        assert |RetailText(t)| == 11 && |("L_" + hex)| == 10;
      }
    case Register(name, quoted) =>
      if ParameterOf(ops, name).Some? {
        ParameterHasRegister(ops, name);
      } else if RegisterOf(ops, name).Some? {
        RegisterHasParameter(ops, name);
      }
    case Gqr(number, quoted) =>
      assert ("qr" + number)[2..] == number;
  }

  /** A macro line is the retail instruction, word by word, if and only if all of
      it is kept. */
  lemma SpellingMeansRetailIff(ops: Operands, i: Instruction)
    requires KeysDistinct(ops) && RegistersValid(ops) && WellFormed(i)
    ensures Meanings(ops, Spell(ops, i.tokens)) == RetailTexts(i.tokens)
       <==> forall k :: 0 <= k < |i.tokens| ==> Kept(ops, i.tokens[k])
  {
    hide Kept, Meaning, SpellToken, RetailText, Taken, KeysDistinct, RegistersValid;
    var meant, retail := Meanings(ops, Spell(ops, i.tokens)), RetailTexts(i.tokens);
    forall k | 0 <= k < |i.tokens|
      ensures meant[k] == retail[k] <==> Kept(ops, i.tokens[k])
    {
      KeptIff(ops, i.tokens[k]);
    }
    if forall k :: 0 <= k < |i.tokens| ==> Kept(ops, i.tokens[k]) {
      assert meant == retail;
    }
  }

  /** No word of the macro is a quantization register any more: those of the block
      outside quotes are plain numbers. */
  lemma GqrNumbered(ops: Operands, t: Token)
    requires Taken(t)
    ensures t.Gqr? && !t.quoted ==> SpellToken(ops, t) == Number(t.number)
    ensures forall c: char :: '0' <= c <= '7' ==> SpellToken(ops, t) != Name(['q', 'r', c])
  {
    if t.Gqr? {
      assert ("qr" + t.number)[2..] == t.number;
    }
  }

  // ---- the parameters ----

  /** Parameter k is put in for its register somewhere in the macro. */
  ghost predicate PutIn(s: Sequence, ops: Operands, k: nat)
    requires k < |ops|
  {
    exists i, t :: 0 <= i < |s.instructions| && 0 <= t < |s.instructions[i].tokens|
                && s.instructions[i].tokens[t] == Register(ops[k].1, false)
                && SpellToken(ops, s.instructions[i].tokens[t]) == Name(ops[k].0)
  }

  /** The block names the register outside quotes. */
  ghost predicate UsedPlainly(s: Sequence, register: string) {
    exists i, t :: 0 <= i < |s.instructions| && 0 <= t < |s.instructions[i].tokens|
                && s.instructions[i].tokens[t] == Register(register, false)
  }

  /** Every parameter is put in for its register somewhere if and only if no
      register has two, each is used outside quotes, and no parameter is called
      like a quantization register. */
  lemma ParametersAppearIff(s: Sequence, ops: Operands)
    requires KeysDistinct(ops)
    ensures (forall k :: 0 <= k < |ops| ==> PutIn(s, ops, k))
       <==> && RegistersDistinct(ops)
            && forall k :: 0 <= k < |ops| ==> UsedPlainly(s, ops[k].1) && !IsGqr(ops[k].0)
  {
    hide PutIn, UsedPlainly;
    forall k | 0 <= k < |ops|
      ensures PutIn(s, ops, k)
         <==> UsedPlainly(s, ops[k].1) && ParameterOf(ops, ops[k].1) == Some(ops[k].0) && !IsGqr(ops[k].0)
    {
      PutInIff(s, ops, k);
    }
    if RegistersDistinct(ops) {
      forall k | 0 <= k < |ops|
        ensures ParameterOf(ops, ops[k].1) == Some(ops[k].0)
      {
        MappedRegister(ops, k);
      }
    }
  }

  lemma PutInIff(s: Sequence, ops: Operands, k: nat)
    requires k < |ops|
    ensures PutIn(s, ops, k)
       <==> UsedPlainly(s, ops[k].1) && ParameterOf(ops, ops[k].1) == Some(ops[k].0) && !IsGqr(ops[k].0)
  {
    HasParameter(ops, k);
    if UsedPlainly(s, ops[k].1) && ParameterOf(ops, ops[k].1) == Some(ops[k].0) && !IsGqr(ops[k].0) {
      var i, t :| 0 <= i < |s.instructions| && 0 <= t < |s.instructions[i].tokens|
               && s.instructions[i].tokens[t] == Register(ops[k].1, false);
      assert SpellToken(ops, s.instructions[i].tokens[t]) == Name(ops[k].0);
    }
  }

  lemma {:induction false} HasParameter(ops: Operands, k: nat)
    requires k < |ops|
    ensures ParameterOf(ops, ops[k].1).Some?
  {
    if k < |ops| - 1 {
      HasParameter(ops[..|ops| - 1], k);
    }
  }

  /** The instructions the macro means, in order. */
  function CodeOf(ops: Operands, lines: seq<MacroLine>): seq<seq<string>> {
    if lines == [] then []
    else CodeOf(ops, lines[..|lines| - 1])
         + if lines[|lines| - 1].kind.Code? then [Meanings(ops, lines[|lines| - 1].kind.spelled)] else []
  }

  lemma {:induction false} CodeConcat(ops: Operands, a: seq<MacroLine>, b: seq<MacroLine>)
    ensures CodeOf(ops, a + b) == CodeOf(ops, a) + CodeOf(ops, b)
  {
    hide Meanings;
    if b == [] {
      assert a + b == a;
    } else {
      assert (a + b)[..|a + b| - 1] == a + b[..|b| - 1];
      CodeConcat(ops, a, b[..|b| - 1]);
    }
  }

  lemma CodeOfOne(ops: Operands, line: MacroLine)
    ensures CodeOf(ops, [line]) == if line.kind.Code? then [Meanings(ops, line.kind.spelled)] else []
  {
    assert [line][..0] == [];
  }

  /** The head of LinesFrom: an optional label and one instruction. */
  function HeadLines(s: Sequence, ops: Operands, labels: set<nat>, i: nat): seq<MacroLine>
    requires i < |s.instructions|
  {
    (if s.At(i) in labels then [MacroLine(Label(Hex8(s.At(i))), true)] else [])
    + [MacroLine(Code(Spell(ops, s.instructions[i].tokens)), !(i + 1 == |s.instructions| && s.End() !in labels))]
  }

  lemma HeadCode(s: Sequence, ops: Operands, labels: set<nat>, i: nat)
    requires i < |s.instructions|
    ensures CodeOf(ops, HeadLines(s, ops, labels, i)) == [Meanings(ops, Spell(ops, s.instructions[i].tokens))]
  {
    hide Hex8, Spell, Meanings;
    var head := HeadLines(s, ops, labels, i);
    var tag, code := head[..|head| - 1], head[|head| - 1];
    assert head == tag + [code];
    CodeConcat(ops, tag, [code]);
    CodeOfOne(ops, code);
    if tag != [] {
      CodeOfOne(ops, tag[0]);
    }
  }

  /** What the block's instructions from i on mean as macro lines. */
  function MeantText(s: Sequence, ops: Operands, i: nat): seq<seq<string>>
    requires i <= |s.instructions|
  {
    seq(|s.instructions| - i, k requires 0 <= k < |s.instructions| - i =>
      Meanings(ops, Spell(ops, s.instructions[i + k].tokens)))
  }

  /** One line of code for each instruction, in order. */
  lemma {:induction false} CodeInOrder(s: Sequence, ops: Operands, labels: set<nat>, i: nat)
    requires i <= |s.instructions|
    ensures CodeOf(ops, LinesFrom(s, ops, labels, i)) == MeantText(s, ops, i)
    decreases |s.instructions| - i
  {
    hide Hex8, CodeOf, Spell, Meanings;
    if i < |s.instructions| {
      CodeInOrder(s, ops, labels, i + 1);
      HeadCode(s, ops, labels, i);
      CodeConcat(ops, HeadLines(s, ops, labels, i), LinesFrom(s, ops, labels, i + 1));
      assert MeantText(s, ops, i) == [Meanings(ops, Spell(ops, s.instructions[i].tokens))] + MeantText(s, ops, i + 1);
    } else {
      NoCode(s, ops, labels);
    }
  }

  lemma NoCode(s: Sequence, ops: Operands, labels: set<nat>)
    ensures CodeOf(ops, LinesFrom(s, ops, labels, |s.instructions|)) == []
  {
    hide Hex8;
    CodeOfOne(ops, MacroLine(Label(Hex8(s.End())), false));
  }

  /** Every line but the last is continued, so the macro is one definition. */
  lemma {:induction false} ContinuedToTheEnd(s: Sequence, ops: Operands, labels: set<nat>, i: nat)
    requires i < |s.instructions| || s.End() in labels
    requires i <= |s.instructions|
    ensures var lines := LinesFrom(s, ops, labels, i);
            |lines| > 0 && forall j :: 0 <= j < |lines| ==> lines[j].continued == (j < |lines| - 1)
    decreases |s.instructions| - i
  {
    hide Hex8;
    if i < |s.instructions| {
      var head, rest := HeadLines(s, ops, labels, i), LinesFrom(s, ops, labels, i + 1);
      assert LinesFrom(s, ops, labels, i) == head + rest;
      if i + 1 < |s.instructions| || s.End() in labels {
        ContinuedToTheEnd(s, ops, labels, i + 1);
      } else {
        assert rest == [];
      }
    }
  }

  /** The retail texts of the block's instructions. */
  function BlockText(s: Sequence): seq<seq<string>> {
    seq(|s.instructions|, k requires 0 <= k < |s.instructions| => RetailTexts(s.instructions[k].tokens))
  }

  ghost predicate AllKept(s: Sequence, ops: Operands) {
    forall i, k :: 0 <= i < |s.instructions| && 0 <= k < |s.instructions[i].tokens| ==>
      Kept(ops, s.instructions[i].tokens[k])
  }

  /** The registers, in the order of the dictionary: the arguments of the macro. */
  function Registers(ops: Operands): seq<string> {
    seq(|ops|, k requires 0 <= k < |ops| => ops[k].1)
  }

  /** The preprocessor binds argument k to the parameter that the macro's first
      line declares k-th. */
  function Bindings(parameters: seq<string>, arguments: seq<string>): Operands
    requires |parameters| == |arguments|
  {
    seq(|parameters|, k requires 0 <= k < |parameters| => (parameters[k], arguments[k]))
  }

  /** Invoked with the registers as arguments, the macro is the code of the block,
      instruction by instruction and word by word, if and only if all is kept. */
  lemma MacroCodeIff(s: Sequence, ops: Operands)
    requires AllWellFormed(s) && KeysDistinct(ops) && RegistersValid(ops)
    ensures var lines := Macro(s, ops);
            && |lines| > 0 && lines[0].kind.Define? && lines[0].kind.name == "SEQ_" + s.name
            && |lines[0].kind.parameters| == |Registers(ops)|
            && (CodeOf(Bindings(lines[0].kind.parameters, Registers(ops)), lines) == BlockText(s) <==> AllKept(s, ops))
  {
    hide Spell, Meanings, RetailTexts, Kept, KeysDistinct, RegistersValid, WellFormed, LinesFrom;
    assert Bindings(Parameters(ops), Registers(ops)) == ops;
    MacroMeans(s, ops);
    CodeIsBlockIff(s, ops);
  }

  lemma CodeIsBlockIff(s: Sequence, ops: Operands)
    requires AllWellFormed(s) && KeysDistinct(ops) && RegistersValid(ops)
    ensures MeantText(s, ops, 0) == BlockText(s) <==> AllKept(s, ops)
  {
    hide Spell, Meanings, RetailTexts, Kept, KeysDistinct, RegistersValid, WellFormed;
    var meant, retail := MeantText(s, ops, 0), BlockText(s);
    forall i | 0 <= i < |s.instructions|
      ensures meant[i] == retail[i]
         <==> forall k :: 0 <= k < |s.instructions[i].tokens| ==> Kept(ops, s.instructions[i].tokens[k])
    {
      SpellingMeansRetailIff(ops, s.instructions[i]);
    }
    if AllKept(s, ops) {
      assert meant == retail;
    }
  }

  lemma MacroMeans(s: Sequence, ops: Operands)
    requires AllWellFormed(s)
    ensures CodeOf(ops, Macro(s, ops)) == MeantText(s, ops, 0)
  {
    hide CodeOf, LabelAt, MeantText, LinesFrom;
    var define := MacroLine(Define("SEQ_" + s.name, Parameters(ops)), true);
    CodeConcat(ops, [define], LinesFrom(s, ops, LabelAt(s), 0));
    CodeOfOne(ops, define);
    CodeInOrder(s, ops, LabelAt(s), 0);
  }

  /** A parameter called like a quantization register is accepted, but put in
      nowhere: the instruction is left with a number for its register. */
  lemma GqrParameterLost()
    ensures var load := Instruction(0, [Word("lwz"), Plain(" "), Register("r4", false), Plain(", 0("),
                                        Register("r3", false), Plain(")")]);
            var s := Sequence("f", 0, [load]);
            var ops := [("qr1", "r3")];
            && GoodOperands(ops, s) && KeysDistinct(ops) && WellFormed(load)
            && SpellToken(ops, load.tokens[4]) == Number("1") && !PutIn(s, ops, 0) && !AllKept(s, ops)
  {
    var load := Instruction(0, [Word("lwz"), Plain(" "), Register("r4", false), Plain(", 0("),
                                Register("r3", false), Plain(")")]);
    var s := Sequence("f", 0, [load]);
    UsedAt(s, 0, 4);
    assert ParameterOf([("qr1", "r3")], "r3") == Some("qr1");
    assert !Kept([("qr1", "r3")], s.instructions[0].tokens[4]);
  }

  /** So is one called like a register of the block; then that is replaced too. */
  lemma RegisterTakenTwice()
    ensures var add := Instruction(0, [Word("add"), Plain(" "), Register("r3", false), Plain(", "),
                                       Register("r4", false), Plain(", "), Register("r5", false)]);
            var s := Sequence("f", 0, [add]);
            var ops := [("r4", "r3")];
            && GoodOperands(ops, s) && KeysDistinct(ops) && WellFormed(add)
            && Meanings(ops, Spell(ops, add.tokens)) == ["add", " ", "r3", ", ", "r3", ", ", "r5"]
            && !AllKept(s, ops)
  {
    var add := Instruction(0, [Word("add"), Plain(" "), Register("r3", false), Plain(", "),
                               Register("r4", false), Plain(", "), Register("r5", false)]);
    var s := Sequence("f", 0, [add]);
    UsedAt(s, 0, 2);
    assert !Kept([("r4", "r3")], s.instructions[0].tokens[4]);
  }

  lemma UsedAt(s: Sequence, i: nat, k: nat)
    requires i < |s.instructions| && k < |s.instructions[i].tokens| && s.instructions[i].tokens[k].Register?
    ensures s.instructions[i].tokens[k].name in Used(s)
  {
    assert s.instructions[i].tokens[k].name in RegistersOf(s.instructions[i]);
  }

  /** The whole macro is one definition: every line but the last is continued. */
  lemma MacroContinued(s: Sequence, ops: Operands)
    requires AllWellFormed(s) && s.instructions != []
    ensures var lines := Macro(s, ops);
            forall j :: 0 <= j < |lines| ==> lines[j].continued == (j < |lines| - 1)
  {
    hide LabelAt, LinesFrom;
    ContinuedToTheEnd(s, ops, LabelAt(s), 0);
  }

  // ---- the labels ----

  /** Names and addresses of the labels, when the first line stands at `at` and
      each instruction takes four bytes. */
  function LabelsOf(lines: seq<MacroLine>, at: nat): seq<(string, nat)> {
    if lines == [] then []
    else
      match lines[0].kind
      case Define(_, _) => LabelsOf(lines[1..], at)
      case Label(name) => [(name, at)] + LabelsOf(lines[1..], at)
      case Code(_) => LabelsOf(lines[1..], at + 4)
  }

  /** The labels wanted from instruction i on: one per target on a word boundary. */
  function WantedLabels(s: Sequence, labels: set<nat>, i: nat): seq<(string, nat)>
    requires i <= |s.instructions|
    decreases |s.instructions| - i
  {
    (if s.At(i) in labels then [(Hex8(s.At(i)), s.At(i))] else [])
    + if i == |s.instructions| then [] else WantedLabels(s, labels, i + 1)
  }

  lemma {:induction false} LabelsStandRight(s: Sequence, ops: Operands, labels: set<nat>, i: nat)
    requires i <= |s.instructions|
    ensures LabelsOf(LinesFrom(s, ops, labels, i), s.At(i)) == WantedLabels(s, labels, i)
    decreases |s.instructions| - i
  {
    hide Hex8;
    var lines := LinesFrom(s, ops, labels, i);
    if i < |s.instructions| {
      LabelsStandRight(s, ops, labels, i + 1);
      var rest := LinesFrom(s, ops, labels, i + 1);
      if s.At(i) in labels {
        assert lines[1..][1..] == rest;
      } else {
        assert lines[1..] == rest;
      }
    } else if lines != [] {
      assert lines[1..] == [];
    }
  }

  lemma {:induction false} WantedExactly(s: Sequence, labels: set<nat>, i: nat, name: string, v: nat)
    requires i <= |s.instructions|
    ensures (name, v) in WantedLabels(s, labels, i)
       <==> name == Hex8(v) && v in labels && s.At(i) <= v <= s.End() && (v - s.At(i)) % 4 == 0
    decreases |s.instructions| - i
  {
    hide Hex8;
    if i < |s.instructions| {
      WantedExactly(s, labels, i + 1, name, v);
      NextWord(s, i, v);
      WantedStep(s, labels, i);
    }
  }

  lemma NextWord(s: Sequence, i: nat, v: nat)
    requires i < |s.instructions|
    ensures s.At(i) <= v <= s.End() && (v - s.At(i)) % 4 == 0
       <==> v == s.At(i) || (s.At(i + 1) <= v <= s.End() && (v - s.At(i + 1)) % 4 == 0)
  {
    var d := v - s.At(i);
    assert s.At(i + 1) == s.At(i) + 4 && v - s.At(i + 1) == d - 4;
    if 0 <= d < 4 {
      assert d % 4 == 0 <==> d == 0;
    }
  }

  /** No two labels have the same address, or the same name. */
  ghost predicate Distinct(labels: seq<(string, nat)>) {
    forall j, k :: 0 <= j < k < |labels| ==> labels[j].1 < labels[k].1 && labels[j].0 != labels[k].0
  }

  lemma PrependDistinct(first: (string, nat), rest: seq<(string, nat)>)
    requires Distinct(rest)
    requires forall k :: 0 <= k < |rest| ==> first.1 < rest[k].1 && first.0 != rest[k].0
    ensures Distinct([first] + rest)
  {
    var w := [first] + rest;
    forall j, k | 0 <= j < k < |w|
      ensures w[j].1 < w[k].1 && w[j].0 != w[k].0
    {
      assert w[k] == rest[k - 1];
      if j > 0 {
        assert w[j] == rest[j - 1];
      }
    }
  }

  lemma {:induction false} WantedDistinct(s: Sequence, labels: set<nat>, i: nat)
    requires i <= |s.instructions| && s.End() < SPACE32
    ensures Distinct(WantedLabels(s, labels, i))
    decreases |s.instructions| - i
  {
    hide Hex8, Distinct, WantedLabels;
    if i == |s.instructions| {
      WantedLast(s, labels);
    } else {
      WantedDistinct(s, labels, i + 1);
      WantedStep(s, labels, i);
      var rest := WantedLabels(s, labels, i + 1);
      if s.At(i) in labels {
        forall k | 0 <= k < |rest|
          ensures s.At(i) < rest[k].1 && Hex8(s.At(i)) != rest[k].0
        {
          LaterLabel(s, labels, i, rest[k].0, rest[k].1);
        }
        PrependDistinct((Hex8(s.At(i)), s.At(i)), rest);
      }
    }
  }

  lemma LaterLabel(s: Sequence, labels: set<nat>, i: nat, name: string, v: nat)
    requires i < |s.instructions| && s.End() < SPACE32 && (name, v) in WantedLabels(s, labels, i + 1)
    ensures s.At(i) < v && Hex8(s.At(i)) != name
  {
    hide Hex8, WantedLabels;
    WantedExactly(s, labels, i + 1, name, v);
    AddressParsed(s.At(i));
    AddressParsed(v);
  }

  lemma WantedLast(s: Sequence, labels: set<nat>)
    ensures Distinct(WantedLabels(s, labels, |s.instructions|))
  {
    hide Hex8;
  }

  lemma WantedStep(s: Sequence, labels: set<nat>, i: nat)
    requires i < |s.instructions|
    ensures WantedLabels(s, labels, i)
         == if s.At(i) in labels then [(Hex8(s.At(i)), s.At(i))] + WantedLabels(s, labels, i + 1)
            else WantedLabels(s, labels, i + 1)
  {
    hide Hex8;
  }

  /** How often a label is defined in the macro. */
  function Definitions(labels: seq<(string, nat)>, name: string): nat {
    if labels == [] then 0
    else Definitions(labels[..|labels| - 1], name) + if labels[|labels| - 1].0 == name then 1 else 0
  }

  lemma {:induction false} DefinedOnce(labels: seq<(string, nat)>, name: string)
    requires Distinct(labels)
    ensures Definitions(labels, name) == if exists j :: 0 <= j < |labels| && labels[j].0 == name then 1 else 0
  {
    if labels != [] {
      var n := |labels| - 1;
      DefinedOnce(labels[..n], name);
      if labels[n].0 == name {
        assert Definitions(labels[..n], name) == 0;
      } else if exists j :: 0 <= j < |labels| && labels[j].0 == name {
        var j :| 0 <= j < |labels| && labels[j].0 == name;
        assert labels[..n][j].0 == name;
      }
    }
  }

  lemma CanonicalPrints(h: string)
    requires |h| == 8 && AllHex(h)
    ensures Hex8(HexValue(h)) == h <==> Canonical(h)
  {
    HexRoundTrip(h);
    if Canonical(h) {
      assert Hex8(HexValue(h)) == h;
    }
  }

  /** The labels of the macro, with the addresses they mark. */
  function MacroLabels(s: Sequence, ops: Operands): seq<(string, nat)>
    requires AllWellFormed(s)
  {
    LabelsOf(Macro(s, ops), s.address)
  }

  lemma MacroLabelsWanted(s: Sequence, ops: Operands)
    requires AllWellFormed(s)
    ensures MacroLabels(s, ops) == WantedLabels(s, LabelAt(s), 0)
  {
    hide WantedLabels, LabelAt;
    assert Macro(s, ops)[1..] == LinesFrom(s, ops, LabelAt(s), 0);
    LabelsStandRight(s, ops, LabelAt(s), 0);
  }

  /** Some instruction of the block names the address as a local target. */
  ghost predicate Targeted(s: Sequence, v: nat)
    requires AllWellFormed(s)
  {
    exists i, k :: 0 <= i < |s.instructions| && 0 <= k < |s.instructions[i].tokens|
                && TokenNames(s.instructions[i].tokens[k], v)
  }

  predicate TokenNames(t: Token, v: nat) {
    t.Local? && AllHex(t.hex) && HexValue(t.hex) == v
  }

  lemma LabelAtIff(s: Sequence, v: nat)
    requires AllWellFormed(s)
    ensures v in LabelAt(s) <==> Targeted(s, v)
  {
    hide HexValue;
    if v in LabelAt(s) {
      var i :| 0 <= i < |s.instructions| && v in TargetsOf(s.instructions[i].tokens);
      var k :| 0 <= k < |s.instructions[i].tokens| && s.instructions[i].tokens[k].Local?
               && HexValue(s.instructions[i].tokens[k].hex) == v;
      assert TokenNames(s.instructions[i].tokens[k], v);
    }
    if Targeted(s, v) {
      var i, k :| 0 <= i < |s.instructions| && 0 <= k < |s.instructions[i].tokens|
                  && TokenNames(s.instructions[i].tokens[k], v);
      assert WellFormed(s.instructions[i]);
      assert v in TargetsOf(s.instructions[i].tokens);
    }
  }

  /** The macro defines a label exactly once if it is the upper-case spelling of a
      local target of the block that is on a word boundary in the block or at its
      end, and otherwise not at all. */
  lemma MacroLabelIff(s: Sequence, ops: Operands, name: string)
    requires AllWellFormed(s) && s.End() < SPACE32 && |name| == 8 && AllHex(name)
    ensures var v := HexValue(name);
            var good := Targeted(s, v) && s.address <= v <= s.End() && (v - s.address) % 4 == 0 && Canonical(name);
            && Definitions(MacroLabels(s, ops), name) == (if good then 1 else 0)
            && (good ==> (name, v) in MacroLabels(s, ops))
  {
    hide Hex8, MacroLabels, WantedLabels, LabelAt, Canonical, HexValue, Distinct, Definitions, AllWellFormed, Targeted;
    LabelAtIff(s, HexValue(name));
    var labels := MacroLabels(s, ops);
    MacroLabelsWanted(s, ops);
    WantedDistinct(s, LabelAt(s), 0);
    DefinedOnce(labels, name);
    WantedExactly(s, LabelAt(s), 0, name, HexValue(name));
    CanonicalPrints(name);
    if exists j :: 0 <= j < |labels| && labels[j].0 == name {
      var j :| 0 <= j < |labels| && labels[j].0 == name;
      assert labels[j] in labels;
      WantedExactly(s, LabelAt(s), 0, name, labels[j].1);
      AddressParsed(labels[j].1);
    }
  }

  /** A local target written in a block resolves to a label if and only if it is
      an address of the block on a word boundary, or its end, and its digits are
      upper case; the label is then defined once, at the retail address. */
  lemma TargetResolvesIff(s: Sequence, ops: Operands, i: nat, k: nat)
    requires AllWellFormed(s) && s.End() < SPACE32
    requires i < |s.instructions| && k < |s.instructions[i].tokens| && s.instructions[i].tokens[k].Local?
    ensures WellFormed(s.instructions[i])
    ensures var h := s.instructions[i].tokens[k].hex;
            var v := HexValue(h);
            var good := s.address <= v <= s.End() && (v - s.address) % 4 == 0 && Canonical(h);
            && Definitions(MacroLabels(s, ops), h) == (if good then 1 else 0)
            && (good ==> (h, v) in MacroLabels(s, ops))
  {
    assert WellFormed(s.instructions[i]);
    var h := s.instructions[i].tokens[k].hex;
    assert Taken(s.instructions[i].tokens[k]) && TokenNames(s.instructions[i].tokens[k], HexValue(h));
    MacroLabelIff(s, ops, h);
  }

  /** A branch to itself whose target is spelled in lower case: the label the
      macro refers to is not defined. */
  lemma LowerCaseUnresolved()
    ensures var h := ['0', '0', '0', '0', '0', '0', '0', 'c'];
            var s := Sequence("f", 12, [Instruction(0, [Word("b"), Plain(" "), Local(h, false)])]);
            AllWellFormed(s) && HexValue(h) == s.address && Definitions(MacroLabels(s, []), h) == 0
  {
    var h := ['0', '0', '0', '0', '0', '0', '0', 'c'];
    var s := Sequence("f", 12, [Instruction(0, [Word("b"), Plain(" "), Local(h, false)])]);
    assert h[7] == 'c' && Upper('c') == 'C' && !Canonical(h);
    ZerosAre(h[..7]);
    assert HexValue(h) == 16 * HexValue(h[..7]) + 12;
    hide HexValue, MacroLabels, Definitions, Canonical;
    TargetResolvesIff(s, [], 0, 2);
  }

  lemma {:induction false} ZerosAre(h: string)
    requires forall i :: 0 <= i < |h| ==> h[i] == '0'
    ensures AllHex(h) && HexValue(h) == 0
  {
    if h != [] {
      ZerosAre(h[..|h| - 1]);
    }
  }

  /** For an accepted block, a local branch resolves as soon as its target is
      word-aligned and spelled in upper case. */
  lemma BranchResolves(p: Patterns, s: Sequence, ops: Operands, text: bool, i: nat)
    requires AllWellFormed(s) && s.End() < SPACE32 && s.address % 4 == 0 && StaysInside(p, ops, text, s)
    requires i < |s.instructions| && p.LocalBranch(s.instructions[i])
    ensures WellFormed(s.instructions[i])
    ensures var h := s.instructions[i].Last().hex;
            HexValue(h) % 4 == 0 && Canonical(h) ==>
              Definitions(MacroLabels(s, ops), h) == 1 && (h, HexValue(h)) in MacroLabels(s, ops)
  {
    hide HexValue, Canonical, MacroLabels, Definitions, StaysInside;
    BranchTargetInside(p, s, ops, text, i);
    TargetResolvesIff(s, ops, i, |s.instructions[i].tokens| - 1);
  }

  lemma BranchTargetInside(p: Patterns, s: Sequence, ops: Operands, text: bool, i: nat)
    requires AllWellFormed(s) && StaysInside(p, ops, text, s)
    requires i < |s.instructions| && p.LocalBranch(s.instructions[i])
    ensures WellFormed(s.instructions[i])
    ensures s.address <= HexValue(s.instructions[i].Last().hex) <= s.End()
  {
    assert Stays(p, ops, text, s, i);
  }
}
