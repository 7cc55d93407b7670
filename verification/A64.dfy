/** The few A64 instructions the DeviceTree probe's program is made of (Arm DDI 0487 section
    C6.2), run at EL1 with every access translated by walking the probe's tables. */
module A64 {
  import opened Accesses
  import opened Uefi
  import opened Bits
  import opened Bytes
  import opened Granules
  import opened TableEntries
  import opened TableWalk

  const RAM_PA: nat := 0x1000_0000
  const WORD: nat := 0x1_0000_0000

  type reg = r: nat | r < 31
  type imm12 = i: nat | i < 4096
  type imm16 = i: nat | i < 65536

  // Immediates as encoded: loads and stores scale theirs by four.
  datatype Instr =
    | AddImm(rd: reg, rn: reg, imm: imm12)
    | Ldr32(rt: reg, rn: reg, imm: imm12)
    | Str32(rt: reg, rn: reg, imm: imm12)
    | Movz32(rd: reg, value: imm16)
    | Hlt(code: imm16)
    | Unmodelled

  // ----- encodings

  function Encoding(i: Instr): nat {
    match i
    case AddImm(rd, rn, imm) => 0x9100_0000 + 1024 * imm + 32 * rn + rd
    case Ldr32(rt, rn, imm) => 0xb940_0000 + 1024 * imm + 32 * rn + rt
    case Str32(rt, rn, imm) => 0xb900_0000 + 1024 * imm + 32 * rn + rt
    case Movz32(rd, value) => 0x5280_0000 + 32 * value + rd
    case Hlt(code) => 0xd440_0000 + 32 * code
    case Unmodelled => 0
  }

  function Decode(w: nat): Instr {
    var rd, rn, imm, value := w % 32, w / 32 % 32, w / 1024 % 4096, w / 32 % 65536;
    if rd == 31 then Unmodelled
    else if w / 0x20_0000 == 0x294 then Movz32(rd, value)
    else if w / 0x20_0000 == 0x6a2 && rd == 0 then Hlt(value)
    else if rn == 31 then Unmodelled
    else if w / 0x40_0000 == 0x244 then AddImm(rd, rn, imm)
    else if w / 0x40_0000 == 0x2e5 then Ldr32(rd, rn, imm)
    else if w / 0x40_0000 == 0x2e4 then Str32(rd, rn, imm)
    else Unmodelled
  }

  lemma DecodeEncoding(i: Instr)
    requires i != Unmodelled
    ensures Encoding(i) < WORD && Decode(Encoding(i)) == i
  {
    var w := Encoding(i);
    match i
    case AddImm(rd, rn, imm) => Fields(w, 0x244, imm, rn, rd);
    case Ldr32(rt, rn, imm) => Fields(w, 0x2e5, imm, rn, rt);
    case Str32(rt, rn, imm) => Fields(w, 0x2e4, imm, rn, rt);
    case Movz32(rd, value) => WideFields(w, 0x294, value, rd);
    case Hlt(code) => WideFields(w, 0x6a2, code, 0);
  }

  lemma WideFields(w: nat, op: nat, value: imm16, rd: reg)
    requires w == 0x20_0000 * op + 32 * value + rd
    ensures w / 0x20_0000 == op && w / 32 % 65536 == value && w % 32 == rd
  {
    RemainderOf(w, 0x20_0000, op, 32 * value + rd);
    RemainderOf(w, 32, 65536 * op + value, rd);
    RemainderOf(65536 * op + value, 65536, op, value);
  }

  lemma Fields(w: nat, op: nat, imm: imm12, rn: reg, rt: reg)
    requires w == 0x40_0000 * op + 1024 * imm + 32 * rn + rt
    ensures w / 0x40_0000 == op && w / 1024 % 4096 == imm && w / 32 % 32 == rn && w % 32 == rt
    ensures w / 0x20_0000 / 2 == op
  {
    RemainderOf(w, 0x40_0000, op, 1024 * imm + 32 * rn + rt);
    RemainderOf(w, 0x20_0000, 2 * op + imm / 2048, 1024 * imm + 32 * rn + rt - 0x20_0000 * (imm / 2048));
    RemainderOf(w, 1024, 4096 * op + imm, 32 * rn + rt);
    RemainderOf(4096 * op + imm, 4096, op, imm);
    RemainderOf(w, 32, 32 * (4096 * op + imm) + rn, rt);
    RemainderOf(32 * (4096 * op + imm) + rn, 32, 4096 * op + imm, rn);
  }

  // ----- translation

  // The address sizes the probe programs: 48 bits, or 47 with the 16 KiB granule.
  predicate InRange(g: nat, va: u64) {
    var size := if g == 16384 then 0x8000_0000_0000 else 0x1_0000_0000_0000;
    va < size || U64_MAX - size < va
  }

  // All bits above the address size are the same.
  lemma RangeMeans(g: nat, va: u64)
    requires IsGranule(g)
    ensures g == 4096 ==> (InRange(g, va) <==> va / 0x1_0000_0000_0000 == 0 || va / 0x1_0000_0000_0000 == 0xffff)
    ensures g == 16384 ==> (InRange(g, va) <==> va / 0x8000_0000_0000 == 0 || va / 0x8000_0000_0000 == 0x1_ffff)
  {
  }

  // A level 3 descriptor, under tables that set no hierarchical bits, lets EL1 through: a page,
  // accessed before, writable for a store, executable for a fetch.
  predicate Grants(d: u64, access: Access) {
    && d % 4 == 3
    && d / 1024 % 2 == 1
    && (access.Store? ==> d / 128 % 2 == 0)
    && (access.Fetch? ==> d / 0x20_0000_0000_0000 % 2 == 0)
  }

  function Translate(tables: seq<byte>, g: nat, va: u64, access: Access): Option<nat>
    requires IsGranule(g)
  {
    if !InRange(g, va) then None
    else
      match WalkVa(tables, g, va)
      case Fault(_) => None
      case Leaf(d, _, _) => if Grants(d, access) then Some(And(d, AddressMask(g)) + va % g) else None
  }

  // Where in RAM an aligned word access lands; RAM is all there is apart from the tables.
  function RamWord(tables: seq<byte>, g: nat, size: nat, va: u64, access: Access): (at: Option<nat>)
    requires IsGranule(g)
    ensures at.Some? ==> at.value + 4 <= size
  {
    if va % 4 != 0 then None
    else
      match Translate(tables, g, va, access)
      case None => None
      case Some(pa) => if RAM_PA <= pa && pa + 4 <= RAM_PA + size then Some(pa - RAM_PA) else None
  }

  // ----- the machine

  type Registers = s: seq<u64> | |s| == 31 witness seq(31, _ => 0)

  datatype Condition = Running | Halted | Faulted(far: u64)

  datatype Machine = Machine(x: Registers, pc: u64, ram: seq<byte>, retired: nat,
                             fetches: nat, requests: nat, completed: nat, condition: Condition)

  function Wrap(n: nat): u64 {
    n % 0x1_0000_0000_0000_0000
  }

  function Retire(m: Machine): Machine {
    m.(pc := Wrap(m.pc + 4), retired := m.retired + 1)
  }

  function Perform(tables: seq<byte>, g: nat, m: Machine, i: Instr): Machine
    requires IsGranule(g)
  {
    match i
    case AddImm(rd, rn, imm) => Retire(m.(x := m.x[rd := Wrap(m.x[rn] + imm)]))
    case Ldr32(rt, rn, imm) =>
      var va := Wrap(m.x[rn] + 4 * imm);
      var asked := m.(requests := m.requests + 1);
      (match RamWord(tables, g, |m.ram|, va, Load)
       case None => asked.(condition := Faulted(va))
       case Some(at) => Retire(asked.(x := m.x[rt := LoadWord(m.ram, at)], completed := m.completed + 1)))
    case Str32(rt, rn, imm) =>
      var va := Wrap(m.x[rn] + 4 * imm);
      var asked := m.(requests := m.requests + 1);
      (match RamWord(tables, g, |m.ram|, va, Store)
       case None => asked.(condition := Faulted(va))
       case Some(at) => Retire(asked.(ram := Put(m.ram, at, ToLe(m.x[rt] % WORD, 4)), completed := m.completed + 1)))
    case Movz32(rd, value) => Retire(m.(x := m.x[rd := value]))
    case Hlt(_) => Retire(m).(condition := Halted)
    case Unmodelled => m.(condition := Faulted(m.pc))
  }

  function LoadWord(ram: seq<byte>, at: nat): (w: u64)
    requires at + 4 <= |ram|
    ensures w < WORD
  {
    Pow256Values();
    Le(ram[at..at + 4])
  }

  function Step(tables: seq<byte>, g: nat, m: Machine): Machine
    requires IsGranule(g)
  {
    if m.condition != Running then m
    else
      var fetching := m.(fetches := m.fetches + 1);
      match RamWord(tables, g, |m.ram|, m.pc, Fetch)
      case None => fetching.(condition := Faulted(m.pc))
      case Some(at) => Perform(tables, g, fetching, Decode(LoadWord(m.ram, at)))
  }

  function Steps(tables: seq<byte>, g: nat, m: Machine, n: nat): Machine
    requires IsGranule(g)
  {
    if n == 0 then m else Step(tables, g, Steps(tables, g, m, n - 1))
  }

  // A machine that has stopped stays as it is.
  lemma {:induction false} StoppedStays(tables: seq<byte>, g: nat, m: Machine, k: nat, n: nat)
    requires IsGranule(g) && k <= n && Steps(tables, g, m, k).condition != Running
    ensures Steps(tables, g, m, n) == Steps(tables, g, m, k)
  {
    hide Perform, RamWord;
    if k < n {
      StoppedStays(tables, g, m, k, n - 1);
    }
  }
}
