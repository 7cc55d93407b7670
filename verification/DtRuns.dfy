/** Running the probe's program: whatever the memory holds and wherever the value lies, the
    machine copies word after word until a load fails to translate or the program halts. */
module DtRuns {
  import opened Accesses
  import opened Uefi
  import opened Bits
  import opened Bytes
  import opened Granules
  import opened A64
  import opened DtProgram

  // Byte offsets in RAM of the code, the tree and the output, seen by the program at
  // base + offset.
  datatype Placement = Placement(base: u64, code: nat, dt: nat, output: nat, valueOffset: nat)

  predicate Fits(p: Placement, size: nat) {
    && Accepts(p.valueOffset)
    && p.base + size <= U64_MAX && p.base + p.dt + 16384 <= U64_MAX
    && p.code + 64 <= size && p.output + 28 <= size
    && (p.code + 64 <= p.output || p.output + 28 <= p.code)
  }

  // The code can be fetched and the output written, where base + offset leads to that offset.
  ghost predicate Ready(tables: seq<byte>, g: nat, size: nat, p: Placement) {
    && IsGranule(g) && Fits(p, size)
    && (forall k: nat :: k < 16 ==> RamWord(tables, g, size, p.base + p.code + 4 * k, Fetch) == Some(p.code + 4 * k))
    && (forall i: nat :: i < 7 ==> RamWord(tables, g, size, p.base + p.output + 4 * i, Store) == Some(p.output + 4 * i))
  }

  lemma ReadyFits(tables: seq<byte>, g: nat, size: nat, p: Placement)
    requires Ready(tables, g, size, p)
    ensures IsGranule(g) && Fits(p, size)
  {
  }

  lemma CanFetch(tables: seq<byte>, g: nat, size: nat, p: Placement, k: nat)
    requires Ready(tables, g, size, p) && k < 16
    ensures IsGranule(g) && RamWord(tables, g, size, p.base + p.code + 4 * k, Fetch) == Some(p.code + 4 * k)
  {
    hide RamWord;
  }

  lemma CanStore(tables: seq<byte>, g: nat, size: nat, p: Placement, i: nat)
    requires Ready(tables, g, size, p) && i < 7
    ensures IsGranule(g) && RamWord(tables, g, size, p.base + p.output + 4 * i, Store) == Some(p.output + 4 * i)
  {
    hide RamWord;
  }

  function Origin(p: Placement, i: nat): nat {
    p.dt + Source(p.valueOffset, i)
  }

  predicate CanLoad(tables: seq<byte>, g: nat, size: nat, p: Placement, i: nat)
    requires IsGranule(g) && Fits(p, size) && i < 6
  {
    RamWord(tables, g, size, p.base + Origin(p, i), Load) == Some(Origin(p, i))
  }

  predicate InRam(p: Placement, size: nat, n: nat) {
    forall i :: 0 <= i < n ==> Origin(p, i) + 4 <= size
  }

  // Before the first instruction.
  predicate Initial(m: Machine, p: Placement) {
    && m.condition == Running
    && Fits(p, |m.ram|)
    && m.pc == p.base + p.code && m.x[0] == p.base + p.dt && m.x[1] == p.base + p.output
    && m.retired == m.fetches == m.requests == m.completed == 0
    && HoldsProgram(m.ram, p)
  }

  predicate HoldsProgram(ram: seq<byte>, p: Placement)
    requires Fits(p, |ram|)
  {
    ram[p.code..p.code + 64] == Pack(ProgramWords(p.valueOffset))
  }

  // RAM after n words have been copied one after the other.
  function Copied(ram: seq<byte>, p: Placement, n: nat): (r: seq<byte>)
    requires n <= 6 && Fits(p, |ram|) && InRam(p, |ram|, n)
    ensures |r| == |ram|
  {
    if n == 0 then ram
    else
      var before := Copied(ram, p, n - 1);
      Put(before, p.output + 4 * (n - 1), before[Origin(p, n - 1)..Origin(p, n - 1) + 4])
  }

  // The machine after n words have been copied.
  function AfterCopies(m: Machine, p: Placement, n: nat): Machine
    requires n <= 6 && Fits(p, |m.ram|) && InRam(p, |m.ram|, n)
  {
    var x := if n == 0 then m.x
             else m.x[2 := LoadWord(Copied(m.ram, p, n - 1), Origin(p, n - 1))];
    m.(x := x, pc := p.base + p.code + 4 * (1 + 2 * n), ram := Copied(m.ram, p, n), retired := 1 + 2 * n,
       fetches := 1 + 2 * n, requests := 2 * n, completed := 2 * n)
  }

  // Between the load and the store of the next copy.
  function AfterLoad(m: Machine, p: Placement, n: nat): Machine
    requires n < 6 && Fits(p, |m.ram|) && InRam(p, |m.ram|, n + 1)
  {
    var ram := Copied(m.ram, p, n);
    m.(x := m.x[2 := LoadWord(ram, Origin(p, n))], pc := p.base + p.code + 4 * (2 + 2 * n), ram := ram,
       retired := 2 + 2 * n, fetches := 2 + 2 * n, requests := 2 * n + 1, completed := 2 * n + 1)
  }

  // At a load that does not translate.
  function AfterFault(m: Machine, p: Placement, n: nat): Machine
    requires n < 6 && Fits(p, |m.ram|) && InRam(p, |m.ram|, n)
  {
    var s := AfterCopies(m, p, n);
    s.(fetches := s.fetches + 1, requests := s.requests + 1, condition := Faulted(Wrap(p.base + Origin(p, n))))
  }

  function AfterHalt(m: Machine, p: Placement): Machine
    requires Fits(p, |m.ram|) && InRam(p, |m.ram|, 6)
  {
    m.(x := m.x[2 := MARKER], pc := p.base + p.code + 64,
       ram := Put(Copied(m.ram, p, 6), p.output + 24, ToLe(MARKER, 4)),
       retired := 16, fetches := 16, requests := 13, completed := 13, condition := Halted)
  }

  // ----- one instruction

  // Writes to the output leave the code alone.
  lemma {:induction false} CodeStays(ram: seq<byte>, p: Placement, n: nat)
    requires n <= 6 && Fits(p, |ram|) && InRam(p, |ram|, n) && HoldsProgram(ram, p)
    ensures HoldsProgram(Copied(ram, p, n), p)
  {
    hide Origin, Pack, ProgramWords;
    if n > 0 {
      CodeStays(ram, p, n - 1);
      var before, at := Copied(ram, p, n - 1), Origin(p, n - 1);
      PutElsewhere(before, p.output + 4 * (n - 1), before[at..at + 4], p.code, p.code + 64);
    }
  }

  lemma CodeWord(ram: seq<byte>, p: Placement, k: nat)
    requires k < 16 && Fits(p, |ram|) && HoldsProgram(ram, p)
    ensures A64.Decode(LoadWord(ram, p.code + 4 * k)) == Instruction(p.valueOffset, k)
  {
    hide Pack, Instruction, A64.Encoding, A64.Decode, Bytes.ToLe, Bytes.Le;
    var words := ProgramWords(p.valueOffset);
    PackAt(words, k);
    DecodeEncoding(Instruction(p.valueOffset, k));
    Pow256Values();
    LeOfToLe(words[k], 4);
    SliceOfSlice(ram, p.code, p.code + 64, 4 * k, 4 * k + 4);
  }

  lemma SliceOfSlice(s: seq<byte>, lo: nat, hi: nat, a: nat, b: nat)
    requires lo <= hi <= |s| && a <= b <= hi - lo
    ensures s[lo..hi][a..b] == s[lo + a..lo + b]
  {
    assert forall i :: 0 <= i < b - a ==> s[lo..hi][a..b][i] == s[lo + a..lo + b][i];
  }

  // A machine at the k-th word of the code performs the k-th instruction.
  lemma StepAt(tables: seq<byte>, g: nat, p: Placement, m: Machine, k: nat)
    requires Ready(tables, g, |m.ram|, p) && k < 16
    requires m.condition == Running && m.pc == p.base + p.code + 4 * k && HoldsProgram(m.ram, p)
    ensures Step(tables, g, m) == Perform(tables, g, m.(fetches := m.fetches + 1), Instruction(p.valueOffset, k))
  {
    hide RamWord, Perform, Instruction, HoldsProgram, Ready, Fits, A64.Decode, LoadWord;
    ReadyFits(tables, g, |m.ram|, p);
    CanFetch(tables, g, |m.ram|, p, k);
    CodeWord(m.ram, p, k);
  }

  lemma StepAdd(tables: seq<byte>, g: nat, p: Placement, m: Machine)
    requires Ready(tables, g, |m.ram|, p) && Initial(m, p)
    ensures Step(tables, g, m) == AfterCopies(m, p, 0)
  {
    hide RamWord, HoldsProgram, Ready, Step;
    StepAt(tables, g, p, m, 0);
    assert m.x[3 := Wrap(m.x[3] + 0)] == m.x;
  }

  lemma LoadAddress(p: Placement, size: nat, n: nat)
    requires Fits(p, size) && n < 6
    ensures Source(p.valueOffset, n) / 4 < 4096
    ensures Wrap(p.base + p.dt + 4 * (Source(p.valueOffset, n) / 4)) == p.base + Origin(p, n)
  {
    assert Source(p.valueOffset, n) % 4 == 0;
  }

  lemma AtLoad(tables: seq<byte>, g: nat, p: Placement, m: Machine, n: nat)
    requires Ready(tables, g, |m.ram|, p) && Initial(m, p) && n < 6 && InRam(p, |m.ram|, n)
    ensures IsGranule(g)
    ensures var s := AfterCopies(m, p, n);
      && Source(p.valueOffset, n) / 4 < 4096
      && Step(tables, g, s)
         == Perform(tables, g, s.(fetches := s.fetches + 1), Ldr32(2, 0, Source(p.valueOffset, n) / 4))
  {
    hide RamWord, HoldsProgram, Perform, Ready, Step, Origin, Copied, Source;
    ReadyFits(tables, g, |m.ram|, p);
    LoadAddress(p, |m.ram|, n);
    CodeStays(m.ram, p, n);
    StepAt(tables, g, p, AfterCopies(m, p, n), 1 + 2 * n);
    assert Instruction(p.valueOffset, 1 + 2 * n) == Ldr32(2, 0, Source(p.valueOffset, n) / 4);
  }

  lemma StepLoad(tables: seq<byte>, g: nat, p: Placement, m: Machine, n: nat)
    requires Ready(tables, g, |m.ram|, p) && Initial(m, p) && n < 6 && InRam(p, |m.ram|, n + 1)
    requires IsGranule(g) && CanLoad(tables, g, |m.ram|, p, n)
    ensures Step(tables, g, AfterCopies(m, p, n)) == AfterLoad(m, p, n)
  {
    hide RamWord, HoldsProgram, Ready, Step, Origin, Copied, Source, LoadWord;
    AtLoad(tables, g, p, m, n);
    LoadAddress(p, |m.ram|, n);
    var x, w := AfterCopies(m, p, n).x, LoadWord(Copied(m.ram, p, n), Origin(p, n));
    assert x[2 := w] == m.x[2 := w];
  }

  lemma StepLoadFaults(tables: seq<byte>, g: nat, p: Placement, m: Machine, n: nat)
    requires Ready(tables, g, |m.ram|, p) && Initial(m, p) && n < 6 && InRam(p, |m.ram|, n)
    requires IsGranule(g) && RamWord(tables, g, |m.ram|, p.base + Origin(p, n), Load) == None
    ensures Step(tables, g, AfterCopies(m, p, n)) == AfterFault(m, p, n)
  {
    hide RamWord, HoldsProgram, Ready, Step, Origin, Copied, Source, LoadWord;
    AtLoad(tables, g, p, m, n);
    LoadAddress(p, |m.ram|, n);
  }

  // What a store to the output does.
  lemma StorePerformed(tables: seq<byte>, g: nat, p: Placement, m: Machine, i: nat)
    requires Ready(tables, g, |m.ram|, p) && i < 7
    requires m.x[1] == p.base + p.output && m.pc + 4 <= U64_MAX
    ensures IsGranule(g) && p.output + 4 * i + 4 <= |m.ram|
    ensures Perform(tables, g, m, Str32(2, 1, i))
         == m.(ram := Put(m.ram, p.output + 4 * i, ToLe(m.x[2] % WORD, 4)), pc := m.pc + 4, retired := m.retired + 1,
               requests := m.requests + 1, completed := m.completed + 1)
  {
    hide RamWord, Ready, LoadWord, Bytes.ToLe, Bytes.Put;
    ReadyFits(tables, g, |m.ram|, p);
    CanStore(tables, g, |m.ram|, p, i);
  }

  lemma StepStore(tables: seq<byte>, g: nat, p: Placement, m: Machine, n: nat)
    requires Ready(tables, g, |m.ram|, p) && Initial(m, p) && n < 6 && InRam(p, |m.ram|, n + 1)
    ensures IsGranule(g)
    ensures Step(tables, g, AfterLoad(m, p, n)) == AfterCopies(m, p, n + 1)
  {
    hide RamWord, HoldsProgram, Ready, Step, Perform, Origin, Copied, Source, LoadWord, Bytes.ToLe, Bytes.Put, InRam;
    var s := AfterLoad(m, p, n);
    ReadyFits(tables, g, |m.ram|, p);
    LoadedIsInRam(p, |m.ram|, n);
    CodeStays(m.ram, p, n);
    StepAt(tables, g, p, s, 2 + 2 * n);
    StorePerformed(tables, g, p, s.(fetches := s.fetches + 1), n);
    StoredWord(s.ram, Origin(p, n));
    CopiedNext(m.ram, p, n);
  }

  lemma LoadedIsInRam(p: Placement, size: nat, n: nat)
    requires InRam(p, size, n + 1)
    ensures InRam(p, size, n) && Origin(p, n) + 4 <= size
  {
    hide Origin;
  }

  lemma StoredWord(ram: seq<byte>, at: nat)
    requires at + 4 <= |ram|
    ensures ToLe(LoadWord(ram, at) % WORD, 4) == ram[at..at + 4]
  {
    hide Bytes.Le, Bytes.ToLe;
    RemainderOf(LoadWord(ram, at), WORD, 0, LoadWord(ram, at));
    ToLeOfLe(ram[at..at + 4]);
  }

  lemma CopiedNext(ram: seq<byte>, p: Placement, n: nat)
    requires n < 6 && Fits(p, |ram|) && InRam(p, |ram|, n + 1)
    ensures var before := Copied(ram, p, n);
      Copied(ram, p, n + 1) == Put(before, p.output + 4 * n, before[Origin(p, n)..Origin(p, n) + 4])
  {
  }

  // ----- runs

  // Every word copied takes two instructions.
  lemma {:induction false} CopyRun(tables: seq<byte>, g: nat, p: Placement, m: Machine, n: nat)
    requires Ready(tables, g, |m.ram|, p) && Initial(m, p)
    requires n <= 6 && IsGranule(g) && InRam(p, |m.ram|, n)
    requires forall i: nat :: i < n ==> CanLoad(tables, g, |m.ram|, p, i)
    ensures Steps(tables, g, m, 1 + 2 * n) == AfterCopies(m, p, n)
  {
    hide Origin, Step, AfterCopies, AfterLoad, Initial, Ready, CanLoad;
    ReadyFits(tables, g, |m.ram|, p);
    if n == 0 {
      StepAdd(tables, g, p, m);
      assert Steps(tables, g, m, 1) == Step(tables, g, Steps(tables, g, m, 0));
    } else {
      CopyRun(tables, g, p, m, n - 1);
      StepLoad(tables, g, p, m, n - 1);
      StepStore(tables, g, p, m, n - 1);
      assert Steps(tables, g, m, 2 * n) == Step(tables, g, Steps(tables, g, m, 2 * n - 1));
      assert Steps(tables, g, m, 1 + 2 * n) == Step(tables, g, Steps(tables, g, m, 2 * n));
    }
  }

  // Once all six words are copied: the marker, its store, and the halt.
  lemma StepsToHalt(tables: seq<byte>, g: nat, p: Placement, m: Machine)
    requires Ready(tables, g, |m.ram|, p) && Initial(m, p) && InRam(p, |m.ram|, 6)
    ensures IsGranule(g)
    ensures Step(tables, g, Step(tables, g, Step(tables, g, AfterCopies(m, p, 6)))) == AfterHalt(m, p)
  {
    hide RamWord, HoldsProgram, Ready, Step, Perform, Origin, Copied, Source, LoadWord, Bytes.ToLe, Bytes.Put, InRam;
    ReadyFits(tables, g, |m.ram|, p);
    CodeStays(m.ram, p, 6);
    var s0 := AfterCopies(m, p, 6);
    StepAt(tables, g, p, s0, 13);
    MovzPerformed(tables, g, s0.(fetches := 14));
    var s1 := Step(tables, g, s0);
    assert s1.x == m.x[2 := MARKER];
    StepAt(tables, g, p, s1, 14);
    StorePerformed(tables, g, p, s1.(fetches := 15), 6);
    var s2 := Step(tables, g, s1);
    MarkerKeepsCode(s1.ram, p);
    StepAt(tables, g, p, s2, 15);
    HltPerformed(tables, g, s2.(fetches := 16));
  }

  lemma MovzPerformed(tables: seq<byte>, g: nat, m: Machine)
    requires IsGranule(g) && m.pc + 4 <= U64_MAX
    ensures Perform(tables, g, m, Movz32(2, MARKER))
         == m.(x := m.x[2 := MARKER], pc := m.pc + 4, retired := m.retired + 1)
  {
  }

  lemma HltPerformed(tables: seq<byte>, g: nat, m: Machine)
    requires IsGranule(g) && m.pc + 4 <= U64_MAX
    ensures Perform(tables, g, m, Hlt(0)) == m.(pc := m.pc + 4, retired := m.retired + 1, condition := Halted)
  {
  }

  lemma MarkerKeepsCode(ram: seq<byte>, p: Placement)
    requires Fits(p, |ram|) && HoldsProgram(ram, p)
    ensures HoldsProgram(Put(ram, p.output + 24, ToLe(MARKER, 4)), p)
  {
    hide Pack, ProgramWords, Bytes.ToLe;
    PutElsewhere(ram, p.output + 24, ToLe(MARKER, 4), p.code, p.code + 64);
  }

  // The whole run: with n the first word that cannot be loaded, if any.
  lemma Runs(tables: seq<byte>, g: nat, p: Placement, m: Machine, n: nat, steps: nat)
    requires Ready(tables, g, |m.ram|, p) && Initial(m, p) && steps >= 16
    requires n <= 6 && IsGranule(g) && InRam(p, |m.ram|, n)
    requires forall i: nat :: i < n ==> CanLoad(tables, g, |m.ram|, p, i)
    requires n < 6 ==> RamWord(tables, g, |m.ram|, p.base + Origin(p, n), Load) == None
    ensures Steps(tables, g, m, steps) == if n == 6 then AfterHalt(m, p) else AfterFault(m, p, n)
  {
    hide Step, Ready, CanLoad, RamWord, Initial, InRam, Origin, AfterCopies;
    ReadyFits(tables, g, |m.ram|, p);
    CopyRun(tables, g, p, m, n);
    if n == 6 {
      StepsToHalt(tables, g, p, m);
      assert Steps(tables, g, m, 14) == Step(tables, g, Steps(tables, g, m, 13));
      assert Steps(tables, g, m, 15) == Step(tables, g, Steps(tables, g, m, 14));
      assert Steps(tables, g, m, 16) == Step(tables, g, Steps(tables, g, m, 15));
      StoppedStays(tables, g, m, 16, steps);
    } else {
      StepLoadFaults(tables, g, p, m, n);
      assert Steps(tables, g, m, 2 + 2 * n) == Step(tables, g, Steps(tables, g, m, 1 + 2 * n));
      StoppedStays(tables, g, m, 2 + 2 * n, steps);
    }
  }

  // ----- what the output holds

  predicate Apart(p: Placement, i: nat) {
    Origin(p, i) + 4 <= p.output || p.output + 28 <= Origin(p, i)
  }

  function Gathered(ram: seq<byte>, p: Placement, n: nat): (b: seq<byte>)
    requires InRam(p, |ram|, n)
    ensures |b| == 4 * n
  {
    if n == 0 then [] else Gathered(ram, p, n - 1) + ram[Origin(p, n - 1)..Origin(p, n - 1) + 4]
  }

  // Copying word by word is copying at once when no source lies in the output.
  lemma {:induction false} CopiedGathered(ram: seq<byte>, p: Placement, n: nat)
    requires n <= 6 && Fits(p, |ram|) && InRam(p, |ram|, n)
    requires forall i: nat :: i < n ==> Apart(p, i)
    ensures Copied(ram, p, n) == Put(ram, p.output, Gathered(ram, p, n))
  {
    hide Origin, Bytes.Put;
    if n == 0 {
      PutNothing(ram, p.output);
    } else {
      CopiedGathered(ram, p, n - 1);
      var before, at := Copied(ram, p, n - 1), Origin(p, n - 1);
      assert Apart(p, n - 1);
      PutElsewhere(ram, p.output, Gathered(ram, p, n - 1), at, at + 4);
      PutTwice(ram, p.output, Gathered(ram, p, n - 1), ram[at..at + 4]);
    }
  }

  // Header, value and marker, and nothing else changed.
  lemma OutputIs(ram: seq<byte>, p: Placement)
    requires Fits(p, |ram|) && InRam(p, |ram|, 6) && forall i: nat :: i < 6 ==> Apart(p, i)
    ensures p.dt + p.valueOffset + 16 <= |ram| && p.dt + 8 <= |ram|
    ensures var value := p.dt + p.valueOffset;
      Put(Copied(ram, p, 6), p.output + 24, ToLe(MARKER, 4))
      == Put(ram, p.output, ram[p.dt..p.dt + 8] + ram[value..value + 16] + [0xcd, 0xab, 0, 0])
  {
    hide Bytes.ToLe, Bytes.Put, Copied, Gathered, Apart;
    CopiedGathered(ram, p, 6);
    assert Origin(p, 1) + 4 <= |ram| && Origin(p, 5) + 4 <= |ram|;
    GatheredAll(ram, p);
    MarkerBytes();
    PutTwice(ram, p.output, Gathered(ram, p, 6), ToLe(MARKER, 4));
  }

  lemma GatheredAll(ram: seq<byte>, p: Placement)
    requires InRam(p, |ram|, 6) && p.dt + p.valueOffset + 16 <= |ram| && p.dt + 8 <= |ram|
    ensures Gathered(ram, p, 6) == ram[p.dt..p.dt + 8] + ram[p.dt + p.valueOffset..p.dt + p.valueOffset + 16]
  {
    hide Gathered, Source;
    var at := p.dt + p.valueOffset;
    Origins(p);
    GatheredPair(ram, p, 0);
    GatheredPair(ram, p, 2);
    GatheredPair(ram, p, 4);
    Adjacent(ram, at, at + 8, at + 16);
    var header := ram[p.dt..p.dt + 8];
    assert (header + ram[at..at + 8]) + ram[at + 8..at + 16] == header + (ram[at..at + 8] + ram[at + 8..at + 16]);
  }

  lemma Origins(p: Placement)
    ensures Origin(p, 0) == p.dt && Origin(p, 2) == p.dt + p.valueOffset && Origin(p, 4) == p.dt + p.valueOffset + 8
  {
  }

  lemma OriginNext(p: Placement, n: nat)
    requires n == 0 || n == 2 || n == 4
    ensures Origin(p, n + 1) == Origin(p, n) + 4
  {
  }

  lemma GatheredPair(ram: seq<byte>, p: Placement, n: nat)
    requires n == 0 || n == 2 || n == 4
    requires InRam(p, |ram|, n + 2)
    ensures Origin(p, n) + 8 <= |ram| && InRam(p, |ram|, n)
    ensures n == 0 ==> Gathered(ram, p, 0) == []
    ensures Gathered(ram, p, n + 2) == Gathered(ram, p, n) + ram[Origin(p, n)..Origin(p, n) + 8]
  {
    hide Origin;
    var at := Origin(p, n);
    OriginNext(p, n);
    LoadedIsInRam(p, |ram|, n + 1);
    LoadedIsInRam(p, |ram|, n);
    assert Gathered(ram, p, n + 2) == Gathered(ram, p, n + 1) + ram[at + 4..at + 8];
    Adjacent(ram, at, at + 4, at + 8);
  }
}
