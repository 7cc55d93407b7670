/** Reading a volume's information and root directory under the shared metadata budget, over
    whatever the firmware answers: exactly when it succeeds, and what has been recorded. */
module Directories {
  import opened Uefi
  import opened Bytes
  import opened Units
  import opened DevicePaths
  import opened Names
  import opened Volumes

  // What one firmware call answers: a failure status, or data of the size it claims.
  datatype Answer = Answer(failure: Option<Status>, data: seq<byte>)

  // ----- charging

  // With `spent` bytes of the budget gone, the answer is taken: a smallest record would have
  // fitted, the firmware succeeded, and its data keep to the record size and the budget.
  predicate Affordable(spent: nat, answer: Answer) {
    && spent + 82 <= 0x10_0000
    && answer.failure.None?
    && |answer.data| <= 4096
    && spent + |answer.data| <= 0x10_0000
  }

  // Why an answer is not taken. Once a smallest record fits, the budget is never the reason
  // given: data beyond what was granted is a corrupted volume.
  function Refusal(spent: nat, answer: Answer): Status {
    if spent + 82 > 0x10_0000 then BadBufferSize
    else if answer.failure.Some? then answer.failure.value
    else VolumeCorrupted
  }

  // Charge an answer to the budget before looking at it.
  method Charge(answer: Answer, budget: Budget) returns (r: Result<seq<byte>, Status>)
    requires budget.Valid()
    modifies budget
    ensures budget.Valid() && budget.entries == old(budget.entries)
    ensures r.Ok? <==> Affordable(old(budget.bytes), answer)
    ensures r.Ok? ==> r.value == answer.data && budget.bytes == old(budget.bytes) + |answer.data|
    ensures budget.accepted == if r.Ok? then old(budget.accepted) + [|answer.data|] else old(budget.accepted)
    ensures r.Err? ==> budget.bytes == old(budget.bytes)
    ensures r.Err? ==> r.error == Refusal(old(budget.bytes), answer)
  {
    hide Sum;
    var capacity := budget.Capacity();
    if capacity.Err? {
      return Err(StatusOf(capacity.error));
    }
    if answer.failure.Some? {
      return Err(answer.failure.value);
    }
    var charged := budget.Response(|answer.data|, capacity.value);
    if charged.Err? {
      return Err(StatusOf(charged.error));
    }
    r := Ok(answer.data);
  }

  // The sizes of the first n answers.
  function Sizes(answers: nat -> Answer, n: nat): (sizes: seq<nat>)
    ensures |sizes| == n
  {
    seq(n, i requires 0 <= i < n => |answers(i).data|)
  }

  lemma SizesNext(answers: nat -> Answer, n: nat)
    ensures Sizes(answers, 0) == []
    ensures Sizes(answers, n + 1) == Sizes(answers, n) + [|answers(n).data|]
  {
  }

  // Bytes spent once the first n answers have been charged.
  function SpentBy(answers: nat -> Answer, spent: nat, n: nat): nat {
    spent + Sum(Sizes(answers, n))
  }

  lemma SpentByNext(answers: nat -> Answer, spent: nat, n: nat)
    ensures SpentBy(answers, spent, 0) == spent
    ensures SpentBy(answers, spent, n + 1) == SpentBy(answers, spent, n) + |answers(n).data|
  {
    SizesNext(answers, n);
    var sizes := Sizes(answers, n + 1);
    assert sizes[..|sizes| - 1] == Sizes(answers, n);
  }

  // ----- when a directory can be read to its end

  ghost predicate IsRecord(data: seq<byte>) {
    exists units, e :: IsEntry(data, false, units, e)
  }

  ghost predicate IsRootEntry(data: seq<byte>) {
    exists units, e :: IsEntry(data, true, units, e)
  }

  ghost predicate IsInformation(data: seq<byte>) {
    exists v :: IsVolume(data, v)
  }

  // The name a record carries, in the firmware's own units.
  function RawName(data: seq<byte>): seq<unit>
    requires IsSized(data, NAME_OFFSET)
  {
    var units := UnitsOf(data[NAME_OFFSET..ReadU64(data, 0)]);
    units[..TextLength(units)]
  }

  predicate IsDotName(units: seq<unit>) {
    units == [0x2e] || units == [0x2e, 0x2e]
  }

  // Two records with one name, which is not a dot name.
  predicate Clash(a: seq<byte>, b: seq<byte>) {
    && IsSized(a, NAME_OFFSET) && IsSized(b, NAME_OFFSET)
    && RawName(a) == RawName(b) && !IsDotName(RawName(a))
  }

  // Answer k, after the answers before it, is charged and taken as one more record.
  ghost predicate Takes(answers: nat -> Answer, spent: nat, entries: nat, k: nat) {
    && Affordable(SpentBy(answers, spent, k), answers(k))
    && answers(k).data != []
    && k < 128 && entries + k < 512
    && IsRecord(answers(k).data)
    && forall j: nat :: j < k ==> !Clash(answers(j).data, answers(k).data)
  }

  // The first n answers are taken, and answer n is the end of the directory.
  ghost predicate ReadsToEnd(answers: nat -> Answer, spent: nat, entries: nat, n: nat) {
    && (forall k: nat :: k < n ==> Takes(answers, spent, entries, k))
    && Affordable(SpentBy(answers, spent, n), answers(n))
    && answers(n).data == []
  }

  ghost predicate HasEnd(answers: nat -> Answer, spent: nat, entries: nat) {
    exists n: nat :: ReadsToEnd(answers, spent, entries, n)
  }

  // There is at most one end.
  lemma EndIsUnique(answers: nat -> Answer, spent: nat, entries: nat, m: nat, n: nat)
    requires ReadsToEnd(answers, spent, entries, m) && ReadsToEnd(answers, spent, entries, n)
    ensures m == n
  {
    assert m < n ==> Takes(answers, spent, entries, m);
    assert n < m ==> Takes(answers, spent, entries, n);
  }

  // An answer that is neither taken nor the end rules out every end.
  lemma NoEnd(answers: nat -> Answer, spent: nat, entries: nat, k: nat)
    requires forall i: nat :: i < k ==> Takes(answers, spent, entries, i)
    requires !Takes(answers, spent, entries, k)
    requires !(Affordable(SpentBy(answers, spent, k), answers(k)) && answers(k).data == [])
    ensures !HasEnd(answers, spent, entries)
  {
    hide Affordable, SpentBy;
    forall n: nat ensures !ReadsToEnd(answers, spent, entries, n) {
      if n < k {
        assert Takes(answers, spent, entries, n);
      }
    }
  }

  lemma EntryIs(data: seq<byte>, root: bool, units: seq<unit>, e: Entry)
    requires IsEntry(data, root, units, e)
    ensures IsSized(data, NAME_OFFSET) && units == RawName(data)
    ensures e.name == Escape(units) && (e.dot <==> IsDotName(units))
  {
  }

  // ----- records kept

  // The records kept of a list of decoded ones.
  function Kept(decoded: seq<Entry>): seq<Entry> {
    if |decoded| == 0 then []
    else
      var last := decoded[|decoded| - 1];
      Kept(decoded[..|decoded| - 1]) + if last.dot then [] else [last]
  }

  function Dots(decoded: seq<Entry>): nat {
    if |decoded| == 0 then 0
    else Dots(decoded[..|decoded| - 1]) + if decoded[|decoded| - 1].dot then 1 else 0
  }

  lemma {:induction false} KeptAndDots(decoded: seq<Entry>)
    ensures |Kept(decoded)| + Dots(decoded) == |decoded|
    ensures forall i :: 0 <= i < |Kept(decoded)| ==> !Kept(decoded)[i].dot
  {
    if |decoded| > 0 {
      KeptAndDots(decoded[..|decoded| - 1]);
    }
  }

  lemma {:induction false} KeptMembers(decoded: seq<Entry>, e: Entry)
    ensures e in Kept(decoded) <==> e in decoded && !e.dot
  {
    if |decoded| > 0 {
      var n := |decoded| - 1;
      KeptMembers(decoded[..n], e);
      assert decoded == decoded[..n] + [decoded[n]];
    }
  }

  // Records are kept in order: one that is no dot entry follows those kept before it.
  lemma {:induction false} KeptInOrder(decoded: seq<Entry>, i: nat)
    requires i < |decoded| && !decoded[i].dot
    ensures Kept(decoded[..i]) + [decoded[i]] <= Kept(decoded)
  {
    var n := |decoded| - 1;
    if i < n {
      assert decoded[..n][..i] == decoded[..i] && decoded[..n][i] == decoded[i];
      KeptInOrder(decoded[..n], i);
    }
  }

  lemma KeptAppend(decoded: seq<Entry>, e: Entry)
    ensures Kept(decoded + [e]) == Kept(decoded) + if e.dot then [] else [e]
  {
    assert (decoded + [e])[..|decoded|] == decoded;
  }

  ghost predicate NamesDistinct(entries: seq<Entry>) {
    forall i, j :: 0 <= i < j < |entries| ==> entries[i].name != entries[j].name
  }

  // Some kept entry is called this.
  predicate Named(entries: seq<Entry>, name: string) {
    exists i :: 0 <= i < |entries| && entries[i].name == name
  }

  // Record i of the directory is what answer i held.
  ghost predicate Decodes(answers: nat -> Answer, decoded: seq<Entry>, names: seq<seq<unit>>) {
    && |names| == |decoded|
    && forall i :: 0 <= i < |decoded| ==> IsEntry(answers(i).data, false, names[i], decoded[i])
  }

  // Distinct escaped names are distinct names: no two kept records of a volume were called
  // the same by the firmware.
  lemma KeptNamesDiffer(a: seq<unit>, b: seq<unit>, x: Entry, y: Entry, p: seq<byte>, q: seq<byte>)
    requires IsEntry(p, false, a, x) && IsEntry(q, false, b, y)
    ensures x.name == y.name <==> a == b
  {
    EscapeInjective(a, b);
  }

  // The check on escaped names finds exactly the clashes of the firmware's records.
  lemma NamedIsClash(answers: nat -> Answer, decoded: seq<Entry>, names: seq<seq<unit>>, units: seq<unit>, e: Entry)
    requires Decodes(answers, decoded, names) && IsEntry(answers(|decoded|).data, false, units, e)
    ensures !e.dot && Named(Kept(decoded), e.name)
       <==> exists j: nat :: j < |decoded| && Clash(answers(j).data, answers(|decoded|).data)
  {
    hide IsEntry, Kept, RawName, IsSized, IsDotName, Escape;
    var data := answers(|decoded|).data;
    EntryIs(data, false, units, e);
    forall j: nat | j < |decoded|
      ensures Clash(answers(j).data, data) <==> decoded[j].name == e.name && !e.dot
    {
      EntryIs(answers(j).data, false, names[j], decoded[j]);
      EscapeInjective(names[j], units);
    }
    if !e.dot && Named(Kept(decoded), e.name) {
      var i :| 0 <= i < |Kept(decoded)| && Kept(decoded)[i].name == e.name;
      KeptMembers(decoded, Kept(decoded)[i]);
      var j: nat :| j < |decoded| && decoded[j] == Kept(decoded)[i];
      assert Clash(answers(j).data, data);
    }
    if j: nat :| j < |decoded| && Clash(answers(j).data, data) {
      EntryIs(answers(j).data, false, names[j], decoded[j]);
      KeptMembers(decoded, decoded[j]);
      var i :| 0 <= i < |Kept(decoded)| && Kept(decoded)[i] == decoded[j];
    }
  }

  // ----- one volume

  class Volume {
    var info: Option<VolumeInfo>
    var rootVerified: bool
    var entries: seq<Entry>
    var records: nat
    var readCalls: nat
    var eof: bool
    ghost var decoded: seq<Entry>
    ghost var names: seq<seq<unit>>

    // Bookkeeping at any point, between reads or after the loop has stopped.
    ghost predicate Valid(answers: nat -> Answer)
      reads this
    {
      && Decodes(answers, decoded, names)
      && |decoded| <= records <= |decoded| + 1
      && records <= MAX_ENTRIES
      && records <= readCalls <= records + 1
      && (eof ==> records == |decoded| && readCalls == records + 1)
      && NamesDistinct(entries)
      && entries <= Kept(decoded)
      && |Kept(decoded)| <= |entries| + 1
      && (eof ==> entries == Kept(decoded))
    }

    constructor ()
      ensures Untouched() && info == None && !rootVerified
    {
      info, rootVerified := None, false;
      entries, records, readCalls, eof, decoded, names := [], 0, 0, false, [], [];
    }

    ghost predicate Untouched()
      reads this
    {
      entries == [] && records == 0 && readCalls == 0 && !eof && decoded == [] && names == []
    }

    // Between reads: every record so far decoded, every one that is no dot entry kept.
    ghost predicate Settled(answers: nat -> Answer)
      reads this
    {
      && Decodes(answers, decoded, names)
      && !eof && records == |decoded| == readCalls <= MAX_ENTRIES
      && entries == Kept(decoded) && NamesDistinct(entries)
    }

    lemma SettledIsValid(answers: nat -> Answer)
      requires Settled(answers)
      ensures Valid(answers)
    {
    }

    // Keep a decoded record, unless it is a dot entry or repeats a name.
    method Keep(entry: Entry, ghost units: seq<unit>, ghost answers: nat -> Answer) returns (r: Result<Unit, Status>)
      requires Decodes(answers, decoded, names) && IsEntry(answers(|decoded|).data, false, units, entry)
      requires !eof && records == readCalls == |decoded| + 1 <= MAX_ENTRIES
      requires entries == Kept(decoded) && NamesDistinct(entries)
      modifies this`entries, this`decoded, this`names
      ensures decoded == old(decoded) + [entry]
      ensures r == if !entry.dot && Named(old(entries), entry.name) then Err(VolumeCorrupted) else Ok(Unit)
      ensures Valid(answers) && (r.Ok? ==> Settled(answers))
    {
      hide IsEntry, Kept, Dots;
      KeptAppend(decoded, entry);
      decoded, names := decoded + [entry], names + [units];
      if !entry.dot {
        if Named(entries, entry.name) {
          return Err(VolumeCorrupted);
        }
        entries := entries + [entry];
      }
      r := Ok(Unit);
    }

    // Take a non-empty answer as one more record.
    method TakeRecord(bytes: seq<byte>, budget: Budget, ghost answers: nat -> Answer, ghost spent: nat)
      returns (r: Result<Unit, Status>)
      requires budget.Valid() && bytes == answers(records).data && bytes != []
      requires Decodes(answers, decoded, names) && entries == Kept(decoded) && NamesDistinct(entries)
      requires !eof && readCalls == records + 1 && records == |decoded| <= MAX_ENTRIES
      requires records <= budget.entries && Affordable(SpentBy(answers, spent, records), answers(records))
      modifies this`entries, this`records, this`decoded, this`names, budget
      ensures budget.Valid() && Valid(answers)
      ensures budget.bytes == old(budget.bytes) && budget.accepted == old(budget.accepted)
      ensures r.Ok? <==> Takes(answers, spent, old(budget.entries) - old(records), old(records))
      ensures r.Ok? ==>
        && Settled(answers) && records == old(records) + 1
        && budget.entries == old(budget.entries) + 1
    {
      hide IsEntry, Kept, NamesDistinct, Affordable, SpentBy, Sum, Clash, Decodes;
      ghost var entries0 := budget.entries - records;
      var record := budget.Record(records);
      if record.Err? {
        return Err(StatusOf(record.error));
      }
      records := records + 1;
      var entry, units := ParseEntry(bytes, false);
      if entry.Err? {
        return Err(StatusOf(entry.error));
      }
      RecordIs(bytes, units, entry.value);
      NamedIsClash(answers, decoded, names, units, entry.value);
      r := Keep(entry.value, units, answers);
    }

    // The directory loop. It ends because at most MAX_ENTRIES records are taken, and succeeds
    // exactly when the answers can be read to an end; then the last read was the only empty
    // one, and everything before it is accounted for.
    method Enumerate(answers: nat -> Answer, budget: Budget) returns (r: Result<Unit, Status>)
      requires budget.Valid() && Untouched()
      modifies this`entries, this`records, this`readCalls, this`eof, this`decoded, this`names, budget
      ensures budget.Valid() && Valid(answers)
      ensures r.Ok? <==> HasEnd(answers, old(budget.bytes), old(budget.entries))
      ensures r.Ok? ==> eof && ReadsToEnd(answers, old(budget.bytes), old(budget.entries), records)
      ensures r.Ok? ==> records == |entries| + Dots(decoded) && budget.entries == old(budget.entries) + records
      ensures r.Ok? ==> budget.accepted == old(budget.accepted) + Sizes(answers, records + 1)
      ensures r.Ok? ==> budget.bytes == SpentBy(answers, old(budget.bytes), records + 1)
    {
      hide IsEntry, NamesDistinct, Kept, Dots, Decodes, Sizes, Sum, SpentBy, Affordable;
      hide Takes, ReadsToEnd, Budget.Valid;
      NothingYet(answers);
      ghost var spent, first := budget.bytes, budget.entries;
      SizesNext(answers, 0);
      SpentByNext(answers, spent, 0);
      while true
        invariant budget.Valid() && Settled(answers)
        invariant budget.entries == first + records
        invariant budget.accepted == old(budget.accepted) + Sizes(answers, records)
        invariant budget.bytes == SpentBy(answers, spent, records)
        invariant forall i: nat :: i < records ==> Takes(answers, spent, first, i)
        decreases MAX_ENTRIES - records
      {
        SettledIsValid(answers);
        readCalls := readCalls + 1;
        var bytes := Charge(answers(readCalls - 1), budget);
        SizesNext(answers, records);
        SpentByNext(answers, spent, records);
        if bytes.Err? {
          NotTaken(answers, spent, first, records);
          NoEnd(answers, spent, first, records);
          return Err(bytes.error);
        }
        if bytes.value == [] {
          eof := true;
          KeptAndDots(decoded);
          Ends(answers, spent, first, records);
          return Ok(Unit);
        }
        ghost var k := records;
        var taken := TakeRecord(bytes.value, budget, answers, spent);
        if taken.Err? {
          NoEnd(answers, spent, first, k);
          return Err(taken.error);
        }
      }
    }

    // The volume's information.
    method ReadInformation(answer: Answer, budget: Budget) returns (r: Result<Unit, Status>)
      requires budget.Valid()
      modifies this`info, budget
      ensures budget.Valid() && budget.entries == old(budget.entries)
      ensures r.Ok? <==> Affordable(old(budget.bytes), answer) && IsInformation(answer.data)
      ensures r.Ok? ==> info.Some? && IsVolume(answer.data, info.value)
      ensures r.Ok? ==> budget.bytes == old(budget.bytes) + |answer.data|
      ensures r.Ok? ==> budget.accepted == old(budget.accepted) + [|answer.data|]
    {
      hide IsVolume, Affordable, Sum;
      var bytes := Charge(answer, budget);
      if bytes.Err? {
        return Err(bytes.error);
      }
      var parsed := ParseVolumeInfo(bytes.value);
      if parsed.Err? {
        return Err(StatusOf(parsed.error));
      }
      info := Some(parsed.value);
      r := Ok(Unit);
    }

    // The root's own entry.
    method VerifyRoot(answer: Answer, budget: Budget) returns (r: Result<Unit, Status>)
      requires budget.Valid()
      modifies this`rootVerified, budget
      ensures budget.Valid() && budget.entries == old(budget.entries)
      ensures r.Ok? <==> Affordable(old(budget.bytes), answer) && IsRootEntry(answer.data)
      ensures r.Ok? ==> rootVerified && budget.bytes == old(budget.bytes) + |answer.data|
      ensures r.Ok? ==> budget.accepted == old(budget.accepted) + [|answer.data|]
    {
      hide IsEntry, Affordable, Sum;
      var bytes := Charge(answer, budget);
      if bytes.Err? {
        return Err(bytes.error);
      }
      var entry, units := ParseEntry(bytes.value, true);
      if entry.Err? {
        return Err(StatusOf(entry.error));
      }
      rootVerified := true;
      r := Ok(Unit);
    }

    // One volume: its information, then if asked for its root entry and directory. Whatever
    // the firmware sends is charged before it is looked at.
    method Observe(directory: Directory, budget: Budget, enumerate: bool) returns (r: Result<Unit, Status>)
      requires budget.Valid() && Untouched() && info == None
      modifies this, budget
      ensures budget.Valid() && Valid(directory.answers)
      ensures !enumerate ==> (r.Ok? <==> Informs(directory, old(budget.bytes)))
      ensures enumerate ==>
        (r.Ok? <==> exists n: nat :: ObservedTo(directory, old(budget.bytes), old(budget.entries), n))
      ensures r.Ok? ==> info.Some? && IsVolume(directory.info.data, info.value)
      ensures r.Ok? && !enumerate ==>
        && budget.accepted == old(budget.accepted) + [|directory.info.data|]
        && budget.bytes == old(budget.bytes) + |directory.info.data|
        && budget.entries == old(budget.entries)
      ensures r.Ok? && enumerate ==>
        && rootVerified && eof && ObservedTo(directory, old(budget.bytes), old(budget.entries), records)
        && records == |entries| + Dots(decoded)
        && budget.entries == old(budget.entries) + records
        && budget.accepted == old(budget.accepted) + Spent(directory, records)
        && budget.bytes == old(budget.bytes) + Sum(Spent(directory, records))
    {
      hide IsVolume, Decodes, Kept, Dots, Affordable, IsInformation, IsRootEntry, ReadsToEnd, HasEnd, Sizes, Sum;
      hide Budget.Valid, NamesDistinct;
      NothingYet(directory.answers);
      ObservedNeeds(directory, budget.bytes, budget.entries);
      var informed := ReadInformation(directory.info, budget);
      if informed.Err? {
        return Err(informed.error);
      }
      if !enumerate {
        return Ok(Unit);
      }
      var verified := VerifyRoot(directory.root, budget);
      if verified.Err? {
        return Err(verified.error);
      }
      r := Enumerate(directory.answers, budget);
      SpentSum(directory, records);
    }
  }

  // Everything the firmware answers about one volume.
  datatype Directory = Directory(info: Answer, root: Answer, answers: nat -> Answer)

  // The volume's information can be read.
  ghost predicate Informs(d: Directory, spent: nat) {
    Affordable(spent, d.info) && IsInformation(d.info.data)
  }

  // The whole volume can be read, to the end of its directory after n records.
  ghost predicate ObservedTo(d: Directory, spent: nat, entries: nat, n: nat) {
    && Informs(d, spent)
    && Affordable(spent + |d.info.data|, d.root) && IsRootEntry(d.root.data)
    && ReadsToEnd(d.answers, spent + |d.info.data| + |d.root.data|, entries, n)
  }

  lemma ObservedNeeds(d: Directory, spent: nat, entries: nat)
    ensures (exists n: nat :: ObservedTo(d, spent, entries, n)) <==>
      && Informs(d, spent)
      && Affordable(spent + |d.info.data|, d.root) && IsRootEntry(d.root.data)
      && HasEnd(d.answers, spent + |d.info.data| + |d.root.data|, entries)
  {
    hide Affordable, IsRootEntry, IsInformation, ReadsToEnd;
    var spent' := spent + |d.info.data| + |d.root.data|;
    if n: nat :| ReadsToEnd(d.answers, spent', entries, n) {
      assert Informs(d, spent) && Affordable(spent + |d.info.data|, d.root) && IsRootEntry(d.root.data) ==>
        ObservedTo(d, spent, entries, n);
    }
  }

  // The responses of a volume read to its end after `records` records.
  function Spent(d: Directory, records: nat): seq<nat> {
    [|d.info.data|] + [|d.root.data|] + Sizes(d.answers, records + 1)
  }

  lemma SpentSum(d: Directory, records: nat)
    ensures Sum(Spent(d, records)) == |d.info.data| + |d.root.data| + Sum(Sizes(d.answers, records + 1))
  {
    SumSplit([|d.info.data|] + [|d.root.data|], Sizes(d.answers, records + 1));
    SumSplit([|d.info.data|], [|d.root.data|]);
    SumOfOne(|d.info.data|);
    SumOfOne(|d.root.data|);
  }

  lemma SumOfOne(n: nat)
    ensures Sum([n]) == n
  {
    assert [n][..0] == [];
  }

  lemma RecordIs(data: seq<byte>, units: seq<unit>, e: Entry)
    requires IsEntry(data, false, units, e)
    ensures IsRecord(data)
  {
  }

  lemma NotTaken(answers: nat -> Answer, spent: nat, entries: nat, k: nat)
    requires !Affordable(SpentBy(answers, spent, k), answers(k))
    ensures !Takes(answers, spent, entries, k)
  {
  }

  lemma Ends(answers: nat -> Answer, spent: nat, entries: nat, n: nat)
    requires forall k: nat :: k < n ==> Takes(answers, spent, entries, k)
    requires Affordable(SpentBy(answers, spent, n), answers(n)) && answers(n).data == []
    ensures ReadsToEnd(answers, spent, entries, n)
  {
  }

  lemma NothingYet(answers: nat -> Answer)
    ensures Decodes(answers, [], []) && Kept([]) == [] && NamesDistinct([])
  {
  }

  // ----- any number of volumes

  // The sum of a concatenation.
  lemma {:induction false} SumSplit(a: seq<nat>, b: seq<nat>)
    ensures Sum(a + b) == Sum(a) + Sum(b)
  {
    if |b| == 0 {
      assert a + b == a;
    } else {
      assert (a + b)[..|a + b| - 1] == a + b[..|b| - 1];
      SumSplit(a, b[..|b| - 1]);
    }
  }

  // The bytes spent on volumes read to their ends.
  function TotalSpent(directories: seq<Directory>, records: seq<nat>): nat
    requires |records| == |directories|
  {
    if |directories| == 0 then 0
    else
      var n := |directories| - 1;
      TotalSpent(directories[..n], records[..n]) + Sum(Spent(directories[n], records[n]))
  }

  // All volumes can be read to their ends, one after the other, volume i after records[i].
  ghost predicate CollectedTo(directories: seq<Directory>, spent: nat, entries: nat, records: seq<nat>) {
    && |records| == |directories|
    && forall k :: 0 <= k < |directories| ==> ObservedAt(directories, spent, entries, records, k)
  }

  ghost predicate ObservedAt(directories: seq<Directory>, spent: nat, entries: nat, records: seq<nat>, k: nat) {
    && k < |records| <= |directories|
    && var spent', entries' := spent + TotalSpent(directories[..k], records[..k]), entries + Sum(records[..k]);
       ObservedTo(directories[k], spent', entries', records[k])
  }

  // Any number of volumes, observed in turn on one budget until one fails: exactly when all
  // can be read, and then the budget has been charged every response and every record.
  method Collect(directories: seq<Directory>, budget: Budget) returns (r: Result<seq<nat>, Status>)
    requires budget.Valid()
    modifies budget
    ensures budget.Valid()
    ensures r.Ok? <==> exists records :: CollectedTo(directories, old(budget.bytes), old(budget.entries), records)
    ensures r.Ok? ==>
      && CollectedTo(directories, old(budget.bytes), old(budget.entries), r.value)
      && budget.entries == old(budget.entries) + Sum(r.value)
      && budget.bytes == old(budget.bytes) + TotalSpent(directories, r.value)
  {
    hide Sum, Spent, ObservedTo, CollectedTo, TotalSpent, Budget.Valid, Volume.Valid, IsVolume;
    var records: seq<nat> := [];
    ghost var spent, entries := budget.bytes, budget.entries;
    NothingSpent(directories);
    CollectedLength(directories, spent, entries);
    for i := 0 to |directories|
      invariant budget.Valid() && |records| == i
      invariant budget.entries == entries + Sum(records)
      invariant budget.bytes == spent + TotalSpent(directories[..i], records)
      invariant forall k :: 0 <= k < i ==> ObservedAt(directories, spent, entries, records, k)
      invariant forall all :: CollectedTo(directories, spent, entries, all) ==>
        |all| == |directories| && all[..i] == records
    {
      var volume := new Volume();
      var observed := volume.Observe(directories[i], budget, true);
      if observed.Err? {
        forall all | CollectedTo(directories, spent, entries, all) ensures false {
          CollectedAt(directories, spent, entries, all, i);
        }
        return Err(observed.error);
      }
      forall all | CollectedTo(directories, spent, entries, all)
        ensures |all| == |directories| && all[..i + 1] == records + [volume.records]
      {
        CollectedAt(directories, spent, entries, all, i);
        ObservedOnce(directories[i], spent + TotalSpent(directories[..i], records), entries + Sum(records),
                     all[i], volume.records);
      }
      SpentNext(directories, records, i, volume.records);
      ObservedNext(directories, spent, entries, records, i, volume.records);
      records := records + [volume.records];
    }
    assert directories[..|directories|] == directories;
    AllObserved(directories, spent, entries, records);
    r := Ok(records);
  }

  lemma NothingSpent(directories: seq<Directory>)
    ensures directories[..0] == [] && TotalSpent([], []) == 0 && Sum([]) == 0
  {
  }

  lemma CollectedLength(directories: seq<Directory>, spent: nat, entries: nat)
    ensures forall all :: CollectedTo(directories, spent, entries, all) ==> |all| == |directories|
  {
  }

  lemma CollectedAt(directories: seq<Directory>, spent: nat, entries: nat, all: seq<nat>, i: nat)
    requires CollectedTo(directories, spent, entries, all) && i < |directories|
    ensures |all| == |directories|
    ensures ObservedTo(directories[i], spent + TotalSpent(directories[..i], all[..i]), entries + Sum(all[..i]), all[i])
    ensures all[..i + 1] == all[..i] + [all[i]]
  {
    assert ObservedAt(directories, spent, entries, all, i);
  }

  lemma ObservedOnce(d: Directory, spent: nat, entries: nat, m: nat, n: nat)
    requires ObservedTo(d, spent, entries, m) && ObservedTo(d, spent, entries, n)
    ensures m == n
  {
    EndIsUnique(d.answers, spent + |d.info.data| + |d.root.data|, entries, m, n);
  }

  lemma ObservedNext(directories: seq<Directory>, spent: nat, entries: nat, records: seq<nat>, i: nat, n: nat)
    requires |records| == i < |directories|
    requires forall k :: 0 <= k < i ==> ObservedAt(directories, spent, entries, records, k)
    requires ObservedTo(directories[i], spent + TotalSpent(directories[..i], records), entries + Sum(records), n)
    ensures forall k :: 0 <= k < i + 1 ==> ObservedAt(directories, spent, entries, records + [n], k)
  {
    hide ObservedTo, TotalSpent, Sum;
    forall k | 0 <= k < i + 1 ensures ObservedAt(directories, spent, entries, records + [n], k) {
      assert (records + [n])[..k] == records[..k];
      assert k == i ==> records[..k] == records;
      if k < i {
        assert ObservedAt(directories, spent, entries, records, k);
      }
    }
  }

  lemma AllObserved(directories: seq<Directory>, spent: nat, entries: nat, records: seq<nat>)
    requires |records| == |directories|
    requires forall k :: 0 <= k < |directories| ==> ObservedAt(directories, spent, entries, records, k)
    ensures CollectedTo(directories, spent, entries, records)
  {
    hide ObservedAt;
  }

  lemma SpentNext(directories: seq<Directory>, records: seq<nat>, i: nat, n: nat)
    requires |records| == i < |directories|
    ensures TotalSpent(directories[..i + 1], records + [n])
         == TotalSpent(directories[..i], records) + Sum(Spent(directories[i], n))
    ensures Sum(records + [n]) == Sum(records) + n
  {
    assert directories[..i + 1][..i] == directories[..i];
    assert (records + [n])[..i] == records;
  }
}
