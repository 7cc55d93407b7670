/** Placing a parsed Mach-O image at a fixed physical address: zero the allocation, copy each
    segment's file bytes, and read everything back before the image is handed out. */
module LoadedKernel {
  import opened Uefi
  import opened Bits
  import opened Bytes

  const FOUR_GIB: nat := 0x1_0000_0000
  const MAX_EXTRA_PAGES: nat := 256
  const PAGE_SIZE: nat := 4096

  datatype Segment = Segment(memoryOffset: nat, memorySize: nat, fileOffset: nat, fileSize: nat)
  datatype Plan = Plan(imageSize: nat, entryOffset: nat, segments: seq<Segment>)

  // What the image parser guarantees of a plan it returns for a source.
  ghost predicate PlanFits(plan: Plan, source: seq<byte>) {
    && (forall i :: 0 <= i < |plan.segments| ==> SegmentFits(plan.segments[i], plan.imageSize))
    && InSource(plan.segments, source)
    && Sorted(plan.segments)
  }

  predicate SegmentFits(s: Segment, imageSize: nat) {
    && s.fileSize <= s.memorySize
    && s.memoryOffset + s.memorySize <= imageSize
  }

  // In memory order and disjoint.
  predicate Sorted(segments: seq<Segment>) {
    forall i, j :: 0 <= i < j < |segments| ==>
      segments[i].memoryOffset + segments[i].memorySize <= segments[j].memoryOffset
  }

  predicate InFileRange(s: Segment, a: nat) {
    s.memoryOffset <= a < s.memoryOffset + s.fileSize
  }

  predicate InSource(segments: seq<Segment>, source: seq<byte>) {
    forall i :: 0 <= i < |segments| ==> segments[i].fileOffset + segments[i].fileSize <= |source|
  }

  // The byte the loaded image is to have at offset a.
  function ImageByte(segments: seq<Segment>, source: seq<byte>, a: nat): byte
    requires InSource(segments, source)
  {
    if |segments| == 0 then 0
    else
      var last := segments[|segments| - 1];
      if InFileRange(last, a) then source[last.fileOffset + (a - last.memoryOffset)]
      else ImageByte(segments[..|segments| - 1], source, a)
  }

  function Image(segments: seq<Segment>, source: seq<byte>, size: nat): (image: seq<byte>)
    requires InSource(segments, source)
    ensures |image| == size
    ensures forall a :: 0 <= a < size ==> image[a] == ImageByte(segments, source, a)
  {
    seq(size, a requires 0 <= a < size => ImageByte(segments, source, a))
  }

  // Inside a file range the image is the file; outside every file range it is zero.
  lemma {:induction false} ImageMeaning(segments: seq<Segment>, source: seq<byte>, a: nat)
    requires InSource(segments, source) && Sorted(segments)
    requires forall i :: 0 <= i < |segments| ==> segments[i].fileSize <= segments[i].memorySize
    ensures forall i :: 0 <= i < |segments| && InFileRange(segments[i], a) ==>
      ImageByte(segments, source, a) == source[segments[i].fileOffset + (a - segments[i].memoryOffset)]
    ensures (forall i :: 0 <= i < |segments| ==> !InFileRange(segments[i], a)) ==> ImageByte(segments, source, a) == 0
  {
    if |segments| > 0 {
      var n := |segments| - 1;
      ImageMeaning(segments[..n], source, a);
      assert forall i :: 0 <= i < n ==> segments[..n][i] == segments[i];
    }
  }

  // ----- readback

  // The bytes are compared in three stretches, the middle one eight at a time; where an
  // aligned middle starts and how long it is, is up to the allocation's alignment.
  method VerifyMemory(actual: seq<byte>, expected: Option<seq<byte>>, prefix: nat, words: nat) returns (same: bool)
    requires prefix + 8 * words <= |actual|
    ensures same <==> actual == if expected.Some? then expected.value else Zeros(|actual|)
  {
    if expected.Some? && |expected.value| != |actual| {
      return false;
    }
    ghost var want := if expected.Some? then expected.value else Zeros(|actual|);
    var offset := 0;
    while offset < prefix
      invariant offset <= prefix && actual[..offset] == want[..offset]
    {
      if actual[offset] != (if expected.Some? then expected.value[offset] else 0) {
        return false;
      }
      offset := offset + 1;
    }
    for k := 0 to words
      invariant offset == prefix + 8 * k && actual[..offset] == want[..offset]
    {
      var value := if expected.Some? then Le(expected.value[offset..offset + 8]) else 0;
      WordCompare(actual, want, offset);
      LeZeros(8);
      assert expected.None? ==> want[offset..offset + 8] == Zeros(8);
      if Le(actual[offset..offset + 8]) != value {
        return false;
      }
      offset := offset + 8;
    }
    while offset < |actual|
      invariant offset <= |actual| && actual[..offset] == want[..offset]
    {
      if actual[offset] != (if expected.Some? then expected.value[offset] else 0) {
        return false;
      }
      offset := offset + 1;
    }
    assert actual[..offset] == actual && want[..offset] == want;
    same := true;
  }

  // Comparing eight bytes as one number is comparing them one by one.
  lemma WordCompare(actual: seq<byte>, want: seq<byte>, offset: nat)
    requires |actual| == |want| && offset + 8 <= |actual| && actual[..offset] == want[..offset]
    ensures Le(actual[offset..offset + 8]) == Le(want[offset..offset + 8])
       <==> actual[..offset + 8] == want[..offset + 8]
    ensures actual[..offset + 8] != want[..offset + 8] ==> actual != want
  {
    LeInjective(actual[offset..offset + 8], want[offset..offset + 8]);
    assert actual[..offset + 8] == actual[..offset] + actual[offset..offset + 8];
    assert want[..offset + 8] == want[..offset] + want[offset..offset + 8];
  }

  // A comparison with some alignment split.
  method Compare(actual: seq<byte>, expected: Option<seq<byte>>) returns (same: bool)
    ensures same <==> actual == if expected.Some? then expected.value else Zeros(|actual|)
  {
    var prefix: nat, words: nat :| prefix + 8 * words <= |actual|;
    same := VerifyMemory(actual, expected, prefix, words);
  }

  // The compared slices cover [0, size) without overlap, so for any memory contents the
  // readback succeeds exactly when every byte is what it should be.
  method Readback(memory: seq<byte>, plan: Plan, source: seq<byte>) returns (same: bool)
    requires PlanFits(plan, source) && plan.imageSize <= |memory|
    ensures same <==> memory == Image(plan.segments, source, |memory|)
  {
    hide ImageByte, InSource, Sorted, InFileRange, Zeros;
    ghost var image := Image(plan.segments, source, |memory|);
    var previousEnd := 0;
    for k := 0 to |plan.segments|
      invariant previousEnd == EndBefore(plan.segments, k)
      invariant previousEnd <= |memory| && memory[..previousEnd] == image[..previousEnd]
    {
      var s := plan.segments[k];
      SegmentDecides(memory, plan, source, k);
      var start, copiedEnd, memoryEnd := s.memoryOffset, s.memoryOffset + s.fileSize, EndOf(s);
      var gap := Compare(memory[previousEnd..start], None);
      var payload := Compare(memory[start..copiedEnd], Some(source[s.fileOffset..s.fileOffset + s.fileSize]));
      var tail := Compare(memory[copiedEnd..memoryEnd], None);
      if !gap || !payload || !tail {
        return false;
      }
      previousEnd := memoryEnd;
    }
    ImageAfterSegments(plan, source, |memory|);
    same := Compare(memory[previousEnd..], None);
    SlicesDecide(memory, image, previousEnd, |memory|, |memory|, |memory|);
    assert memory[..|memory|] == memory && image[..|memory|] == image;
    assert memory[previousEnd..|memory|] == memory[previousEnd..];
  }

  function EndOf(s: Segment): nat {
    s.memoryOffset + s.memorySize
  }

  function EndBefore(segments: seq<Segment>, k: nat): nat
    requires k <= |segments|
  {
    if k == 0 then 0 else EndOf(segments[k - 1])
  }

  lemma NextSlice(memory: seq<byte>, image: seq<byte>, a: nat, b: nat, d: nat)
    requires |memory| == |image| && a <= b <= d <= |memory| && memory[..a] == image[..a]
    ensures memory[..b] == image[..b] <==> memory[a..b] == image[a..b]
    ensures memory[..b] != image[..b] ==> memory[..d] != image[..d]
  {
    assert memory[..b] == memory[..a] + memory[a..b] && image[..b] == image[..a] + image[a..b];
    assert memory[..b] == memory[..d][..b] && image[..b] == image[..d][..b];
    if memory[..b] == image[..b] {
      assert memory[a..b] == memory[..b][a..] && image[a..b] == image[..b][a..];
    }
  }

  lemma SlicesDecide(memory: seq<byte>, image: seq<byte>, a: nat, b: nat, c: nat, d: nat)
    requires |memory| == |image| && a <= b <= c <= d <= |memory| && memory[..a] == image[..a]
    ensures memory[..d] == image[..d]
       <==> memory[a..b] == image[a..b] && memory[b..c] == image[b..c] && memory[c..d] == image[c..d]
    ensures memory[..d] != image[..d] ==> memory != image
  {
    NextSlice(memory, image, a, b, d);
    if memory[..b] == image[..b] {
      NextSlice(memory, image, b, c, d);
      if memory[..c] == image[..c] {
        NextSlice(memory, image, c, d, d);
      }
    }
  }

  // With the memory right up to segment k, the three slices the readback compares decide
  // whether it is right up to the segment's end.
  lemma SegmentDecides(memory: seq<byte>, plan: Plan, source: seq<byte>, k: nat)
    requires PlanFits(plan, source) && plan.imageSize <= |memory| && k < |plan.segments|
    requires EndBefore(plan.segments, k) <= |memory|
    requires var a := EndBefore(plan.segments, k);
      memory[..a] == Image(plan.segments, source, |memory|)[..a]
    ensures var s := plan.segments[k];
      var image := Image(plan.segments, source, |memory|);
      var a, b, c, d := EndBefore(plan.segments, k), s.memoryOffset, s.memoryOffset + s.fileSize, EndOf(s);
      && a <= b <= c <= d <= |memory|
      && s.fileOffset + s.fileSize <= |source|
      && (memory[..d] == image[..d] <==>
           && memory[a..b] == Zeros(b - a)
           && memory[b..c] == source[s.fileOffset..s.fileOffset + s.fileSize]
           && memory[c..d] == Zeros(d - c))
      && (memory[..d] != image[..d] ==> memory != image)
  {
    hide ImageByte, InFileRange, Zeros;
    ImageAroundSegment(plan, source, |memory|, k);
    var s := plan.segments[k];
    SlicesDecide(memory, Image(plan.segments, source, |memory|), EndBefore(plan.segments, k),
                 s.memoryOffset, s.memoryOffset + s.fileSize, EndOf(s));
  }

  lemma ImageAroundSegment(plan: Plan, source: seq<byte>, size: nat, k: nat)
    requires PlanFits(plan, source) && plan.imageSize <= size && k < |plan.segments|
    ensures var s := plan.segments[k];
      var image := Image(plan.segments, source, size);
      var previousEnd := EndBefore(plan.segments, k);
      && previousEnd <= s.memoryOffset <= s.memoryOffset + s.fileSize <= EndOf(s) <= size
      && s.fileOffset + s.fileSize <= |source|
      && image[previousEnd..s.memoryOffset] == Zeros(s.memoryOffset - previousEnd)
      && image[s.memoryOffset..s.memoryOffset + s.fileSize] == source[s.fileOffset..s.fileOffset + s.fileSize]
      && image[s.memoryOffset + s.fileSize..EndOf(s)] == Zeros(s.memorySize - s.fileSize)
  {
    var s, image := plan.segments[k], Image(plan.segments, source, size);
    var previousEnd := EndBefore(plan.segments, k);
    forall a: nat | previousEnd <= a < EndOf(s)
      ensures image[a] == if InFileRange(s, a) then source[s.fileOffset + (a - s.memoryOffset)] else 0
    {
      OnlySegment(plan.segments, k, a);
      ImageMeaning(plan.segments, source, a);
    }
  }

  // Between the previous segment's end and its own, only segment k can hold an address.
  lemma OnlySegment(segments: seq<Segment>, k: nat, a: nat)
    requires Sorted(segments) && k < |segments| && a < EndOf(segments[k])
    requires forall i :: 0 <= i < |segments| ==> segments[i].fileSize <= segments[i].memorySize
    requires k > 0 ==> EndOf(segments[k - 1]) <= a
    ensures forall i :: 0 <= i < |segments| && InFileRange(segments[i], a) ==> i == k
  {
    forall i | 0 <= i < |segments| && i != k ensures !InFileRange(segments[i], a) {
      assert i < k ==> k > 0 && EndOf(segments[i]) <= EndOf(segments[k - 1]);
    }
  }

  lemma ImageAfterSegments(plan: Plan, source: seq<byte>, size: nat)
    requires PlanFits(plan, source) && plan.imageSize <= size
    ensures var end := EndBefore(plan.segments, |plan.segments|);
      end <= size && Image(plan.segments, source, size)[end..] == Zeros(size - end)
  {
    var n := |plan.segments|;
    var end := EndBefore(plan.segments, n);
    forall a: nat | end <= a < size ensures ImageByte(plan.segments, source, a) == 0 {
      forall i | 0 <= i < n ensures !InFileRange(plan.segments[i], a) {
        assert EndOf(plan.segments[i]) <= end;
      }
      ImageMeaning(plan.segments, source, a);
    }
  }

  // ----- loading

  datatype Loaded = Loaded(base: nat, pages: nat, imageSize: nat, arenaSize: nat, entryOffset: nat)

  // A request that is refused before anything is allocated unless all of this holds; `parsed`
  // is what the parser makes of the source and `sourceStart` where the source lies in memory.
  predicate Acceptable(plan: Plan, source: seq<byte>, base: u64, extraPages: nat, maxImageSize: nat,
                       parsed: Option<Plan>, sourceStart: u64)
  {
    var end := base + plan.imageSize + extraPages * 4096;
    && base > 0 && base % 4096 == 0
    && 0 < plan.imageSize <= maxImageSize && plan.imageSize % 4096 == 0
    && extraPages <= 256 && end <= 0x1_0000_0000
    && plan.entryOffset < plan.imageSize
    && parsed == Some(plan)
    && sourceStart + |source| <= U64_MAX
    && (end <= sourceStart || sourceStart + |source| <= base)
  }

  // `granted` is the firmware's answer to the allocation request and `ram` the allocation,
  // with whatever it held before.
  method LoadAt(plan: Plan, source: seq<byte>, base: u64, extraPages: nat, maxImageSize: nat,
                parsed: Option<Plan>, sourceStart: u64, granted: Result<u64, Status>, ram: array<byte>)
    returns (r: Result<Loaded, Status>)
    requires parsed.Some? ==> PlanFits(parsed.value, source)
    requires ram.Length == plan.imageSize + extraPages * 4096
    modifies ram
    ensures r ==
      if !Acceptable(plan, source, base, extraPages, maxImageSize, parsed, sourceStart) then Err(InvalidParameter)
      else if granted.Err? then Err(granted.error)
      else if granted.value != base then Err(DeviceError)
      else Ok(Loaded(base, ram.Length / 4096, plan.imageSize, extraPages * 4096, plan.entryOffset))
    ensures r.Ok? ==> PlanFits(plan, source) && ram[..] == Image(plan.segments, source, ram.Length)
    ensures r.Err? ==> ram[..] == old(ram[..])
  {
    if base == 0 || base % PAGE_SIZE != 0 || plan.imageSize == 0 || plan.imageSize > maxImageSize
      || plan.imageSize % PAGE_SIZE != 0 || extraPages > MAX_EXTRA_PAGES
    {
      return Err(InvalidParameter);
    }
    var arenaSize := extraPages * PAGE_SIZE;
    var totalSize := plan.imageSize + arenaSize;
    var end := base + totalSize;
    if end > U64_MAX || end > FOUR_GIB || totalSize > ISIZE_MAX {
      return Err(InvalidParameter);
    }
    if plan.entryOffset >= plan.imageSize || parsed != Some(plan) {
      return Err(InvalidParameter);
    }
    var sourceEnd := sourceStart + |source|;
    if sourceEnd > U64_MAX || (base < sourceEnd && sourceStart < end) {
      return Err(InvalidParameter);
    }
    if granted.Err? {
      return Err(granted.error);
    }
    if granted.value != base {
      return Err(DeviceError);
    }
    Fill(ram, plan, source);
    var same := Readback(ram[..], plan, source);
    if !same {
      return Err(DeviceError);
    }
    r := Ok(Loaded(base, totalSize / PAGE_SIZE, plan.imageSize, arenaSize, plan.entryOffset));
  }

  // Zero everything, then copy segment by segment.
  method Fill(ram: array<byte>, plan: Plan, source: seq<byte>)
    requires PlanFits(plan, source) && plan.imageSize <= ram.Length
    modifies ram
    ensures ram[..] == Image(plan.segments, source, ram.Length)
  {
    forall a | 0 <= a < ram.Length {
      ram[a] := 0;
    }
    var segments := plan.segments;
    for k := 0 to |segments|
      invariant forall a :: 0 <= a < ram.Length ==> ram[a] == ImageByte(segments[..k], source, a)
    {
      var s := segments[k];
      assert segments[..k + 1][..k] == segments[..k];
      forall i | 0 <= i < s.fileSize {
        ram[s.memoryOffset + i] := source[s.fileOffset + i];
      }
    }
    assert segments[..|segments|] == segments;
  }
}
