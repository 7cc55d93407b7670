/** The load and store watches of the mapped trace: what each counter and each recorded value
    says about the sequence of memory requests. */
module MemoryWatches {
  import opened Accesses
  import opened Uefi
  import opened Bits
  import opened Counting

  datatype Request = Request(operation: Access, pc: u64, address: u64, value0: u64, width: nat, count: nat)
  datatype Reply = Reply(result: nat, value0: u64, value1: u64)

  const OK: nat := 0

  datatype Event = Event(request: Request, reply: Reply)

  // ----- functions of the history

  predicate Watched(e: Event, operation: Access, pc: u64) {
    e.request.operation == operation && e.request.pc == pc
  }

  function Requests(history: seq<Event>, operation: Access, pc: u64): nat {
    if |history| == 0 then 0
    else
      Requests(history[..|history| - 1], operation, pc)
      + if Watched(history[|history| - 1], operation, pc) then 1 else 0
  }

  // The watched requests that succeeded, in order.
  function Successes(history: seq<Event>, operation: Access, pc: u64): seq<Event> {
    if |history| == 0 then []
    else
      var last := history[|history| - 1];
      Successes(history[..|history| - 1], operation, pc)
      + if Watched(last, operation, pc) && last.reply.result == OK then [last] else []
  }

  function Address(e: Event): u64 {
    e.request.address
  }

  // How often the address went up, down, or stayed from one success to the next.
  function Forward(s: seq<Event>): nat {
    if |s| < 2 then 0 else Forward(s[..|s| - 1]) + if Address(s[|s| - 1]) > Address(s[|s| - 2]) then 1 else 0
  }

  function Backward(s: seq<Event>): nat {
    if |s| < 2 then 0 else Backward(s[..|s| - 1]) + if Address(s[|s| - 1]) < Address(s[|s| - 2]) then 1 else 0
  }

  function Repeated(s: seq<Event>): nat {
    if |s| < 2 then 0 else Repeated(s[..|s| - 1]) + if Address(s[|s| - 1]) == Address(s[|s| - 2]) then 1 else 0
  }

  // The second value counts only when the request asked for two.
  predicate Changes(before: Event, after: Event) {
    || after.reply.value0 != before.reply.value0
    || (after.request.count == 2 && after.reply.value1 != before.reply.value1)
  }

  function ValueChanges(s: seq<Event>): nat {
    if |s| < 2 then 0 else ValueChanges(s[..|s| - 1]) + if Changes(s[|s| - 2], s[|s| - 1]) then 1 else 0
  }

  // Success k is the first to reach the threshold from below it.
  predicate CrossesAt(s: seq<Event>, threshold: u64, k: nat) {
    1 <= k < |s| && Address(s[k - 1]) < threshold <= Address(s[k])
  }

  function FirstCrossing(s: seq<Event>, threshold: u64): Option<nat> {
    if |s| < 2 then None
    else
      var before := FirstCrossing(s[..|s| - 1], threshold);
      if before.Some? then before
      else if CrossesAt(s, threshold, |s| - 1) then Some(|s| - 1) else None
  }

  // ----- what those functions mean

  lemma {:induction false} FirstCrossingIsFirst(s: seq<Event>, threshold: u64)
    ensures match FirstCrossing(s, threshold)
      case Some(k) => CrossesAt(s, threshold, k) && forall j :: 0 <= j < k ==> !CrossesAt(s, threshold, j)
      case None => forall j: nat :: !CrossesAt(s, threshold, j)
  {
    if |s| >= 2 {
      var t := s[..|s| - 1];
      FirstCrossingIsFirst(t, threshold);
      assert forall j: nat :: j < |t| ==> (CrossesAt(t, threshold, j) <==> CrossesAt(s, threshold, j));
    }
  }

  // A discrete intermediate-value theorem: starting below the threshold and later at or above
  // it, some success crossed it, no later than that one.
  lemma {:induction false} ReachingMeansCrossing(s: seq<Event>, threshold: u64, j: nat)
    requires j < |s| && Address(s[0]) < threshold <= Address(s[j])
    ensures FirstCrossing(s, threshold).Some? && FirstCrossing(s, threshold).value <= j
  {
    FirstCrossingIsFirst(s, threshold);
    CrossingExists(s, threshold, j);
  }

  lemma {:induction false} CrossingExists(s: seq<Event>, threshold: u64, j: nat)
    requires j < |s| && Address(s[0]) < threshold <= Address(s[j])
    ensures exists k: nat :: k <= j && CrossesAt(s, threshold, k)
  {
    if Address(s[j - 1]) < threshold {
      assert CrossesAt(s, threshold, j);
    } else {
      CrossingExists(s, threshold, j - 1);
    }
  }

  // Every success after the first is counted in exactly one direction.
  lemma {:induction false} DirectionsAddUp(s: seq<Event>)
    ensures |s| == 0 ==> Forward(s) == Backward(s) == Repeated(s) == 0
    ensures |s| > 0 ==> |s| == 1 + Forward(s) + Backward(s) + Repeated(s)
  {
    if |s| >= 2 {
      DirectionsAddUp(s[..|s| - 1]);
    }
  }

  // The places in a list of successes where the address rises, drops, or stays.
  function Rises(s: seq<Event>): nat -> bool {
    (k: nat) => 1 <= k < |s| && s[k - 1].request.address < s[k].request.address
  }

  function Drops(s: seq<Event>): nat -> bool {
    (k: nat) => 1 <= k < |s| && s[k - 1].request.address > s[k].request.address
  }

  function Stays(s: seq<Event>): nat -> bool {
    (k: nat) => 1 <= k < |s| && s[k - 1].request.address == s[k].request.address
  }

  // Where the first value did not stay, or the second did not although two were asked for.
  function Alters(s: seq<Event>): nat -> bool {
    (k: nat) =>
      && 1 <= k < |s|
      && !(s[k].reply.value0 == s[k - 1].reply.value0
           && (s[k].request.count != 2 || s[k].reply.value1 == s[k - 1].reply.value1))
  }

  // The counters are the numbers of such places.
  lemma {:induction false} ForwardCounts(s: seq<Event>)
    ensures Forward(s) == CountBelow(|s|, Rises(s))
  {
    hide CountBelow;
    if |s| == 0 {
      CountNone(Rises(s));
    } else {
      var n := |s| - 1;
      ForwardCounts(s[..n]);
      CountSame(n, Rises(s[..n]), Rises(s));
      CountNext(n, Rises(s));
    }
  }

  lemma {:induction false} BackwardCounts(s: seq<Event>)
    ensures Backward(s) == CountBelow(|s|, Drops(s))
  {
    hide CountBelow;
    if |s| == 0 {
      CountNone(Drops(s));
    } else {
      var n := |s| - 1;
      BackwardCounts(s[..n]);
      CountSame(n, Drops(s[..n]), Drops(s));
      CountNext(n, Drops(s));
    }
  }

  lemma {:induction false} RepeatedCounts(s: seq<Event>)
    ensures Repeated(s) == CountBelow(|s|, Stays(s))
  {
    hide CountBelow;
    if |s| == 0 {
      CountNone(Stays(s));
    } else {
      var n := |s| - 1;
      RepeatedCounts(s[..n]);
      CountSame(n, Stays(s[..n]), Stays(s));
      CountNext(n, Stays(s));
    }
  }

  lemma {:induction false} ValueChangesCounts(s: seq<Event>)
    ensures ValueChanges(s) == CountBelow(|s|, Alters(s))
  {
    hide CountBelow;
    if |s| == 0 {
      CountNone(Alters(s));
    } else {
      var n := |s| - 1;
      ValueChangesCounts(s[..n]);
      CountSame(n, Alters(s[..n]), Alters(s));
      CountNext(n, Alters(s));
    }
  }

  // The places of the history with a request of the operation at pc, and those answered with OK.
  function Asks(history: seq<Event>, operation: Access, pc: u64): nat -> bool {
    (i: nat) => i < |history| && history[i].request.operation == operation && history[i].request.pc == pc
  }

  function Succeeds(history: seq<Event>, operation: Access, pc: u64): nat -> bool {
    (i: nat) =>
      && i < |history|
      && history[i].request.operation == operation && history[i].request.pc == pc && history[i].reply.result == 0
  }

  lemma {:induction false} RequestsCount(history: seq<Event>, operation: Access, pc: u64)
    ensures Requests(history, operation, pc) == CountBelow(|history|, Asks(history, operation, pc))
  {
    hide CountBelow;
    var p := Asks(history, operation, pc);
    if |history| == 0 {
      CountNone(p);
    } else {
      var n := |history| - 1;
      RequestsCount(history[..n], operation, pc);
      CountSame(n, Asks(history[..n], operation, pc), p);
      CountNext(n, p);
    }
  }

  // As many successes as such places.
  lemma {:induction false} SuccessesCount(history: seq<Event>, operation: Access, pc: u64)
    ensures |Successes(history, operation, pc)| == CountBelow(|history|, Succeeds(history, operation, pc))
  {
    hide CountBelow;
    var p := Succeeds(history, operation, pc);
    if |history| == 0 {
      CountNone(p);
    } else {
      var n := |history| - 1;
      SuccessesCount(history[..n], operation, pc);
      CountSame(n, Succeeds(history[..n], operation, pc), p);
      CountNext(n, p);
    }
  }

  // They come in order: the success at place i follows those of the history before it.
  lemma {:induction false} SuccessesInOrder(history: seq<Event>, operation: Access, pc: u64, i: nat)
    requires i < |history| && Succeeds(history, operation, pc)(i)
    ensures Successes(history[..i], operation, pc) + [history[i]] <= Successes(history, operation, pc)
  {
    var n := |history| - 1;
    if i < n {
      var h := history[..n];
      assert h[..i] == history[..i] && h[i] == history[i];
      SuccessesInOrder(h, operation, pc, i);
    }
  }

  lemma {:induction false} CountsBound(history: seq<Event>, operation: Access, pc: u64)
    ensures |Successes(history, operation, pc)| <= Requests(history, operation, pc) <= |history|
  {
    if |history| > 0 {
      CountsBound(history[..|history| - 1], operation, pc);
    }
  }

  lemma {:induction false} ChangesBound(s: seq<Event>)
    ensures ValueChanges(s) <= |s|
  {
    if |s| >= 2 {
      ChangesBound(s[..|s| - 1]);
    }
  }

  lemma HistoryGrows(history: seq<Event>, e: Event, operation: Access, pc: u64)
    ensures Requests(history + [e], operation, pc)
         == Requests(history, operation, pc) + (if Watched(e, operation, pc) then 1 else 0)
    ensures Successes(history + [e], operation, pc)
         == if Watched(e, operation, pc) && e.reply.result == OK then Successes(history, operation, pc) + [e]
            else Successes(history, operation, pc)
  {
    assert (history + [e])[..|history|] == history;
  }

  lemma SuccessesGrow(s: seq<Event>, e: Event)
    requires |s| > 0
    ensures var last := s[|s| - 1];
      && Forward(s + [e]) == Forward(s) + (if Address(e) > Address(last) then 1 else 0)
      && Backward(s + [e]) == Backward(s) + (if Address(e) < Address(last) then 1 else 0)
      && Repeated(s + [e]) == Repeated(s) + (if Address(e) == Address(last) then 1 else 0)
      && ValueChanges(s + [e]) == ValueChanges(s) + (if Changes(last, e) then 1 else 0)
  {
    assert (s + [e])[..|s|] == s;
  }

  lemma CrossingGrows(s: seq<Event>, e: Event, threshold: u64)
    requires |s| > 0
    ensures FirstCrossing(s + [e], threshold)
         == if FirstCrossing(s, threshold).Some? then FirstCrossing(s, threshold)
            else if Address(s[|s| - 1]) < threshold <= Address(e) then Some(|s|) else None
  {
    assert (s + [e])[..|s|] == s;
  }

  // ----- the watches

  class LoadWatch {
    const pc: u64
    const threshold: Option<u64>
    var requests: nat
    var successful: nat
    var firstAddress: u64
    var lastAddress: u64
    var lastValue0: u64
    var lastValue1: u64
    var forward: nat
    var backward: nat
    var repeated: nat
    var valueChanges: nat
    var firstThresholdSequence: nat
    var firstThresholdFrom: u64
    var firstThresholdAddress: u64
    ghost var history: seq<Event>

    ghost predicate Valid()
      reads this
    {
      var s := Successes(history, Load, pc);
      && |history| <= U64_MAX
      && requests == Requests(history, Load, pc)
      && Summarises(s)
      && RecordsCrossing(Crossing(s), s)
    }

    // Counters and last values of the successes.
    ghost predicate Summarises(s: seq<Event>)
      reads this
    {
      && successful == |s|
      && forward == Forward(s) && backward == Backward(s) && repeated == Repeated(s)
      && valueChanges == ValueChanges(s)
      && (|s| > 0 ==>
            && firstAddress == Address(s[0])
            && lastAddress == Address(s[|s| - 1])
            && lastValue0 == s[|s| - 1].reply.value0 && lastValue1 == s[|s| - 1].reply.value1)
      && (|s| == 0 ==> firstAddress == lastAddress == lastValue0 == lastValue1 == 0)
    }

    // Zeros stand for no crossing; otherwise the sequence number counts successes from one.
    ghost predicate RecordsCrossing(crossing: Option<nat>, s: seq<Event>)
      reads this
    {
      match crossing
      case None => firstThresholdSequence == firstThresholdFrom == firstThresholdAddress == 0
      case Some(k) =>
        && 1 <= k < |s|
        && firstThresholdSequence == k + 1
        && firstThresholdFrom == Address(s[k - 1])
        && firstThresholdAddress == Address(s[k])
    }

    constructor (pc: u64, threshold: Option<u64>)
      ensures Valid() && history == [] && this.pc == pc && this.threshold == threshold
    {
      this.pc, this.threshold := pc, threshold;
      requests, successful, forward, backward, repeated, valueChanges := 0, 0, 0, 0, 0, 0;
      firstAddress, lastAddress, lastValue0, lastValue1 := 0, 0, 0, 0;
      firstThresholdSequence, firstThresholdFrom, firstThresholdAddress := 0, 0, 0;
      history := [];
    }

    ghost function Crossing(s: seq<Event>): Option<nat> {
      if threshold.Some? then FirstCrossing(s, threshold.value) else None
    }

    // The part of Record that looks for the threshold, before the last address is updated.
    method NoteCrossing(address: u64, ghost s: seq<Event>, ghost e: Event)
      requires |s| > 0 && successful == |s| < U64_MAX && lastAddress == Address(s[|s| - 1])
      requires RecordsCrossing(Crossing(s), s) && address == Address(e)
      modifies this`firstThresholdSequence, this`firstThresholdFrom, this`firstThresholdAddress
      ensures RecordsCrossing(Crossing(s + [e]), s + [e])
    {
      hide FirstCrossing, Forward, Backward, Repeated, ValueChanges;
      if threshold.Some? {
        CrossingGrows(s, e, threshold.value);
        if firstThresholdSequence == 0 && lastAddress < threshold.value && address >= threshold.value {
          firstThresholdSequence := SaturatingNext(successful);
          firstThresholdFrom := lastAddress;
          firstThresholdAddress := address;
        }
      }
    }

    // The part that compares a success with the one before it.
    method CountStep(request: Request, reply: Reply, ghost s: seq<Event>)
      requires |s| > 0 && Summarises(s) && |s| < U64_MAX
      modifies this`forward, this`backward, this`repeated, this`valueChanges
      ensures var s' := s + [Event(request, reply)];
        && forward == Forward(s') && backward == Backward(s')
        && repeated == Repeated(s') && valueChanges == ValueChanges(s')
    {
      hide Forward, Backward, Repeated, ValueChanges;
      DirectionsAddUp(s);
      ChangesBound(s);
      SuccessesGrow(s, Event(request, reply));
      if request.address > lastAddress {
        forward := SaturatingNext(forward);
      } else if request.address < lastAddress {
        backward := SaturatingNext(backward);
      } else {
        repeated := SaturatingNext(repeated);
      }
      if reply.value0 != lastValue0 || (request.count == 2 && reply.value1 != lastValue1) {
        valueChanges := SaturatingNext(valueChanges);
      }
    }

    // The part of Record that applies to successful requests.
    method RecordSuccess(request: Request, reply: Reply, ghost s: seq<Event>)
      requires Summarises(s) && RecordsCrossing(Crossing(s), s) && |s| < U64_MAX
      modifies this
      ensures Summarises(s + [Event(request, reply)])
      ensures RecordsCrossing(Crossing(s + [Event(request, reply)]), s + [Event(request, reply)])
      ensures history == old(history) && requests == old(requests)
    {
      hide Forward, Backward, Repeated, ValueChanges, FirstCrossing;
      ghost var e := Event(request, reply);
      OneSuccess(e);
      if successful == 0 {
        NoSuccess(s, e);
        firstAddress := request.address;
      } else {
        CountStep(request, reply, s);
        NoteCrossing(request.address, s, e);
      }
      successful := SaturatingNext(successful);
      lastAddress := request.address;
      lastValue0 := reply.value0;
      lastValue1 := reply.value1;
    }

    // Fewer than 2^64-1 requests, so that no counter has saturated.
    method Record(request: Request, reply: Reply)
      requires Valid() && |history| < U64_MAX
      modifies this
      ensures Valid() && history == old(history) + [Event(request, reply)]
    {
      hide Successes, Requests, Forward, Backward, Repeated, ValueChanges, FirstCrossing;
      ghost var e, s := Event(request, reply), Successes(history, Load, pc);
      HistoryGrows(history, e, Load, pc);
      CountsBound(history, Load, pc);
      history := history + [e];
      if request.operation != Load || request.pc != pc {
        return;
      }
      requests := SaturatingNext(requests);
      if reply.result != OK {
        return;
      }
      RecordSuccess(request, reply, s);
    }
  }

  lemma NoSuccess(s: seq<Event>, e: Event)
    requires |s| == 0
    ensures s == [] && s + [e] == [e]
    ensures Forward(s) == Backward(s) == Repeated(s) == ValueChanges(s) == 0
  {
  }

  lemma OneSuccess(e: Event)
    ensures Forward([e]) == Backward([e]) == Repeated([e]) == ValueChanges([e]) == 0
    ensures forall threshold: u64 :: FirstCrossing([e], threshold) == None && FirstCrossing([], threshold) == None
  {
  }

  class StoreWatch {
    const pc: u64
    var requests: nat
    var successful: nat
    var first: Option<Request>
    var lastAddress: u64
    var lastValue: u64
    var forward: nat
    var backward: nat
    var repeated: nat
    ghost var history: seq<Event>

    ghost predicate Valid()
      reads this
    {
      var s := Successes(history, Store, pc);
      && |history| <= U64_MAX
      && requests == Requests(history, Store, pc)
      && successful == |s|
      && forward == Forward(s) && backward == Backward(s) && repeated == Repeated(s)
      && (|s| > 0 ==> lastAddress == Address(s[|s| - 1]) && lastValue == s[|s| - 1].request.value0)
      && (|s| == 0 ==> lastAddress == lastValue == 0)
      && first == (if |s| > 0 then Some(s[0].request) else None)
    }

    constructor (pc: u64)
      ensures Valid() && history == [] && this.pc == pc
    {
      this.pc := pc;
      requests, successful, forward, backward, repeated := 0, 0, 0, 0, 0;
      first, lastAddress, lastValue, history := None, 0, 0, [];
    }

    method Record(request: Request, reply: Reply)
      requires Valid() && |history| < U64_MAX
      modifies this
      ensures Valid() && history == old(history) + [Event(request, reply)]
    {
      hide Successes, Requests, Forward, Backward, Repeated, ValueChanges, FirstCrossing;
      ghost var e, s := Event(request, reply), Successes(history, Store, pc);
      HistoryGrows(history, e, Store, pc);
      CountsBound(history, Store, pc);
      history := history + [e];
      if request.operation != Store || request.pc != pc {
        return;
      }
      requests := SaturatingNext(requests);
      if reply.result != OK {
        return;
      }
      DirectionsAddUp(s);
      OneSuccess(e);
      if successful == 0 {
        assert s == [] && s + [e] == [e];
        first := Some(request);
      } else {
        SuccessesGrow(s, e);
        if request.address > lastAddress {
          forward := SaturatingNext(forward);
        } else if request.address < lastAddress {
          backward := SaturatingNext(backward);
        } else {
          repeated := SaturatingNext(repeated);
        }
      }
      successful := SaturatingNext(successful);
      lastAddress := request.address;
      lastValue := request.value0;
    }
  }
}
