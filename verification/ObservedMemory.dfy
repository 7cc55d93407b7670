/** The observing wrapper around the memory service: it forwards every request unchanged and
    keeps the last 64 in a ring. A second ring, kept by the mapped trace, is indexed by its
    running total instead; both are shown to yield the same stretch of the history. */
module ObservedMemory {
  import opened Accesses
  import opened Bits
  import opened MemoryWatches

  const CAPACITY: nat := 64

  datatype Entry = Entry(sequence: nat, request: Request, result: nat)

  // What is kept of a history: the sequence number saturates with the total.
  function Entries(history: seq<Event>): seq<Entry> {
    if |history| == 0 then []
    else
      var last := history[|history| - 1];
      Entries(history[..|history| - 1])
      + [Entry(Saturated(|history|), last.request, last.reply.result)]
  }

  function Saturated(n: nat): nat {
    if n > U64_MAX then U64_MAX else n
  }

  lemma {:induction false} EntriesInOrder(history: seq<Event>)
    ensures |Entries(history)| == |history|
    ensures forall i :: 0 <= i < |history| ==>
      Entries(history)[i] == Entry(if i < 0xffff_ffff_ffff_ffff then i + 1 else 0xffff_ffff_ffff_ffff,
                                   history[i].request, history[i].reply.result)
  {
    if |history| > 0 {
      EntriesInOrder(history[..|history| - 1]);
    }
  }

  lemma EntriesGrow(history: seq<Event>, e: Event)
    ensures Entries(history + [e]) == Entries(history) + [Entry(Saturated(|history| + 1), e.request, e.reply.result)]
  {
    assert (history + [e])[..|history|] == history;
  }

  function LastOf<T>(s: seq<T>, n: nat): seq<T> {
    if |s| <= n then s else s[|s| - n..]
  }

  // The end of the list, as long as there are entries but no longer than n.
  lemma LastIsSuffix<T>(s: seq<T>, n: nat)
    ensures |LastOf(s, n)| <= |s| && s == s[..|s| - |LastOf(s, n)|] + LastOf(s, n)
    ensures |LastOf(s, n)| == if |s| < n then |s| else n
  {
  }

  // A service: its next state and its reply.
  type Service<!S> = (S, Request) -> (S, Reply)

  function StateAfter<S>(service: Service<S>, start: S, requests: seq<Request>): S {
    if |requests| == 0 then start
    else service(StateAfter(service, start, requests[..|requests| - 1]), requests[|requests| - 1]).0
  }

  // The unobserved service's replies to the same requests.
  function BareReplies<S>(service: Service<S>, start: S, requests: seq<Request>): seq<Reply> {
    if |requests| == 0 then []
    else
      var before, last := requests[..|requests| - 1], requests[|requests| - 1];
      BareReplies(service, start, before) + [service(StateAfter(service, start, before), last).1]
  }

  function RequestsOf(history: seq<Event>): seq<Request> {
    seq(|history|, i requires 0 <= i < |history| => history[i].request)
  }

  function RepliesOf(history: seq<Event>): seq<Reply> {
    seq(|history|, i requires 0 <= i < |history| => history[i].reply)
  }

  class Observer<S> {
    const service: Service<S>
    ghost const start: S
    const ring: array<Entry>
    var state: S
    var next: nat
    var len: nat
    var total: nat
    ghost var history: seq<Event>

    ghost predicate Valid()
      reads this, ring
    {
      && RingHolds(Entries(history))
      && |Entries(history)| == |history|
      && total == Saturated(|history|)
      && state == StateAfter(service, start, RequestsOf(history))
      && RepliesOf(history) == BareReplies(service, start, RequestsOf(history))
    }

    // The last of all entries, each in the slot its number gives it.
    ghost predicate RingHolds(all: seq<Entry>)
      reads this, ring
    {
      && ring.Length == CAPACITY
      && next == |all| % CAPACITY
      && len == (if |all| < CAPACITY then |all| else CAPACITY)
      && forall i :: 0 <= i < |all| && |all| - CAPACITY <= i ==> ring[i % CAPACITY] == all[i]
    }

    // The part of Execute that writes the ring.
    method Push(entry: Entry, ghost all: seq<Entry>)
      requires RingHolds(all)
      modifies this`next, this`len, ring
      ensures RingHolds(all + [entry])
    {
      ring[next] := entry;
      next := (next + 1) % CAPACITY;
      len := if len + 1 < CAPACITY then len + 1 else CAPACITY;
      NextSlot(|all|);
    }

    constructor (service: Service<S>, start: S)
      ensures Valid() && history == [] && fresh(ring)
    {
      this.service, this.start, state := service, start, start;
      ring := new Entry[CAPACITY](_ => Entry(0, Request(Fetch, 0, 0, 0, 0, 0), 0));
      next, len, total, history := 0, 0, 0, [];
    }

    // Any number of requests, past the saturation of `total` included. The reply is the one
    // the bare service gives after the same requests, since Valid says so of the history.
    method Execute(request: Request) returns (reply: Reply)
      requires Valid()
      modifies this, ring
      ensures Valid() && history == old(history) + [Event(request, reply)]
    {
      hide Entries, StateAfter, BareReplies;
      var answer := service(state, request);
      reply := answer.1;
      state := answer.0;
      total := SaturatingNext(total);
      Push(Entry(total, request, reply.result), Entries(history));
      EntriesGrow(history, Event(request, reply));
      ServiceStep(service, start, history, Event(request, reply));
      history := history + [Event(request, reply)];
    }

    // Exactly the last min(64, n) requests, oldest first.
    method LastEntries() returns (kept: seq<Entry>)
      requires Valid()
      ensures kept == LastOf(Entries(history), 64)
    {
      hide Entries, StateAfter, BareReplies;
      var first := if len == CAPACITY then next else 0;
      kept := [];
      ghost var all := LastOf(Entries(history), CAPACITY);
      for offset := 0 to len
        invariant kept == all[..offset]
      {
        RingSlot(|history|, len, next, offset);
        kept := kept + [ring[(first + offset) % CAPACITY]];
      }
    }
  }

  lemma NextSlot(n: nat)
    ensures (n % CAPACITY + 1) % CAPACITY == (n + 1) % CAPACITY
    ensures forall i :: 0 <= i < n && n + 1 - CAPACITY <= i ==> i % CAPACITY != n % CAPACITY
  {
    var q, s := n / CAPACITY, n % CAPACITY;
    RemainderOf(n + 1, CAPACITY, if s + 1 < CAPACITY then q else q + 1, if s + 1 < CAPACITY then s + 1 else 0);
  }

  // The reader's slot arithmetic and the writer's agree.
  lemma RingSlot(n: nat, len: nat, next: nat, offset: nat)
    requires next == n % CAPACITY && len == (if n < CAPACITY then n else CAPACITY) && offset < len
    ensures var first := if len == CAPACITY then next else 0;
      (first + offset) % CAPACITY == (n - len + offset) % CAPACITY
  {
    if n >= CAPACITY {
      var q, s := (next + offset) / CAPACITY, (next + offset) % CAPACITY;
      RemainderOf(n - CAPACITY + offset, CAPACITY, n / CAPACITY - 1 + q, s);
    }
  }

  lemma ServiceStep<S>(service: Service<S>, start: S, history: seq<Event>, e: Event)
    ensures var (s, r) := service(StateAfter(service, start, RequestsOf(history)), e.request);
      && StateAfter(service, start, RequestsOf(history + [e])) == s
      && (RepliesOf(history) == BareReplies(service, start, RequestsOf(history)) && e.reply == r ==>
            RepliesOf(history + [e]) == BareReplies(service, start, RequestsOf(history + [e])))
  {
    var h := history + [e];
    assert RequestsOf(h)[..|history|] == RequestsOf(history);
    assert RepliesOf(h) == RepliesOf(history) + [e.reply];
  }

  // ----- the mapped trace's own ring

  class TraceRing {
    const ring: array<Entry>
    var total: nat
    ghost var history: seq<Event>

    ghost predicate Valid()
      reads this, ring
    {
      var n, all := |history|, Entries(history);
      && ring.Length == CAPACITY
      && |all| == n == total < U64_MAX
      && (forall i :: 0 <= i < n && n - CAPACITY <= i ==> ring[i % CAPACITY] == all[i])
    }

    constructor ()
      ensures Valid() && history == [] && fresh(ring)
    {
      ring := new Entry[CAPACITY](_ => Entry(0, Request(Fetch, 0, 0, 0, 0, 0), 0));
      total, history := 0, [];
    }

    method Record(request: Request, reply: Reply)
      requires Valid() && |history| + 1 < U64_MAX
      modifies this, ring
      ensures Valid() && history == old(history) + [Event(request, reply)]
    {
      hide Entries;
      var slot := total % CAPACITY;
      total := SaturatingNext(total);
      ring[slot] := Entry(total, request, reply.result);
      EntriesGrow(history, Event(request, reply));
      history := history + [Event(request, reply)];
    }

    // The report loop prints the same list as Observer.LastEntries for the same history.
    method Report() returns (kept: seq<Entry>)
      requires Valid()
      ensures kept == LastOf(Entries(history), 64)
    {
      hide Entries;
      var retained := if total < CAPACITY then total else CAPACITY;
      kept := [];
      ghost var start := total - retained;
      for sequence := total - retained to total
        invariant kept == Entries(history)[start..sequence]
      {
        kept := kept + [ring[sequence % CAPACITY]];
      }
    }
  }
}
