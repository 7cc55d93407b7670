/** The fetch-flow observer: counters, the first and last control-flow edges, and the edges
    that follow a watched departure. Every field is a function of the fetch history. */
module FetchTrace {
  import opened Uefi
  import opened Bits
  import opened Counting

  const FIRST_FLOW_EDGES: nat := 32
  const LAST_FLOW_EDGES: nat := 16
  const WATCH_FOLLOW_EDGES: nat := 16

  datatype Edge = Edge(sequence: nat, from: u64, target: u64)

  // The next instruction's address.
  predicate Sequential(previous: u64, pc: u64) {
    pc == previous + 4
  }

  // ----- functions of the history

  // The non-sequential transitions, each with the number of the fetch it leads to.
  function Edges(history: seq<u64>): seq<Edge> {
    if |history| < 2 then []
    else
      var n := |history|;
      var before := Edges(history[..n - 1]);
      if Sequential(history[n - 2], history[n - 1]) then before else before + [Edge(n, history[n - 2], history[n - 1])]
  }

  // How often control left `from`, and how often for the next instruction.
  function Departures(history: seq<u64>, from: u64): nat {
    if |history| < 2 then 0
    else Departures(history[..|history| - 1], from) + if history[|history| - 2] == from then 1 else 0
  }

  function Fallthroughs(history: seq<u64>, from: u64): nat {
    if |history| < 2 then 0
    else
      var n := |history|;
      Fallthroughs(history[..n - 1], from)
      + if history[n - 2] == from && Sequential(from, history[n - 1]) then 1 else 0
  }

  // The edges from the first one that leaves `from` on.
  function Following(edges: seq<Edge>, from: u64): seq<Edge> {
    if |edges| == 0 then []
    else
      var before, last := Following(edges[..|edges| - 1], from), edges[|edges| - 1];
      if |before| > 0 || last.from == from then before + [last] else []
  }

  function EdgesFrom(edges: seq<Edge>, from: u64): nat {
    if |edges| == 0 then 0
    else EdgesFrom(edges[..|edges| - 1], from) + if edges[|edges| - 1].from == from then 1 else 0
  }

  // ----- what those functions mean

  // Each edge is a transition of the history that is not sequential, in order and complete.
  lemma {:induction false} EdgesAreTransitions(history: seq<u64>)
    ensures forall e :: e in Edges(history) <==>
      2 <= e.sequence <= |history| && e.from == history[e.sequence - 2] && e.target == history[e.sequence - 1]
      && e.target != e.from + 4
    ensures forall i, j :: 0 <= i < j < |Edges(history)| ==> Edges(history)[i].sequence < Edges(history)[j].sequence
    ensures forall i :: 0 <= i < |Edges(history)| ==> Edges(history)[i].sequence <= |history|
  {
    if |history| >= 2 {
      EdgesAreTransitions(history[..|history| - 1]);
    }
  }

  // Following is one contiguous stretch of the edge list: it starts at the first departure
  // from `from` that is an edge, and runs to the end.
  lemma {:induction false} FollowingIsSuffix(edges: seq<Edge>, from: u64)
    ensures var k := |edges| - |Following(edges, from)|;
      && 0 <= k && Following(edges, from) == edges[k..]
      && (forall i :: 0 <= i < k ==> edges[i].from != from)
      && (k < |edges| ==> edges[k].from == from)
  {
    if |edges| > 0 {
      FollowingIsSuffix(edges[..|edges| - 1], from);
    }
  }

  // The places of the history that were reached from `from`, and those among them where the
  // next instruction was.
  function Leaves(history: seq<u64>, from: u64): nat -> bool {
    (i: nat) => 1 <= i < |history| && history[i - 1] == from
  }

  function Falls(history: seq<u64>, from: u64): nat -> bool {
    (i: nat) => 1 <= i < |history| && history[i - 1] == from && history[i] == from + 4
  }

  // The counts are numbers of such places.
  lemma {:induction false} DeparturesAre(history: seq<u64>, from: u64)
    ensures Departures(history, from) == CountBelow(|history|, Leaves(history, from))
    ensures Fallthroughs(history, from) == CountBelow(|history|, Falls(history, from))
  {
    hide CountBelow;
    if |history| == 0 {
      CountNone(Leaves(history, from));
      CountNone(Falls(history, from));
    } else {
      var n := |history| - 1;
      var h := history[..n];
      DeparturesAre(h, from);
      CountSame(n, Leaves(h, from), Leaves(history, from));
      CountSame(n, Falls(h, from), Falls(history, from));
      CountNext(n, Leaves(history, from));
      CountNext(n, Falls(history, from));
    }
  }

  // Departures that do not fall through are exactly the edges that leave `from`.
  lemma {:induction false} DeparturesSplit(history: seq<u64>, from: u64)
    ensures Departures(history, from) == Fallthroughs(history, from) + EdgesFrom(Edges(history), from)
  {
    if |history| >= 2 {
      var n := |history|;
      DeparturesSplit(history[..n - 1], from);
      var edges := Edges(history[..n - 1]);
      if !Sequential(history[n - 2], history[n - 1]) {
        assert (edges + [Edge(n, history[n - 2], history[n - 1])])[..|edges|] == edges;
      }
    }
  }

  lemma {:induction false} EdgesBound(history: seq<u64>)
    ensures |Edges(history)| <= |history|
    ensures |history| > 0 ==> |Edges(history)| < |history|
  {
    if |history| >= 2 {
      EdgesBound(history[..|history| - 1]);
    }
  }

  lemma {:induction false} DeparturesBound(history: seq<u64>, from: u64)
    ensures Fallthroughs(history, from) <= Departures(history, from) <= |history|
  {
    if |history| >= 2 {
      DeparturesBound(history[..|history| - 1], from);
    }
  }

  lemma HistoryGrows(history: seq<u64>, pc: u64, from: u64)
    requires |history| > 0
    ensures var previous, h := history[|history| - 1], history + [pc];
      && Edges(h) == (if Sequential(previous, pc) then Edges(history) else Edges(history) + [Edge(|h|, previous, pc)])
      && Departures(h, from) == Departures(history, from) + (if previous == from then 1 else 0)
      && Fallthroughs(h, from)
         == Fallthroughs(history, from) + (if previous == from && Sequential(from, pc) then 1 else 0)
  {
    assert (history + [pc])[..|history|] == history;
  }

  lemma FollowingGrows(edges: seq<Edge>, e: Edge, from: u64)
    ensures Following(edges + [e], from)
         == if |Following(edges, from)| > 0 || e.from == from then Following(edges, from) + [e] else []
  {
    assert (edges + [e])[..|edges|] == edges;
  }

  // A single fetch is no transition.
  lemma FirstFetch(history: seq<u64>, pc: u64)
    ensures |history| == 0 ==> Edges(history + [pc]) == Edges(history) == []
    ensures |history| == 0 ==> forall from: u64 ::
      Departures(history + [pc], from) == Departures(history, from) == 0
      && Fallthroughs(history + [pc], from) == Fallthroughs(history, from) == 0
  {
  }

  // ----- the observers

  class FetchWatch {
    const from: u64
    const follow: array<Edge>
    var visits: nat
    var fallthrough: nat
    var firstTaken: Option<Edge>
    var followCount: nat

    ghost predicate Agrees(history: seq<u64>)
      reads this, follow
    {
      var taken := Following(Edges(history), from);
      && follow.Length == WATCH_FOLLOW_EDGES
      && visits == Departures(history, from)
      && fallthrough == Fallthroughs(history, from)
      && firstTaken == (if |taken| > 0 then Some(taken[0]) else None)
      && followCount == Min(|taken|, 16)
      && follow[..followCount] == taken[..followCount]
    }

    constructor (from: u64)
      ensures Agrees([]) && this.from == from && fresh(follow)
    {
      this.from := from;
      follow := new Edge[WATCH_FOLLOW_EDGES](_ => Edge(0, 0, 0));
      visits, fallthrough, firstTaken, followCount := 0, 0, None, 0;
    }

    method Record(previous: u64, pc: u64, sequence: nat, ghost history: seq<u64>)
      requires |history| > 0 && history[|history| - 1] == previous
      requires sequence == |history| + 1 <= U64_MAX
      requires Agrees(history)
      modifies this, follow
      ensures Agrees(history + [pc])
    {
      hide Edges, Departures, Fallthroughs, Following;
      HistoryGrows(history, pc, from);
      DeparturesBound(history, from);
      FollowingGrows(Edges(history), Edge(sequence, previous, pc), from);
      ghost var taken := Following(Edges(history), from);
      if previous == from {
        visits := SaturatingNext(visits);
        if from + 4 <= U64_MAX && from + 4 == pc {
          fallthrough := SaturatingNext(fallthrough);
        } else if firstTaken.None? {
          firstTaken := Some(Edge(sequence, previous, pc));
        }
      }
      if firstTaken.Some? && !(previous + 4 <= U64_MAX && previous + 4 == pc) {
        Follow(Edge(sequence, previous, pc), taken);
      }
    }

    // Keep an edge while there is room.
    method Follow(edge: Edge, ghost taken: seq<Edge>)
      requires follow.Length == WATCH_FOLLOW_EDGES
      requires followCount == Min(|taken|, WATCH_FOLLOW_EDGES) && follow[..followCount] == taken[..followCount]
      modifies this`followCount, follow
      ensures var taken' := taken + [edge];
        followCount == Min(|taken'|, WATCH_FOLLOW_EDGES) && follow[..followCount] == taken'[..followCount]
    {
      if followCount < WATCH_FOLLOW_EDGES {
        follow[followCount] := edge;
        followCount := followCount + 1;
        assert follow[..followCount] == taken[..followCount - 1] + [edge];
      }
    }
  }

  class FetchFlow {
    var successful: nat
    var previous: Option<u64>
    var edgeCount: nat
    const first: array<Edge>
    const last: array<Edge>
    const watch: FetchWatch?
    ghost var history: seq<u64>

    ghost predicate Valid()
      reads this, first, last, watch, if watch == null then {} else {watch.follow}
    {
      && Holds(Edges(history))
      && (watch != null ==> watch.follow != first && watch.follow != last && watch.Agrees(history))
      && successful == |history| <= U64_MAX
      && previous == (if |history| > 0 then Some(history[|history| - 1]) else None)
    }

    // The two arrays hold the first 32 and, in a ring, the last 16 of the edges.
    ghost predicate Holds(edges: seq<Edge>)
      reads this, first, last
    {
      && first.Length == FIRST_FLOW_EDGES && last.Length == LAST_FLOW_EDGES && first != last
      && edgeCount == |edges|
      && first[..Min(edgeCount, FIRST_FLOW_EDGES)] == edges[..Min(edgeCount, FIRST_FLOW_EDGES)]
      && (forall i :: 0 <= i < edgeCount && edgeCount - LAST_FLOW_EDGES <= i ==> last[i % LAST_FLOW_EDGES] == edges[i])
    }

    method Push(edge: Edge, ghost edges: seq<Edge>)
      requires Holds(edges) && |edges| < U64_MAX
      modifies this`edgeCount, first, last
      ensures Holds(edges + [edge])
    {
      if edgeCount < FIRST_FLOW_EDGES {
        first[edgeCount] := edge;
        assert first[..edgeCount + 1] == edges[..edgeCount] + [edge];
      }
      last[edgeCount % LAST_FLOW_EDGES] := edge;
      edgeCount := SaturatingNext(edgeCount);
    }

    constructor (watched: Option<u64>)
      ensures Valid() && history == []
      ensures (watch == null <==> watched.None?) && (watch != null ==> watch.from == watched.value)
      ensures fresh(first) && fresh(last) && (watch != null ==> fresh(watch) && fresh(watch.follow))
    {
      successful, previous, edgeCount, history := 0, None, 0, [];
      var heads := new Edge[FIRST_FLOW_EDGES](_ => Edge(0, 0, 0));
      var tails := new Edge[LAST_FLOW_EDGES](_ => Edge(0, 0, 0));
      first, last := heads, tails;
      if watched.Some? {
        var w := new FetchWatch(watched.value);
        watch := w;
      } else {
        watch := null;
      }
    }

    // Fewer than 2^64-1 fetches, so that no counter has saturated.
    method Record(pc: u64)
      requires Valid() && |history| < U64_MAX
      modifies this, first, last, watch, if watch == null then {} else {watch.follow}
      ensures Valid() && history == old(history) + [pc]
    {
      hide Edges, Departures, Fallthroughs, Following;
      FirstFetch(history, pc);
      successful := SaturatingNext(successful);
      if previous.Some? {
        HistoryGrows(history, pc, 0);
        EdgesBound(history);
        if watch != null {
          watch.Record(previous.value, pc, successful, history);
        }
        if !(previous.value + 4 <= U64_MAX && previous.value + 4 == pc) {
          Push(Edge(successful, previous.value, pc), Edges(history));
        }
      }
      previous := Some(pc);
      history := history + [pc];
    }

    // The edges the report prints, read back from the two arrays.
    method Report() returns (heads: seq<Edge>, tails: seq<Edge>)
      requires Valid()
      ensures var edges := Edges(history);
        && heads == edges[..Min(|edges|, 32)]
        && tails == if |edges| > 32 then edges[|edges| - 16..] else []
    {
      heads := first[..Min(edgeCount, FIRST_FLOW_EDGES)];
      tails := [];
      if edgeCount > FIRST_FLOW_EDGES {
        var retained := Min(edgeCount, LAST_FLOW_EDGES);
        ghost var start := edgeCount - retained;
        for index := edgeCount - retained to edgeCount
          invariant tails == Edges(history)[start..index]
        {
          tails := tails + [last[index % LAST_FLOW_EDGES]];
        }
      }
    }
  }
}
