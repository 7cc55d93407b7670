/** UEFI device paths (UEFI 2.10, section 10.3.1): self-delimiting nodes, the bounded
    validator, the descendant test and the streaming reader over firmware memory.

    A path is specified by its nodes: `Encode(nodes)` is their concatenation and an end
    node. Everything the byte-level code decides is stated about node lists. */
module DevicePaths {
  import opened Uefi
  import opened Bytes
  import opened Units

  const MAX_PATH: nat := 2048
  const MAX_NODES: nat := 64
  const END_TYPE: byte := 0x7f
  const END_NODE: seq<byte> := [0x7f, 0xff, 4, 0]

  datatype Invalid = PathInvalid | SizeInvalid | NameInvalid | AttributesInvalid | GeometryInvalid | LimitReached

  type Node = seq<byte>

  // Type, subtype and a little-endian length that covers the node itself.
  predicate IsNode(n: Node) {
    |n| >= 4 && n[0] != END_TYPE && U16(n[2], n[3]) == |n|
  }

  predicate AreNodes(ns: seq<Node>) {
    forall i :: 0 <= i < |ns| ==> IsNode(ns[i])
  }

  function Concat(ns: seq<Node>): seq<byte> {
    if |ns| == 0 then [] else ns[0] + Concat(ns[1..])
  }

  function Encode(ns: seq<Node>): seq<byte> {
    Concat(ns) + END_NODE
  }

  // The paths the crate accepts: 1 to 63 nodes before the end node, in at most 2048 bytes.
  ghost predicate IsPathOf(path: seq<byte>, ns: seq<Node>) {
    && AreNodes(ns)
    && 1 <= |ns| <= 63
    && path == Encode(ns)
    && |path| <= 2048
  }

  ghost predicate IsPath(path: seq<byte>) {
    exists ns :: IsPathOf(path, ns)
  }

  // ----- unique parsing

  // What follows a node list: an end node's type byte, or nothing at all.
  predicate StopsNodes(rest: seq<byte>) {
    |rest| == 0 || rest[0] == END_TYPE
  }

  lemma {:induction false} ParseUnique(ns: seq<Node>, rest: seq<byte>, ms: seq<Node>, rest': seq<byte>)
    requires AreNodes(ns) && AreNodes(ms) && StopsNodes(rest) && StopsNodes(rest')
    requires Concat(ns) + rest == Concat(ms) + rest'
    ensures ns == ms && rest == rest'
  {
    if |ns| == 0 || |ms| == 0 {
      FirstByte(ns, rest);
      FirstByte(ms, rest');
    } else {
      SameFirstNode(ns, rest, ms, rest');
      ParseUnique(ns[1..], rest, ms[1..], rest');
      assert ns == [ns[0]] + ns[1..] && ms == [ms[0]] + ms[1..];
    }
  }

  lemma FirstByte(ns: seq<Node>, rest: seq<byte>)
    requires AreNodes(ns)
    ensures |ns| == 0 ==> Concat(ns) + rest == rest
    ensures |ns| > 0 ==> |Concat(ns) + rest| > 0 && (Concat(ns) + rest)[0] != END_TYPE
  {
    if |ns| > 0 {
      assert (Concat(ns) + rest)[0] == ns[0][0];
    }
  }

  // The length field decides where the first node ends.
  lemma SameFirstNode(ns: seq<Node>, rest: seq<byte>, ms: seq<Node>, rest': seq<byte>)
    requires AreNodes(ns) && AreNodes(ms) && |ns| > 0 && |ms| > 0
    requires Concat(ns) + rest == Concat(ms) + rest'
    ensures ns[0] == ms[0] && Concat(ns[1..]) + rest == Concat(ms[1..]) + rest'
  {
    var x := Concat(ns) + rest;
    NodeSplits(ns, rest);
    NodeSplits(ms, rest');
    assert |ns[0]| == U16(x[2], x[3]) == |ms[0]|;
  }

  lemma NodeSplits(ns: seq<Node>, rest: seq<byte>)
    requires AreNodes(ns) && |ns| > 0
    ensures var x, n := Concat(ns) + rest, |ns[0]|;
      && |x| >= n && x[2] == ns[0][2] && x[3] == ns[0][3]
      && x[..n] == ns[0] && x[n..] == Concat(ns[1..]) + rest
  {
    assert Concat(ns) + rest == ns[0] + (Concat(ns[1..]) + rest);
  }

  lemma {:induction false} ConcatAppend(ns: seq<Node>, ms: seq<Node>)
    ensures Concat(ns + ms) == Concat(ns) + Concat(ms)
  {
    if |ns| == 0 {
      assert ns + ms == ms;
    } else {
      assert (ns + ms)[1..] == ns[1..] + ms;
      ConcatAppend(ns[1..], ms);
    }
  }

  lemma ConcatOne(n: Node)
    ensures Concat([n]) == n
  {
    assert Concat([n]) == n + Concat([n][1..]);
  }

  lemma {:induction false} ConcatLength(ns: seq<Node>)
    requires AreNodes(ns)
    ensures |Concat(ns)| >= 4 * |ns|
    ensures |ns| == 0 ==> |Concat(ns)| == 0
  {
    if |ns| > 0 {
      ConcatLength(ns[1..]);
    }
  }

  // A byte prefix that is itself a node list is a prefix of nodes.
  lemma {:induction false} BytePrefixIsNodePrefix(ns: seq<Node>, ms: seq<Node>)
    requires AreNodes(ns) && AreNodes(ms)
    ensures Concat(ns) <= Concat(ms) <==> ns <= ms
  {
    if Concat(ns) <= Concat(ms) {
      PrefixNodes(ns, ms);
    }
    if ns <= ms {
      assert ms == ns + ms[|ns|..];
      ConcatAppend(ns, ms[|ns|..]);
    }
  }

  lemma {:induction false} PrefixNodes(ns: seq<Node>, ms: seq<Node>)
    requires AreNodes(ns) && AreNodes(ms) && Concat(ns) <= Concat(ms)
    ensures ns <= ms
  {
    if |ns| > 0 {
      FirstByte(ns, []);
      assert |Concat(ns)| > 0;
      var rest := Concat(ms)[|Concat(ns)|..];
      assert Concat(ns) + rest == Concat(ms) + [];
      SameFirstNode(ns, rest, ms, []);
      assert Concat(ms[1..]) + [] == Concat(ms[1..]);
      assert Concat(ns[1..]) <= Concat(ms[1..]);
      PrefixNodes(ns[1..], ms[1..]);
      assert ns == [ns[0]] + ns[1..] && ms == [ms[0]] + ms[1..];
    }
  }

  // ----- the validator

  function LengthField(b: seq<byte>, offset: nat): nat
    requires offset + 4 <= |b|
  {
    U16(b[offset + 2], b[offset + 3])
  }

  // Accepts exactly the encodings of 1 to 63 nodes in at most 2048 bytes, and returns the
  // bytes before the end node.
  method PathBody(path: seq<byte>) returns (r: Result<seq<byte>, Invalid>)
    ensures r.Ok? ==> exists ns :: IsPathOf(path, ns) && r.value == Concat(ns)
    ensures r.Err? ==> r.error == PathInvalid && !IsPath(path)
  {
    if |path| > MAX_PATH {
      return Err(PathInvalid);
    }
    var offset, nodes := 0, 0;
    ghost var seen: seq<Node> := [];
    while offset + 4 <= |path|
      invariant offset <= |path|
      invariant AreNodes(seen) && |seen| == nodes <= MAX_NODES
      invariant path[..offset] == Concat(seen)
      decreases |path| - offset
    {
      var length := LengthField(path, offset);
      if length < 4 || length > |path| - offset || nodes >= MAX_NODES {
        NoFurther(path, seen);
        return Err(PathInvalid);
      }
      nodes := nodes + 1;
      if path[offset] == 0x7f {
        if path[offset + 1] == 0xff && length == 4 && offset + 4 == |path| && offset > 0 {
          assert path[offset..] == END_NODE;
          assert path == Encode(seen);
          assert IsPathOf(path, seen);
          return Ok(path[..offset]);
        }
        NoFurther(path, seen);
        return Err(PathInvalid);
      }
      var node := path[offset..offset + length];
      assert node[2] == path[offset + 2] && node[3] == path[offset + 3];
      ConcatAppend(seen, [node]);
      ConcatOne(node);
      assert path[..offset + length] == path[..offset] + node;
      seen := seen + [node];
      offset := offset + length;
    }
    NoFurther(path, seen);
    r := Err(PathInvalid);
  }

  // Where the validator gives up after reading `seen`, no node list encodes the path.
  lemma NoFurther(path: seq<byte>, seen: seq<Node>)
    requires AreNodes(seen) && Concat(seen) <= path && |path| <= MAX_PATH
    requires var offset := |Concat(seen)|;
      || offset + 4 > |path|
      || LengthField(path, offset) < 4
      || LengthField(path, offset) > |path| - offset
      || |seen| >= MAX_NODES
      || (path[offset] == 0x7f && !(path[offset..] == END_NODE && offset > 0))
    ensures !IsPath(path)
  {
    forall ns | IsPathOf(path, ns) ensures false {
      NextNode(path, seen, ns);
    }
  }

  // If x starts with the nodes `seen` and also with the encoding of ns, then after `seen`
  // comes the next node of ns, or the end node.
  lemma NextNode(x: seq<byte>, seen: seq<Node>, ns: seq<Node>)
    requires AreNodes(seen) && AreNodes(ns) && Concat(seen) <= x && Encode(ns) <= x
    ensures seen <= ns
    ensures var offset := |Concat(seen)|;
      if |seen| < |ns|
      then offset + |ns[|seen|]| + 4 <= |Encode(ns)| && x[offset..offset + |ns[|seen|]|] == ns[|seen|]
           && LengthField(x, offset) == |ns[|seen|]| >= 4 && x[offset] != END_TYPE
      else offset + 4 == |Encode(ns)| && x[offset..offset + 4] == END_NODE
           && LengthField(x, offset) == 4 && x[offset] == END_TYPE
    ensures |ns| > 0 && |seen| == 0 ==> x[0] != END_TYPE
    ensures |seen| > 0 ==> |Concat(seen)| > 0
  {
    hide LengthField, IsNode, Concat, Encode, AreNodes;
    EncodeLength(ns, |seen|);
    SeenThenRest(x, seen, ns);
    ConcatLength(seen);
    LeftNodes(ns, |seen|);
    assert seen == ns[..|seen|];
    AfterSeen(x, |Concat(seen)|, ns[|seen|..], END_NODE + x[|Encode(ns)|..]);
  }

  lemma LeftNodes(ns: seq<Node>, n: nat)
    requires AreNodes(ns) && n <= |ns|
    ensures AreNodes(ns[n..]) && (n < |ns| ==> ns[n..][0] == ns[n])
  {
  }

  lemma SeenThenRest(x: seq<byte>, seen: seq<Node>, ns: seq<Node>)
    requires AreNodes(seen) && AreNodes(ns) && Concat(seen) <= x && Encode(ns) <= x
    ensures seen <= ns
    ensures x[|Concat(seen)|..] == Concat(ns[|seen|..]) + (END_NODE + x[|Encode(ns)|..])
  {
    hide AreNodes, Concat;
    var rest, end := x[|Concat(seen)|..], END_NODE + x[|Encode(ns)|..];
    assert Concat(seen) + rest == x == Concat(ns) + end;
    SeenIsPrefix(seen, rest, ns, end);
  }

  lemma EncodeLength(ns: seq<Node>, n: nat)
    ensures n < |ns| ==> |Concat(ns[..n])| + |ns[n]| + 4 <= |Encode(ns)|
    ensures n == |ns| ==> |Concat(ns[..n])| + 4 == |Encode(ns)|
  {
    if n <= |ns| {
      ConcatSplit(ns, n);
    }
  }

  lemma AfterSeen(x: seq<byte>, offset: nat, left: seq<Node>, end: seq<byte>)
    requires AreNodes(left) && offset <= |x| && x[offset..] == Concat(left) + end && END_NODE <= end
    ensures offset + 4 <= |x|
    ensures if |left| > 0
      then offset + |left[0]| <= |x| && x[offset..offset + |left[0]|] == left[0]
           && LengthField(x, offset) == |left[0]| >= 4 && x[offset] != END_TYPE
      else x[offset..offset + 4] == END_NODE && LengthField(x, offset) == 4 && x[offset] == END_TYPE
  {
    var rest := x[offset..];
    if |left| > 0 {
      NodeSplits(left, end);
      assert x[offset..offset + |left[0]|] == rest[..|left[0]|];
      assert x[offset + 2] == rest[2] && x[offset + 3] == rest[3] && x[offset] == rest[0] == left[0][0];
    } else {
      assert rest == end;
      assert x[offset..offset + 4] == rest[..4];
      assert x[offset] == rest[0] && x[offset + 2] == rest[2] && x[offset + 3] == rest[3];
    }
  }

  lemma ConcatSplit(ns: seq<Node>, n: nat)
    requires n <= |ns|
    ensures |Concat(ns)| == |Concat(ns[..n])| + |Concat(ns[n..])|
    ensures n < |ns| ==> |Concat(ns[n..])| >= |ns[n]|
  {
    assert ns == ns[..n] + ns[n..];
    ConcatAppend(ns[..n], ns[n..]);
  }

  lemma {:induction false} SeenIsPrefix(seen: seq<Node>, rest: seq<byte>, ns: seq<Node>, end: seq<byte>)
    requires AreNodes(seen) && AreNodes(ns) && |end| > 0 && end[0] == END_TYPE
    requires Concat(seen) + rest == Concat(ns) + end
    ensures seen <= ns && rest == Concat(ns[|seen|..]) + end
  {
    if |seen| == 0 {
      assert ns[0..] == ns;
    } else {
      FirstByte(seen, rest);
      FirstByte(ns, end);
      SameFirstNode(seen, rest, ns, end);
      SeenIsPrefix(seen[1..], rest, ns[1..], end);
      assert ns[1..][|seen| - 1..] == ns[|seen|..];
      assert seen == [seen[0]] + seen[1..] && ns == [ns[0]] + ns[1..];
    }
  }

  // ----- consequences for whole paths

  lemma NodesAreUnique(path: seq<byte>, ns: seq<Node>, ms: seq<Node>)
    requires IsPathOf(path, ns) && IsPathOf(path, ms)
    ensures ns == ms
  {
    ParseUnique(ns, END_NODE, ms, END_NODE);
  }

  // No accepted path is a proper prefix of another.
  lemma PathsArePrefixFree(p: seq<byte>, q: seq<byte>, ns: seq<Node>, ms: seq<Node>)
    requires IsPathOf(p, ns) && IsPathOf(q, ms) && p <= q
    ensures p == q
  {
    NextNode(q, ns, ms);
    NextNode(q, ms, ns);
  }

  // ----- descendants

  // c is a path strictly below p: p's nodes, then at least one more.
  ghost predicate Below(p: seq<byte>, c: seq<byte>) {
    exists ns, ms :: IsPathOf(p, ns) && IsPathOf(c, ms) && ns < ms
  }

  lemma BelowIsStrictOrder(p: seq<byte>, q: seq<byte>, r: seq<byte>)
    ensures !Below(p, p)
    ensures Below(p, q) ==> !Below(q, p)
    ensures Below(p, q) && Below(q, r) ==> Below(p, r)
  {
    forall ns, ms | IsPathOf(p, ns) && IsPathOf(p, ms) ensures ns == ms {
      NodesAreUnique(p, ns, ms);
    }
    if Below(p, q) {
      var ns, ms :| IsPathOf(p, ns) && IsPathOf(q, ms) && ns < ms;
      if Below(q, p) {
        var ms', ns' :| IsPathOf(q, ms') && IsPathOf(p, ns') && ms' < ns';
        NodesAreUnique(q, ms, ms');
        assert false;
      }
      if Below(q, r) {
        var ms', ks :| IsPathOf(q, ms') && IsPathOf(r, ks) && ms' < ks;
        NodesAreUnique(q, ms, ms');
        assert ns < ks;
      }
    }
  }

  // The byte comparison decides the node relation.
  method Descendant(parent: seq<byte>, child: seq<byte>) returns (r: Result<bool, Invalid>)
    ensures r.Ok? <==> IsPath(parent) && IsPath(child)
    ensures r.Ok? ==> (r.value <==> Below(parent, child))
    ensures r.Err? ==> r.error == PathInvalid
  {
    var p := PathBody(parent);
    if p.Err? {
      return Err(p.error);
    }
    var c := PathBody(child);
    if c.Err? {
      return Err(c.error);
    }
    ghost var ns :| IsPathOf(parent, ns) && p.value == Concat(ns);
    ghost var ms :| IsPathOf(child, ms) && c.value == Concat(ms);
    DescendantIsBelow(parent, ns, child, ms);
    r := Ok(|c.value| > |p.value| && p.value <= c.value);
  }

  lemma DescendantIsBelow(parent: seq<byte>, ns: seq<Node>, child: seq<byte>, ms: seq<Node>)
    requires IsPathOf(parent, ns) && IsPathOf(child, ms)
    ensures |Concat(ms)| > |Concat(ns)| && Concat(ns) <= Concat(ms) <==> Below(parent, child)
  {
    BytePrefixIsNodePrefix(ns, ms);
    BytePrefixIsNodePrefix(ms, ns);
    if Below(parent, child) {
      var ns', ms' :| IsPathOf(parent, ns') && IsPathOf(child, ms') && ns' < ms';
      NodesAreUnique(parent, ns, ns');
      NodesAreUnique(child, ms, ms');
    }
  }

  // ----- the streaming reader

  // What the firmware must make readable from the protocol pointer on: after any nodes that
  // memory starts with, one more header, and the node itself when its length is acceptable.
  ghost predicate Readable(memory: seq<byte>) {
    forall ns :: AreNodes(ns) && |ns| < 64 && Concat(ns) <= memory && |Concat(ns)| + 4 <= 2048 ==>
      var offset := |Concat(ns)|;
      && offset + 4 <= |memory|
      && (4 <= LengthField(memory, offset) <= MAX_PATH - offset ==> offset + LengthField(memory, offset) <= |memory|)
  }

  // The bytes of an accepted path are enough: no byte after its end node is ever needed.
  lemma PathIsReadable(path: seq<byte>)
    requires IsPath(path)
    ensures Readable(path)
  {
    var ms :| IsPathOf(path, ms);
    forall ns | AreNodes(ns) && Concat(ns) <= path
      ensures |Concat(ns)| + 4 <= |path|
      ensures |Concat(ns)| + LengthField(path, |Concat(ns)|) <= |path|
    {
      NextNode(path, ns, ms);
    }
  }

  // So are 2048 bytes of anything, and so is a list of 64 nodes.
  lemma EnoughIsReadable(memory: seq<byte>, ms: seq<Node>)
    ensures |memory| >= 2048 ==> Readable(memory)
    ensures AreNodes(ms) && |ms| == 64 && memory == Concat(ms) ==> Readable(memory)
  {
    if AreNodes(ms) && |ms| == 64 && memory == Concat(ms) {
      forall ns | AreNodes(ns) && |ns| < 64 && Concat(ns) <= memory
        ensures |Concat(ns)| + 4 <= |memory|
        ensures |Concat(ns)| + LengthField(memory, |Concat(ns)|) <= |memory|
      {
        SeenIsPrefixOf(memory, ns, ms);
      }
    }
  }

  lemma SeenIsPrefixOf(memory: seq<byte>, ns: seq<Node>, ms: seq<Node>)
    requires AreNodes(ns) && AreNodes(ms) && |ns| < |ms| && memory == Concat(ms) && Concat(ns) <= memory
    ensures |Concat(ns)| + 4 <= |memory|
    ensures |Concat(ns)| + LengthField(memory, |Concat(ns)|) <= |memory|
  {
    var rest := memory[|Concat(ns)|..] + END_NODE;
    assert Concat(ns) + rest == Concat(ms) + END_NODE;
    SeenIsPrefix(ns, rest, ms, END_NODE);
    LeftNodes(ms, |ns|);
    AfterSeen(memory + END_NODE, |Concat(ns)|, ms[|ns|..], END_NODE);
    ConcatSplit(ms, |ns|);
  }

  // Reads node by node, first the header, then the node it announces, and returns the one
  // accepted path that memory starts with, if there is one. Every byte it looks at is one
  // that Readable asks for.
  method DevicePath(memory: seq<byte>) returns (r: Result<seq<byte>, Status>)
    requires Readable(memory)
    ensures r.Ok? <==> exists n :: 0 <= n <= |memory| && IsPath(memory[..n])
    ensures r.Ok? ==> r.value <= memory && IsPath(r.value)
    ensures r.Err? ==> r.error == if EndReached(memory) then VolumeCorrupted else BadBufferSize
  {
    hide Readable, IsNode, AreNodes, Concat, IsPath, LengthField, EndReached;
    NothingSeen();
    var bytes: seq<byte> := [];
    ghost var seen: seq<Node> := [];
    for k := 0 to MAX_NODES
      invariant AreNodes(seen) && |seen| == k
      invariant bytes == Concat(seen) && |bytes| <= |memory| && bytes == memory[..|bytes|] && |bytes| <= MAX_PATH
    {
      var offset := |bytes|;
      if offset + 4 > MAX_PATH {
        StreamStops(memory, seen);
        NoEndReached(memory, seen);
        return Err(BadBufferSize);
      }
      MustBeReadable(memory, seen);
      var header := memory[offset..offset + 4];
      var length := U16(header[2], header[3]);
      if length < 4 || length > MAX_PATH - offset {
        StreamStops(memory, seen);
        NoEndReached(memory, seen);
        return Err(BadBufferSize);
      }
      var end := header[0] == 0x7f;
      var node := memory[offset..offset + length];
      SeenNext(memory, seen, length);
      bytes := bytes + node;
      if end {
        var body := PathBody(bytes);
        if body.Err? {
          StreamStopsAtEnd(memory, seen, length);
          IsEndReached(memory, seen);
          return Err(VolumeCorrupted);
        }
        AcceptedPath(bytes);
        return Ok(bytes);
      }
      seen := seen + [node];
    }
    StreamStops(memory, seen);
    NoEndReached(memory, seen);
    r := Err(BadBufferSize);
  }

  // Fewer than 64 nodes lead to an end node of acceptable length, whether it is proper or not.
  ghost predicate EndReached(memory: seq<byte>) {
    exists ns :: AreNodes(ns) && |ns| < 64 && Concat(ns) <= memory && EndAt(memory, |Concat(ns)|)
  }

  predicate EndAt(memory: seq<byte>, offset: nat) {
    && offset + 4 <= |memory| && offset + 4 <= 2048
    && memory[offset] == 0x7f && 4 <= LengthField(memory, offset) <= 2048 - offset
  }

  lemma IsEndReached(memory: seq<byte>, seen: seq<Node>)
    requires AreNodes(seen) && |seen| < 64 && Concat(seen) <= memory && EndAt(memory, |Concat(seen)|)
    ensures EndReached(memory)
  {
  }

  // Where the reader gives up, it has not missed an end node.
  lemma NoEndReached(memory: seq<byte>, seen: seq<Node>)
    requires AreNodes(seen) && Concat(seen) <= memory
    requires var offset := |Concat(seen)|;
      || offset + 4 > MAX_PATH
      || |seen| >= MAX_NODES
      || (offset + 4 <= |memory| && !(4 <= LengthField(memory, offset) <= MAX_PATH - offset))
    ensures !EndReached(memory)
  {
    hide AreNodes, Concat, LengthField;
    forall ns | AreNodes(ns) && |ns| < 64 && Concat(ns) <= memory && EndAt(memory, |Concat(ns)|) ensures false {
      var offset := |Concat(ns)|;
      var rest := memory[|Concat(seen)|..];
      assert memory[offset..][0] == 0x7f;
      assert Concat(seen) + rest == memory == Concat(ns) + memory[offset..];
      SeenIsPrefix(seen, rest, ns, memory[offset..]);
      LeftNodes(ns, |seen|);
      assert |seen| == |ns| ==> seen == ns;
      if |seen| < |ns| {
        NextLength(memory, seen, ns);
      }
    }
  }

  lemma NextLength(memory: seq<byte>, seen: seq<Node>, ns: seq<Node>)
    requires AreNodes(seen) && AreNodes(ns) && seen <= ns && |seen| < |ns| && Concat(ns) <= memory
    ensures var offset := |Concat(seen)|;
      offset + 4 <= |memory| && 4 <= LengthField(memory, offset) && offset + LengthField(memory, offset) <= |Concat(ns)|
  {
    hide AreNodes, Concat;
    var left, rest := ns[|seen|..], memory[|Concat(ns)|..];
    LeftNodes(ns, |seen|);
    assert ns == seen + left;
    ConcatAppend(seen, left);
    ConcatSplit(ns, |seen|);
    assert ns[..|seen|] == seen;
    assert memory == Concat(ns) + rest;
    assert memory[|Concat(seen)|..] == Concat(left) + rest;
    FirstLength(memory, |Concat(seen)|, left, rest);
  }

  lemma FirstLength(memory: seq<byte>, offset: nat, left: seq<Node>, rest: seq<byte>)
    requires AreNodes(left) && |left| > 0 && offset <= |memory| && memory[offset..] == Concat(left) + rest
    ensures offset + 4 <= |memory| && LengthField(memory, offset) == |left[0]| >= 4
  {
    hide Concat;
    NodeSplits(left, rest);
    var x := memory[offset..];
    assert memory[offset + 2] == x[2] && memory[offset + 3] == x[3];
  }

  lemma NothingSeen()
    ensures AreNodes([]) && Concat([]) == []
  {
  }

  lemma AcceptedPath(path: seq<byte>)
    requires exists ns :: IsPathOf(path, ns)
    ensures IsPath(path)
  {
  }

  lemma MustBeReadable(memory: seq<byte>, seen: seq<Node>)
    requires Readable(memory) && AreNodes(seen) && |seen| < MAX_NODES
    requires Concat(seen) <= memory && |Concat(seen)| + 4 <= MAX_PATH
    ensures var offset := |Concat(seen)|;
      && offset + 4 <= |memory|
      && LengthField(memory, offset) == U16(memory[offset..offset + 4][2], memory[offset..offset + 4][3])
      && (4 <= LengthField(memory, offset) <= MAX_PATH - offset ==> offset + LengthField(memory, offset) <= |memory|)
  {
    hide AreNodes, Concat;
  }

  // The node after `seen`.
  lemma SeenNext(memory: seq<byte>, seen: seq<Node>, length: nat)
    requires AreNodes(seen) && Concat(seen) <= memory && |Concat(seen)| + length <= |memory|
    requires length >= 4 && length == LengthField(memory, |Concat(seen)|)
    ensures var offset := |Concat(seen)|; var node := memory[offset..offset + length];
      && Concat(seen) + node == memory[..offset + length]
      && (memory[offset] != END_TYPE ==> AreNodes(seen + [node]) && Concat(seen + [node]) == Concat(seen) + node)
  {
    hide Concat;
    var node := memory[|Concat(seen)|..|Concat(seen)| + length];
    assert node[0] == memory[|Concat(seen)|];
    assert node[2] == memory[|Concat(seen)| + 2] && node[3] == memory[|Concat(seen)| + 3];
    ConcatAppend(seen, [node]);
    ConcatOne(node);
  }

  lemma StreamNext(memory: seq<byte>, seen: seq<Node>, n: nat, ns: seq<Node>)
    requires AreNodes(seen) && Concat(seen) <= memory
    requires n <= |memory| && IsPathOf(memory[..n], ns)
    ensures var offset := |Concat(seen)|;
      && seen <= ns
      && offset + 4 <= n && 4 <= LengthField(memory, offset) <= n - offset
      && (memory[offset] == END_TYPE <==> |seen| == |ns|)
      && (|seen| == |ns| ==> LengthField(memory, offset) == 4 && n == offset + 4)
  {
    NextNode(memory, seen, ns);
  }

  lemma StreamStops(memory: seq<byte>, seen: seq<Node>)
    requires AreNodes(seen) && Concat(seen) <= memory
    requires var offset := |Concat(seen)|;
      || offset + 4 > MAX_PATH
      || |seen| >= MAX_NODES
      || (offset + 4 <= |memory| && !(4 <= LengthField(memory, offset) <= MAX_PATH - offset))
    ensures !exists n :: 0 <= n <= |memory| && IsPath(memory[..n])
  {
    forall n | 0 <= n <= |memory| && IsPath(memory[..n]) ensures false {
      var ns :| IsPathOf(memory[..n], ns);
      StreamNext(memory, seen, n, ns);
    }
  }

  lemma StreamStopsAtEnd(memory: seq<byte>, seen: seq<Node>, length: nat)
    requires AreNodes(seen) && Concat(seen) <= memory && |Concat(seen)| + 4 <= |memory|
    requires memory[|Concat(seen)|] == END_TYPE && length == LengthField(memory, |Concat(seen)|)
    requires |Concat(seen)| + length <= |memory| && !IsPath(memory[..|Concat(seen)| + length])
    ensures !exists n :: 0 <= n <= |memory| && IsPath(memory[..n])
  {
    forall n | 0 <= n <= |memory| && IsPath(memory[..n]) ensures false {
      var ns :| IsPathOf(memory[..n], ns);
      StreamNext(memory, seen, n, ns);
    }
  }
}
