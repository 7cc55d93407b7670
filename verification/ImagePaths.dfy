/** The device path of an image file: a volume's nodes plus one MEDIA_FILEPATH node
    (UEFI 2.10, section 10.3.5.4) spelling the file's path in UTF-16. */
module ImagePaths {
  import opened Uefi
  import opened Bytes
  import opened Units
  import opened DevicePaths

  // Characters of a Rust string: Unicode scalar values.
  type Scalar = c: nat | c < 0xd800 || 0xe000 <= c <= 0x10ffff

  const BACKSLASH: Scalar := 0x5c
  const SLASH: Scalar := 0x2f
  const DOT: Scalar := 0x2e

  function Utf16(s: seq<Scalar>): seq<unit> {
    if |s| == 0 then []
    else
      var c: nat := s[0];
      (if c <= 0xffff then [c] else [0xd800 + (c - 0x1_0000) / 0x400, 0xdc00 + (c - 0x1_0000) % 0x400])
      + Utf16(s[1..])
  }

  predicate IsControl(c: Scalar) {
    c < 0x20 || 0x7f <= c <= 0x9f
  }

  predicate IsComponent(part: seq<Scalar>) {
    part != [] && part != [DOT] && part != [DOT, DOT]
  }

  // path[from..until] is what stands between a backslash and the next one, or the end.
  predicate Between(path: seq<Scalar>, from: nat, until: nat) {
    && 1 <= from <= until <= |path|
    && path[from - 1] == BACKSLASH && (until == |path| || path[until] == BACKSLASH)
    && forall i :: from <= i < until ==> path[i] != BACKSLASH
  }

  // Absolute, within 1024 units, free of control characters, forward slashes and characters
  // outside the basic plane, every component a proper name.
  ghost predicate IsFilePath(path: seq<Scalar>) {
    && |path| > 0 && path[0] == BACKSLASH
    && |Utf16(path)| <= 1024
    && (forall i :: 0 <= i < |path| ==> !IsControl(path[i]) && path[i] <= 0xffff && path[i] != SLASH)
    && (forall from: nat, until: nat :: Between(path, from, until) ==> IsComponent(path[from..until]))
  }

  // The checks made of the file's path: its first character, its length, its characters, and
  // what it splits into at backslashes.
  method FilePathOk(path: seq<Scalar>) returns (ok: bool)
    ensures ok <==> IsFilePath(path)
  {
    hide Utf16;
    if |path| == 0 || path[0] != 0x5c || |Utf16(path)| > 1024 {
      return false;
    }
    for i := 0 to |path|
      invariant forall k :: 0 <= k < i ==> !IsControl(path[k]) && path[k] <= 0xffff && path[k] != SLASH
    {
      var c: nat := path[i];
      if c <= 0x1f || (0x7f <= c && c <= 0x9f) || c > 0xffff || c == 0x2f {
        return false;
      }
    }
    var from: nat := 1;
    for until: nat := 1 to |path| + 1
      invariant 1 <= from <= until && (until <= |path| ==> path[from - 1] == BACKSLASH)
      invariant forall k :: from <= k < until && k < |path| ==> path[k] != BACKSLASH
      invariant forall a: nat, z: nat :: Between(path, a, z) && z < until ==> IsComponent(path[a..z])
    {
      if until == |path| || path[until] == 0x5c {
        var part := path[from..until];
        forall a: nat | Between(path, a, until) ensures a == from {
          assert path[from - 1] == BACKSLASH && path[a - 1] == BACKSLASH;
        }
        assert Between(path, from, until);
        if |part| == 0 || part == [0x2e] || part == [0x2e, 0x2e] {
          return false;
        }
        from := until + 1;
      }
    }
    ok := true;
  }

  // Header (type 4, subtype 4, length), the units, and a terminating zero unit.
  function FileNode(units: seq<unit>): Node {
    [4, 4] + ToLe(2 * (|units| + 1) + 4, 2) + UnitBytes(units + [0])
  }

  lemma FileNodeIsNode(units: seq<unit>)
    requires |units| <= 1024
    ensures IsNode(FileNode(units)) && |FileNode(units)| == 2 * (|units| + 1) + 4
  {
    ToLeTwo(2 * (|units| + 1) + 4);
  }

  // The node byte by byte: media type, file-path subtype, length, then the units and a zero
  // unit, low bytes first.
  lemma FileNodeBytes(units: seq<unit>)
    requires |units| <= 1024
    ensures var n := FileNode(units);
      && |n| == 6 + 2 * |units|
      && n[0] == 4 && n[1] == 4 && n[2] + 256 * (n[3] as nat) == |n|
      && (forall i :: 0 <= i < |units| ==> n[4 + 2 * i] == units[i] % 256 && n[5 + 2 * i] == units[i] / 256)
      && n[|n| - 2] == 0 && n[|n| - 1] == 0
  {
    var n, text := FileNode(units), units + [0];
    FileNodeIsNode(units);
    ToLeTwo(|n|);
    assert n[4..] == UnitBytes(text);
    forall i: nat | i <= |units| ensures n[4 + 2 * i] == text[i] % 256 && n[5 + 2 * i] == text[i] / 256 {
      UnitBytesAt(text, i);
      assert n[4 + 2 * i] == n[4..][2 * i] && n[5 + 2 * i] == n[4..][2 * i + 1];
    }
    assert text[|units|] == 0;
  }

  method ImagePath(volume: seq<byte>, path: seq<Scalar>) returns (r: Result<seq<byte>, Invalid>)
    ensures r.Ok? <==> IsPath(volume) && IsFilePath(path)
    ensures r.Ok? ==> exists ns :: IsPathOf(volume, ns) && r.value == Encode(ns + [FileNode(Utf16(path))])
    ensures r.Err? ==> r.error == PathInvalid
  {
    hide UnitBytes, Utf16, Concat, IsPathOf, Bytes.ToLe, IsFilePath, UnitsOf;
    FilePathUnits(path);
    var body := PathBody(volume);
    if body.Err? {
      return Err(body.error);
    }
    ghost var ns :| IsPathOf(volume, ns) && body.value == Concat(ns);
    PathSize(volume, ns);
    var ok := FilePathOk(path);
    if !ok {
      return Err(PathInvalid);
    }
    var units := Utf16(path) + [0];
    var length := |units| * 2 + 4;
    var total := |body.value| + length + 4;
    if length > 0xffff || total > 8192 {
      return Err(SizeInvalid);
    }
    var bytes := body.value + [4, 4] + ToLe(length, 2);
    var header := bytes;
    NoUnits();
    for i := 0 to |units|
      invariant bytes == header + UnitBytes(units[..i])
    {
      UnitBytesAppend(units[..i], units[i]);
      assert units[..i + 1] == units[..i] + [units[i]];
      bytes := bytes + ToLe(units[i], 2);
    }
    assert units[..|units|] == units;
    bytes := bytes + [0x7f, 0xff, 4, 0];
    ghost var node := FileNode(Utf16(path));
    ConcatAppend(ns, [node]);
    ConcatOne(node);
    Assembled(body.value, ToLe(length, 2), UnitBytes(units), END_NODE);
    assert bytes == Encode(ns + [node]);
    r := Ok(bytes);
  }

  lemma PathSize(path: seq<byte>, ns: seq<Node>)
    requires IsPathOf(path, ns)
    ensures |Concat(ns)| + 4 <= MAX_PATH
  {
  }

  lemma FilePathUnits(path: seq<Scalar>)
    ensures IsFilePath(path) ==> |Utf16(path)| <= 1024
  {
  }

  lemma NoUnits()
    ensures UnitBytes([]) == []
  {
  }

  lemma UnitBytesAppend(units: seq<unit>, u: unit)
    ensures UnitBytes(units + [u]) == UnitBytes(units) + ToLe(u, 2)
  {
    assert (units + [u])[..|units|] == units;
  }

  lemma Assembled(body: seq<byte>, length: seq<byte>, text: seq<byte>, end: seq<byte>)
    ensures body + [4, 4] + length + text + end == (body + ([4, 4] + length + text)) + end
  {
  }

  // A character beyond the basic plane takes a high and a low surrogate, which hold it.
  lemma SurrogatePair(c: Scalar)
    requires c > 0xffff
    ensures |Utf16([c])| == 2 && IsHigh(Utf16([c])[0]) && IsLow(Utf16([c])[1])
    ensures var high: nat, low: nat := Utf16([c])[0], Utf16([c])[1];
      c == 0x1_0000 + 0x400 * (high - 0xd800) + (low - 0xdc00)
  {
    assert [c][1..] == [];
  }

  // ----- the round trip

  // The text a file node carries, without its terminator.
  function NodeText(n: Node): seq<unit>
    requires IsNode(n)
  {
    var units := UnitsOf(n[4..]);
    if |units| > 0 then units[..|units| - 1] else []
  }

  lemma {:induction false} BasicPlane(s: seq<Scalar>)
    requires forall i :: 0 <= i < |s| ==> s[i] <= 0xffff
    ensures |Utf16(s)| == |s| && forall i :: 0 <= i < |s| ==> Utf16(s)[i] == s[i]
  {
    if |s| > 0 {
      BasicPlane(s[1..]);
    }
  }

  lemma NodeTextOfFileNode(units: seq<unit>)
    requires |units| <= 1024
    ensures IsNode(FileNode(units)) && NodeText(FileNode(units)) == units
  {
    FileNodeIsNode(units);
    assert FileNode(units)[4..] == UnitBytes(units + [0]);
    UnitsRoundTrip(units + [0]);
  }

  // The node read back spells exactly the file's path.
  lemma FilePathRoundTrip(path: seq<Scalar>)
    requires IsFilePath(path)
    ensures IsNode(FileNode(Utf16(path)))
    ensures var text := NodeText(FileNode(Utf16(path)));
      |text| == |path| && forall i :: 0 <= i < |path| ==> text[i] == path[i]
  {
    NodeTextOfFileNode(Utf16(path));
    BasicPlane(path);
  }

  // A result within the reader's limits is an accepted path strictly below the volume; one
  // beyond them is accepted by nobody.
  lemma ImagePathIsBelow(volume: seq<byte>, ns: seq<Node>, path: seq<Scalar>)
    requires IsPathOf(volume, ns) && IsFilePath(path)
    ensures var result := Encode(ns + [FileNode(Utf16(path))]);
      && (IsPath(result) <==> |result| <= 2048 && |ns| + 1 < 64)
      && (IsPath(result) ==> Below(volume, result))
  {
    var ms := ns + [FileNode(Utf16(path))];
    FileNodeIsNode(Utf16(path));
    if IsPath(Encode(ms)) {
      var ks :| IsPathOf(Encode(ms), ks);
      ParseUnique(ms, END_NODE, ks, END_NODE);
    }
    if |Encode(ms)| <= MAX_PATH && |ms| < MAX_NODES {
      assert IsPathOf(Encode(ms), ms);
      assert ns < ms;
    }
  }

  // Different volumes or different file paths never yield the same device path, whatever
  // the length of the result.
  lemma ImagePathInjective(ns: seq<Node>, path: seq<Scalar>, ns': seq<Node>, path': seq<Scalar>)
    requires AreNodes(ns) && AreNodes(ns') && IsFilePath(path) && IsFilePath(path')
    requires Encode(ns + [FileNode(Utf16(path))]) == Encode(ns' + [FileNode(Utf16(path'))])
    ensures ns == ns' && path == path'
  {
    var ms, ms' := ns + [FileNode(Utf16(path))], ns' + [FileNode(Utf16(path'))];
    FileNodeIsNode(Utf16(path));
    FileNodeIsNode(Utf16(path'));
    ParseUnique(ms, END_NODE, ms', END_NODE);
    assert ns == ms[..|ms| - 1] && ns' == ms'[..|ms'| - 1];
    assert ms[|ms| - 1] == ms'[|ms'| - 1];
    FilePathRoundTrip(path);
    FilePathRoundTrip(path');
    assert |path| == |path'| && forall i :: 0 <= i < |path| ==> path[i] == path'[i];
  }
}
