/** A flattened device tree of one node: the encoder the DeviceTree probe authors its source
    with, for any list of properties, and the strict decoder its checker reads the result with. */
module DeviceTree {
  import opened Uefi
  import opened Bits
  import opened Bytes

  const HEADER_BYTES: nat := 8
  const KEY_BYTES: nat := 32
  const FLAG: nat := 0x8000_0000

  // `flag` marks a value that is to be provided later.
  datatype Property = Property(name: seq<byte>, value: seq<byte>, flag: bool)

  // 1 to 31 ASCII characters.
  predicate GoodName(name: seq<byte>) {
    && 1 <= |name| < KEY_BYTES
    && forall i :: 0 <= i < |name| ==> 0 < name[i] < 128
  }

  predicate Good(p: Property) {
    GoodName(p.name) && |p.value| < FLAG
  }

  predicate Distinct(props: seq<Property>) {
    forall i, j :: 0 <= i < j < |props| ==> props[i].name != props[j].name
  }

  predicate AllGood(props: seq<Property>) {
    forall i :: 0 <= i < |props| ==> Good(props[i])
  }

  predicate Encodable(props: seq<Property>) {
    |props| < 0x1_0000_0000 && AllGood(props) && Distinct(props)
  }

  // ----- the layout

  // How far n is from the next multiple of four.
  function Padding(n: nat): nat {
    (4 - n % 4) % 4
  }

  // (x + 3) & ~3
  function RoundUp(x: nat): nat {
    x + Padding(x)
  }

  lemma PaddingFrom(cursor: nat, size: nat)
    requires cursor % 4 == 0
    ensures RoundUp(cursor + 36 + size) == cursor + 36 + size + Padding(size)
    ensures RoundUp(cursor + 36 + size) % 4 == 0
    ensures Padding(size) < 4
  {
    var q, m := size / 4, size % 4;
    RemainderOf(cursor + 36 + size, 4, cursor / 4 + 9 + q, m);
    RemainderOf(cursor + 36 + size + (4 - m) % 4, 4, cursor / 4 + 9 + if m == 0 then q else q + 1, 0);
  }

  // The length of a value with the flag in the top bit.
  function SizeWord(size: nat, flag: bool): nat {
    Or(size, if flag then FLAG else 0)
  }

  function KeyBytes(name: seq<byte>): (b: seq<byte>)
    requires |name| <= KEY_BYTES
    ensures |b| == KEY_BYTES
  {
    name + Zeros(KEY_BYTES - |name|)
  }

  function PropertyBytes(p: Property): (b: seq<byte>)
    requires Good(p)
    ensures |b| == 36 + |p.value| + Padding(|p.value|)
  {
    KeyBytes(p.name) + ToLe(SizeWord(|p.value|, p.flag), 4) + p.value + Zeros(Padding(|p.value|))
  }

  function Body(props: seq<Property>): seq<byte>
    requires AllGood(props)
  {
    if |props| == 0 then [] else PropertyBytes(props[0]) + Body(props[1..])
  }

  // The property count, and no children.
  function Header(count: nat): (b: seq<byte>)
    ensures |b| == HEADER_BYTES
  {
    ToLe(count, 4) + ToLe(0, 4)
  }

  function Tree(props: seq<Property>): (b: seq<byte>)
    requires Encodable(props)
  {
    Header(|props|) + Body(props)
  }

  // Where the k-th value starts in the tree.
  function ValueStart(props: seq<Property>, k: nat): nat
    requires Encodable(props) && k < |props|
  {
    HEADER_BYTES + |Body(props[..k])| + 36
  }

  lemma {:induction false} BodySplit(a: seq<Property>, b: seq<Property>)
    requires AllGood(a) && AllGood(b)
    ensures Body(a + b) == Body(a) + Body(b)
  {
    hide Good, PropertyBytes;
    if |a| == 0 {
      assert a + b == b;
    } else {
      assert (a + b)[1..] == a[1..] + b;
      BodySplit(a[1..], b);
    }
  }

  lemma PropertyAligned(p: Property)
    requires Good(p)
    ensures |PropertyBytes(p)| % 4 == 0
  {
    PaddingFrom(0, |p.value|);
  }

  lemma MultiplesAdd(a: nat, b: nat)
    requires a % 4 == 0 && b % 4 == 0
    ensures (a + b) % 4 == 0
  {
  }

  lemma {:induction false} BodyAligned(props: seq<Property>)
    requires AllGood(props)
    ensures |Body(props)| % 4 == 0
  {
    hide PropertyBytes, Good;
    if |props| > 0 {
      BodyAligned(props[1..]);
      PropertyAligned(props[0]);
      MultiplesAdd(|PropertyBytes(props[0])|, |Body(props[1..])|);
    }
  }

  lemma BodyOfOne(p: Property)
    requires Good(p)
    ensures Body([p]) == PropertyBytes(p)
  {
    assert Body([p]) == PropertyBytes(p) + Body([]);
  }

  lemma BodyAround(props: seq<Property>, k: nat)
    requires AllGood(props) && k < |props|
    ensures Body(props) == Body(props[..k]) + (PropertyBytes(props[k]) + Body(props[k + 1..]))
  {
    hide PropertyBytes, Good;
    assert props == props[..k] + props[k..];
    BodySplit(props[..k], props[k..]);
    assert props[k..][1..] == props[k + 1..];
  }

  lemma PropertyParts(p: Property)
    requires Good(p)
    ensures var b, size := PropertyBytes(p), |p.value|;
      && b[..32] == KeyBytes(p.name)
      && b[32..36] == ToLe(SizeWord(size, p.flag), 4)
      && b[36..36 + size] == p.value
      && b[36 + size..] == Zeros(Padding(size))
  {
    hide KeyBytes, SizeWord, Bytes.ToLe, Padding;
    var key, word, padding := KeyBytes(p.name), ToLe(SizeWord(|p.value|, p.flag), 4), Zeros(Padding(|p.value|));
    assert PropertyBytes(p) == key + word + p.value + padding;
  }

  lemma ReadInside(a: seq<byte>, b: seq<byte>, c: seq<byte>, d: seq<byte>, at: nat, size: nat)
    requires at + size <= |c|
    ensures (a + (b + (c + d)))[|a| + |b| + at..|a| + |b| + at + size] == c[at..at + size]
  {
  }

  // Every value starts at a multiple of four and can be read straight out of the tree.
  lemma ValueInTree(props: seq<Property>, k: nat)
    requires Encodable(props) && k < |props|
    ensures var at, size := ValueStart(props, k), |props[k].value|;
      at % 4 == 0 && at + size <= |Tree(props)| && Tree(props)[at..at + size] == props[k].value
  {
    hide PropertyBytes, Good, Header, Body, Distinct;
    var p, rest := props[k], Body(props[k + 1..]);
    BodyAround(props, k);
    BodyAligned(props[..k]);
    PropertyParts(p);
    ReadInside(Header(|props|), Body(props[..k]), PropertyBytes(p), rest, 36, |p.value|);
  }

  // ----- the size word

  lemma HalfWord()
    ensures Pow2(31) == FLAG
  {
    Pow2Values();
    assert Pow2(15) == 2 * Pow2(14);
    Pow2Sixteen(15);
  }

  // Size and flag are recovered from the word by the masks the decoder uses.
  lemma SizeWordFields(size: nat, flag: bool)
    requires size < FLAG
    ensures SizeWord(size, flag) == size + if flag then FLAG else 0
    ensures And(SizeWord(size, flag), 0x7fff_ffff) == size
    ensures Shr(SizeWord(size, flag), 31) == if flag then 1 else 0
  {
    hide Bits.Or, Bits.And, Bits.Shr, Bits.Join, Bits.Pow2;
    HalfWord();
    var top := if flag then 1 else 0;
    JoinZero(size, 31);
    JoinIsSum(top, 0, 31);
    JoinIsSum(top, size, 31);
    OrJoin(0, size, top, 0, 31);
    OrStep(0, top);
    OrZero(size);
    OrZero(top);
    AndOnes(top, size, 31);
    ShrJoin(top, size, 31);
  }

  lemma WordSizeFields(raw: nat)
    requires raw < 0x1_0000_0000
    ensures And(raw, 0x7fff_ffff) < FLAG
    ensures SizeWord(And(raw, 0x7fff_ffff), Shr(raw, 31) != 0) == raw
  {
    hide Bits.Or, Bits.And, Bits.Shr;
    SizeWordFields(raw % FLAG, raw >= FLAG);
  }

  // ----- the encoder

  // One property after `bytes`, byte by byte: the name in 32 bytes, the size in four, lowest
  // byte first, with the flag in the top bit, the value, and zeros to the next multiple of four.
  predicate LaidOut(bytes: seq<byte>, extended: seq<byte>, name: seq<byte>, value: seq<byte>, flag: bool) {
    var at, end := |bytes|, |bytes| + 36 + |value|;
    && |name| <= 32
    && end <= |extended| < end + 4 && |extended| % 4 == 0
    && extended[..at] == bytes
    && extended[at..at + |name|] == name
    && (forall i :: at + |name| <= i < at + 32 ==> extended[i] == 0)
    && SpellsFour(extended, at + 32, |value| + if flag then 0x8000_0000 else 0)
    && extended[at + 36..end] == value
    && (forall i :: end <= i < |extended| ==> extended[i] == 0)
  }

  lemma PropertyLaidOut(bytes: seq<byte>, p: Property)
    requires |bytes| % 4 == 0 && Good(p)
    ensures LaidOut(bytes, bytes + PropertyBytes(p), p.name, p.value, p.flag)
  {
    hide Bytes.ToLe, Padding, PropertyBytes, LaidOut, Good;
    var at, size, b := |bytes|, |p.value|, PropertyBytes(p);
    PropertyParts(p);
    PropertyAligned(p);
    PaddingFrom(0, size);
    SizeWordSpelled(p);
    TailSlice(bytes, b, 0, 32);
    TailSlice(bytes, b, 32, 36);
    TailSlice(bytes, b, 36, 36 + size);
    TailSlice(bytes, b, 36 + size, |b|);
    MultiplesAdd(at, |b|);
    FromSlices(bytes, bytes + b, p);
  }

  lemma SizeWordSpelled(p: Property)
    requires Good(p)
    ensures |p.name| <= KEY_BYTES
    ensures Le(ToLe(SizeWord(|p.value|, p.flag), 4)) == |p.value| + if p.flag then 0x8000_0000 else 0
  {
    hide SizeWord, Bytes.ToLe, Bytes.Le;
    SizeWordFields(|p.value|, p.flag);
    Pow256Values();
    LeOfToLe(SizeWord(|p.value|, p.flag), 4);
  }

  lemma FromSlices(bytes: seq<byte>, extended: seq<byte>, p: Property)
    requires var at, end := |bytes|, |bytes| + 36 + |p.value|;
      && |p.name| <= KEY_BYTES
      && end <= |extended| < end + 4 && |extended| % 4 == 0
      && extended[..at] == bytes && extended[at..at + 32] == KeyBytes(p.name)
      && Le(extended[at + 32..at + 36]) == |p.value| + (if p.flag then 0x8000_0000 else 0)
      && extended[at + 36..end] == p.value
      && extended[end..|extended|] == Zeros(|extended| - end)
    ensures LaidOut(bytes, extended, p.name, p.value, p.flag)
  {
    hide Bytes.Le, Bytes.SpellsFour, KeyBytes;
    var at, end := |bytes|, |bytes| + 36 + |p.value|;
    ReadFourSpells(extended, at + 32, |p.value| + if p.flag then 0x8000_0000 else 0);
    KeyLaidOut(extended, at, p.name);
    forall i | end <= i < |extended| ensures extended[i] == 0 {
      assert extended[i] == extended[end..|extended|][i - end];
    }
  }

  lemma TailSlice(a: seq<byte>, b: seq<byte>, lo: nat, hi: nat)
    requires lo <= hi <= |b|
    ensures (a + b)[|a| + lo..|a| + hi] == b[lo..hi]
  {
  }

  lemma KeyLaidOut(extended: seq<byte>, at: nat, name: seq<byte>)
    requires |name| <= KEY_BYTES && at + 32 <= |extended| && extended[at..at + 32] == KeyBytes(name)
    ensures extended[at..at + |name|] == name
    ensures forall i :: at + |name| <= i < at + 32 ==> extended[i] == 0
  {
    assert extended[at..at + |name|] == extended[at..at + 32][..|name|] == name;
    forall i | at + |name| <= i < at + 32 ensures extended[i] == 0 {
      assert extended[i] == extended[at..at + 32][i - at];
    }
  }

  method AppendProperty(bytes: seq<byte>, name: seq<byte>, value: seq<byte>, flag: bool) returns (extended: seq<byte>)
    requires |bytes| % 4 == 0 && Good(Property(name, value, flag))
    ensures extended == bytes + PropertyBytes(Property(name, value, flag))
    ensures LaidOut(bytes, extended, name, value, flag)
  {
    hide Padding, SizeWord, Bytes.ToLe, LaidOut;
    PaddingFrom(|bytes|, |value|);
    PropertyLaidOut(bytes, Property(name, value, flag));
    var key := Put(Zeros(KEY_BYTES), 0, name);
    extended := bytes + key;
    extended := extended + ToLe(SizeWord(|value|, flag), 4);
    extended := extended + value;
    extended := extended + Zeros(Padding(|extended|));
    assert key == KeyBytes(name);
  }

  // The layout of a property leaves no choice.
  lemma LayoutIsUnique(bytes: seq<byte>, x: seq<byte>, y: seq<byte>, name: seq<byte>, value: seq<byte>, flag: bool)
    requires LaidOut(bytes, x, name, value, flag) && LaidOut(bytes, y, name, value, flag)
    ensures x == y
  {
    hide Bytes.SpellsFour;
    var at, end := |bytes|, |bytes| + 36 + |value|;
    SameFour(x, y, at + 32, |value| + if flag then 0x8000_0000 else 0);
    SameMultiple(|x|, |y|, end);
    ZerosApart(x, y, at + |name|, at + 32);
    ZerosApart(x, y, end, |x|);
    FromPieces(x, y, at, |name|, end);
  }

  lemma SameFour(x: seq<byte>, y: seq<byte>, at: nat, v: nat)
    requires SpellsFour(x, at, v) && SpellsFour(y, at, v)
    ensures at + 4 <= |x| && at + 4 <= |y| && x[at..at + 4] == y[at..at + 4]
  {
    hide Bytes.Le;
    ReadFourSpells(x, at, v);
    ReadFourSpells(y, at, v);
    LeInjective(x[at..at + 4], y[at..at + 4]);
  }

  lemma SameMultiple(a: nat, b: nat, end: nat)
    requires a % 4 == b % 4 == 0 && end <= a < end + 4 && end <= b < end + 4
    ensures a == b
  {
  }

  lemma FromPieces(x: seq<byte>, y: seq<byte>, at: nat, length: nat, end: nat)
    requires length <= 32 && at + 36 <= end <= |x| == |y|
    requires x[..at] == y[..at] && x[at..at + length] == y[at..at + length]
    requires x[at + length..at + 32] == y[at + length..at + 32] && x[at + 32..at + 36] == y[at + 32..at + 36]
    requires x[at + 36..end] == y[at + 36..end] && x[end..|x|] == y[end..|x|]
    ensures x == y
  {
    Adjacent(x, at, at + length, at + 32);
    Adjacent(y, at, at + length, at + 32);
    Adjacent(x, at, at + 32, at + 36);
    Adjacent(y, at, at + 32, at + 36);
    Adjacent(x, at, at + 36, end);
    Adjacent(y, at, at + 36, end);
    assert x == x[..at] + x[at..end] + x[end..|x|];
    assert y == y[..at] + y[at..end] + y[end..|x|];
  }

  lemma ZerosApart(x: seq<byte>, y: seq<byte>, lo: nat, hi: nat)
    requires lo <= hi <= |x| && hi <= |y|
    requires forall i :: lo <= i < hi ==> x[i] == 0 && y[i] == 0
    ensures x[lo..hi] == y[lo..hi]
  {
  }

  // A whole tree, byte by byte: the property count and no children, in four bytes each, then
  // the properties one after the other; ends[k] is where the k-th starts.
  ghost predicate TreeLaidOut(blob: seq<byte>, props: seq<Property>, ends: seq<nat>) {
    && |ends| == |props| + 1 && ends[0] == 8 && ends[|props|] == |blob|
    && SpellsFour(blob, 0, |props|) && SpellsFour(blob, 4, 0)
    && forall k :: 0 <= k < |props| ==> PropertyAtEnds(blob, props, ends, k)
  }

  ghost predicate PropertyAtEnds(blob: seq<byte>, props: seq<Property>, ends: seq<nat>, k: nat)
    requires k < |props| && |ends| == |props| + 1
  {
    && ends[k] <= ends[k + 1] <= |blob|
    && LaidOut(blob[..ends[k]], blob[..ends[k + 1]], props[k].name, props[k].value, props[k].flag)
  }

  // Where the properties of a tree start and end.
  ghost function Ends(props: seq<Property>): (ends: seq<nat>)
    requires AllGood(props)
    ensures |ends| == |props| + 1
    ensures forall k :: 0 <= k <= |props| ==> ends[k] == HEADER_BYTES + |Body(props[..k])|
  {
    seq(|props| + 1, k requires 0 <= k <= |props| => HEADER_BYTES + |Body(props[..k])|)
  }

  lemma TreePrefix(props: seq<Property>, k: nat)
    requires Encodable(props) && k < |props|
    ensures var at, next := HEADER_BYTES + |Body(props[..k])|, HEADER_BYTES + |Body(props[..k + 1])|;
      && at <= next <= |Tree(props)| && at % 4 == 0
      && Tree(props)[..next] == Tree(props)[..at] + PropertyBytes(props[k])
  {
    hide PropertyBytes, Good, Header, Body, Distinct;
    var before, p := Body(props[..k]), PropertyBytes(props[k]);
    BodyAround(props, k);
    BodyAligned(props[..k]);
    assert props[..k + 1] == props[..k] + [props[k]];
    BodySplit(props[..k], [props[k]]);
    BodyOfOne(props[k]);
    assert Tree(props) == Header(|props|) + before + p + Body(props[k + 1..]);
    MultiplesAdd(8, |before|);
  }

  lemma TreeHasLayout(props: seq<Property>)
    requires Encodable(props)
    ensures TreeLaidOut(Tree(props), props, Ends(props))
  {
    hide Tree, Body, PropertyBytes, LaidOut, Bytes.SpellsFour, Bytes.Le;
    var blob, ends := Tree(props), Ends(props);
    TreeHeader(props);
    ReadFourSpells(blob, 0, |props|);
    ReadFourSpells(blob, 4, 0);
    assert blob[0..4] == blob[..4];
    forall k | 0 <= k < |props| ensures PropertyAtEnds(blob, props, ends, k) {
      TreePrefix(props, k);
      PropertyLaidOut(blob[..ends[k]], props[k]);
    }
    EndOfTree(props);
  }

  lemma EndOfTree(props: seq<Property>)
    requires Encodable(props)
    ensures Ends(props)[0] == 8 && Ends(props)[|props|] == |Tree(props)|
  {
    hide PropertyBytes;
    assert props[..|props|] == props;
  }

  lemma {:induction false} LayoutIsPrefix(blob: seq<byte>, props: seq<Property>, ends: seq<nat>, k: nat)
    requires Encodable(props) && TreeLaidOut(blob, props, ends) && k <= |props|
    ensures 8 <= ends[k] <= |blob| && ends[k] % 4 == 0
    ensures blob[..ends[k]] == blob[..8] + Body(props[..k])
  {
    hide PropertyBytes, LaidOut, Bytes.SpellsFour;
    if k == 0 {
      FirstEnd(blob, props, ends);
    } else {
      LayoutIsPrefix(blob, props, ends, k - 1);
      assert PropertyAtEnds(blob, props, ends, k - 1);
      var before, p := blob[..ends[k - 1]], props[k - 1];
      PropertyLaidOut(before, p);
      LayoutIsUnique(before, blob[..ends[k]], before + PropertyBytes(p), p.name, p.value, p.flag);
      PropertyAligned(p);
      MultiplesAdd(|before|, |PropertyBytes(p)|);
      assert props[..k] == props[..k - 1] + [p];
      BodySplit(props[..k - 1], [p]);
      BodyOfOne(p);
    }
  }

  lemma FirstEnd(blob: seq<byte>, props: seq<Property>, ends: seq<nat>)
    requires TreeLaidOut(blob, props, ends)
    ensures ends[0] == 8 <= |blob|
  {
  }

  // The encoding is exactly this layout.
  lemma LayoutIsTree(blob: seq<byte>, props: seq<Property>, ends: seq<nat>)
    requires Encodable(props)
    ensures TreeLaidOut(blob, props, ends) <==> blob == Tree(props) && ends == Ends(props)
  {
    hide PropertyBytes, Tree, Body, Bytes.Le, LaidOut, Bytes.SpellsFour;
    if blob == Tree(props) && ends == Ends(props) {
      TreeHasLayout(props);
    }
    if TreeLaidOut(blob, props, ends) {
      forall k | 0 <= k <= |props| ensures ends[k] == Ends(props)[k] {
        LayoutIsPrefix(blob, props, ends, k);
      }
      LayoutIsPrefix(blob, props, ends, |props|);
      assert props[..|props|] == props && blob[..|blob|] == blob;
      ReadFourSpells(blob, 0, |props|);
      ReadFourSpells(blob, 4, 0);
      assert blob[0..4] == blob[..4];
      HeaderOfTree(blob, props);
    }
  }

  method Encode(props: seq<Property>) returns (bytes: seq<byte>)
    requires Encodable(props)
    ensures bytes == Tree(props)
    ensures exists ends :: TreeLaidOut(bytes, props, ends)
  {
    hide PropertyBytes, Good, Distinct, Bytes.ToLe, Padding, TreeLaidOut, Ends;
    TreeHasLayout(props);
    bytes := ToLe(|props|, 4) + ToLe(0, 4);
    for k := 0 to |props|
      invariant bytes == Header(|props|) + Body(props[..k])
    {
      BodyAligned(props[..k]);
      bytes := AppendProperty(bytes, props[k].name, props[k].value, props[k].flag);
      BodySplit(props[..k], [props[k]]);
      BodyOfOne(props[k]);
      assert props[..k + 1] == props[..k] + [props[k]];
    }
    assert props[..|props|] == props;
  }

  // ----- the decoder

  // The index of the first zero byte, or the length when there is none.
  function FirstZero(b: seq<byte>): (n: nat)
    ensures n <= |b| && (n < |b| ==> b[n] == 0)
    ensures forall i :: 0 <= i < n ==> b[i] != 0
  {
    if |b| == 0 || b[0] == 0 then 0 else 1 + FirstZero(b[1..])
  }

  // The name in a property's key, which is zero from its end on.
  function KeyName(key: seq<byte>): Option<seq<byte>> {
    var end := FirstZero(key);
    if end < 1 || end == |key| || key[end..] != Zeros(|key| - end) then None
    else if exists i :: 0 <= i < end && key[i] >= 128 then None
    else Some(key[..end])
  }

  lemma KeyNameSound(key: seq<byte>)
    requires |key| == KEY_BYTES && KeyName(key).Some?
    ensures GoodName(KeyName(key).value) && key == KeyBytes(KeyName(key).value)
  {
    assert key == key[..FirstZero(key)] + key[FirstZero(key)..];
  }

  lemma KeyNameComplete(name: seq<byte>)
    requires GoodName(name)
    ensures KeyName(KeyBytes(name)) == Some(name)
  {
    assert KeyBytes(name)[|name|] == 0;
    assert KeyBytes(name)[..|name|] == name;
    assert FirstZero(KeyBytes(name)) == |name|;
    assert KeyBytes(name)[|name|..] == Zeros(KEY_BYTES - |name|);
  }

  // The property at the cursor and the cursor after it.
  function PropertyAt(blob: seq<byte>, cursor: nat): Option<(Property, nat)> {
    if cursor + 36 > |blob| then None
    else
      var name := KeyName(blob[cursor..cursor + 32]);
      if name.None? then None
      else
        var raw := Le(blob[cursor + 32..cursor + 36]);
        var size, flag := And(raw, 0x7fff_ffff), Shr(raw, 31) != 0;
        var start := cursor + 36;
        var next := RoundUp(start + size);
        if next > |blob| || blob[start + size..next] != Zeros(next - (start + size)) then None
        else Some((Property(name.value, blob[start..start + size], flag), next))
  }

  // What is read is what the encoder writes for it, to the last padding byte.
  lemma PropertyAtSound(blob: seq<byte>, cursor: nat)
    requires cursor % 4 == 0 && PropertyAt(blob, cursor).Some?
    ensures var (p, next) := PropertyAt(blob, cursor).value;
      && Good(p) && cursor <= next <= |blob| && next % 4 == 0 && blob[cursor..next] == PropertyBytes(p)
      && cursor + 36 + |p.value| <= next < cursor + 40 + |p.value|
  {
    hide Bits.Or, Bits.And, Bits.Shr, SizeWord, KeyName, KeyBytes, Bytes.Le, Bytes.ToLe, Padding, RoundUp, GoodName;
    var (p, next) := PropertyAt(blob, cursor).value;
    var key, word, start := blob[cursor..cursor + 32], blob[cursor + 32..cursor + 36], cursor + 36;
    KeyNameSound(key);
    Pow256Values();
    WordSizeFields(Le(word));
    ToLeOfLe(word);
    PaddingFrom(cursor, |p.value|);
    assert Good(p);
    assert blob[cursor..next] == key + word + blob[start..start + |p.value|] + blob[start + |p.value|..next];
  }

  // Whatever follows it, what the encoder writes is read back.
  lemma PropertyAtComplete(blob: seq<byte>, cursor: nat, p: Property, rest: seq<byte>)
    requires cursor % 4 == 0 && cursor <= |blob| && Good(p) && blob[cursor..] == PropertyBytes(p) + rest
    ensures PropertyAt(blob, cursor) == Some((p, cursor + |PropertyBytes(p)|))
  {
    hide Bits.Or, Bits.And, Bits.Shr, SizeWord, KeyName, KeyBytes, Bytes.Le, Bytes.ToLe, Padding, RoundUp, GoodName;
    var word, size, start := SizeWord(|p.value|, p.flag), |p.value|, cursor + 36;
    PropertyParts(p);
    SizeWordFields(size, p.flag);
    Pow256Values();
    LeOfToLe(word, 4);
    KeyNameComplete(p.name);
    PaddingFrom(cursor, size);
    var bytes := PropertyBytes(p);
    SliceOfTail(blob, cursor, bytes, rest, 0, 32);
    SliceOfTail(blob, cursor, bytes, rest, 32, 36);
    SliceOfTail(blob, cursor, bytes, rest, 36, 36 + size);
    SliceOfTail(blob, cursor, bytes, rest, 36 + size, |bytes|);
  }

  lemma SliceOfTail(blob: seq<byte>, cursor: nat, bytes: seq<byte>, rest: seq<byte>, lo: nat, hi: nat)
    requires cursor <= |blob| && blob[cursor..] == bytes + rest && lo <= hi <= |bytes|
    ensures cursor + hi <= |blob| && blob[cursor + lo..cursor + hi] == bytes[lo..hi]
  {
    assert bytes[lo..hi] == (bytes + rest)[lo..hi];
    assert blob[cursor..][lo..hi] == blob[cursor + lo..cursor + hi];
  }

  // A property and the offset its value was found at.
  datatype Located = Located(property: Property, start: nat)

  function Properties(found: seq<Located>): (props: seq<Property>)
    ensures |props| == |found|
    ensures forall i :: 0 <= i < |found| ==> props[i] == found[i].property
  {
    seq(|found|, i requires 0 <= i < |found| => found[i].property)
  }

  predicate NewName(found: seq<Located>, name: seq<byte>) {
    forall i :: 0 <= i < |found| ==> found[i].property.name != name
  }

  // What the decoder has established when it has found k properties and stands at the cursor.
  ghost predicate Decoded(blob: seq<byte>, found: seq<Located>, cursor: nat) {
    var props := Properties(found);
    && HEADER_BYTES <= cursor <= |blob| && cursor % 4 == 0
    && AllGood(props)
    && Distinct(props)
    && blob[HEADER_BYTES..cursor] == Body(props)
    && forall i :: 0 <= i < |found| ==> found[i].start == HEADER_BYTES + |Body(props[..i])| + 36
  }

  // A tree that could still turn out to be the one encoded.
  ghost predicate Agrees(blob: seq<byte>, found: seq<Located>, cursor: nat, props: seq<Property>)
    requires Encodable(props) && cursor <= |blob|
  {
    && |found| <= |props|
    && props[..|found|] == Properties(found)
    && blob[cursor..] == Body(props[|found|..])
  }

  lemma DecodedGrows(blob: seq<byte>, found: seq<Located>, cursor: nat)
    requires Decoded(blob, found, cursor) && PropertyAt(blob, cursor).Some?
    requires NewName(found, PropertyAt(blob, cursor).value.0.name)
    ensures var (p, next) := PropertyAt(blob, cursor).value;
      next <= |blob| && Decoded(blob, found + [Located(p, cursor + 36)], next)
  {
    hide PropertyAt, PropertyBytes, Good;
    var (p, next) := PropertyAt(blob, cursor).value;
    var found' := found + [Located(p, cursor + 36)];
    PropertyAtSound(blob, cursor);
    assert Properties(found') == Properties(found) + [p];
    BodySplit(Properties(found), [p]);
    BodyOfOne(p);
    assert blob[HEADER_BYTES..next] == blob[HEADER_BYTES..cursor] + blob[cursor..next];
    forall i | 0 <= i < |found'| ensures found'[i].start == HEADER_BYTES + |Body(Properties(found')[..i])| + 36 {
      assert Properties(found')[..i] == Properties(found)[..i];
    }
  }

  lemma AgreesGrows(blob: seq<byte>, found: seq<Located>, cursor: nat, props: seq<Property>)
    requires cursor <= |blob| && cursor % 4 == 0
    requires Encodable(props) && Agrees(blob, found, cursor, props) && |found| < |props|
    ensures var p := props[|found|];
      var next := cursor + |PropertyBytes(p)|;
      && PropertyAt(blob, cursor) == Some((p, next))
      && NewName(found, p.name)
      && next <= |blob|
      && Agrees(blob, found + [Located(p, cursor + 36)], next, props)
  {
    hide PropertyAt, PropertyBytes, Good;
    var k := |found|;
    var p, rest := props[k], Body(props[k + 1..]);
    assert props[k..] == [p] + props[k + 1..];
    BodySplit([p], props[k + 1..]);
    BodyOfOne(p);
    PropertyAtComplete(blob, cursor, p, rest);
    forall i | 0 <= i < k ensures found[i].property.name != p.name {
      assert props[..k][i] == props[i];
    }
    var found' := found + [Located(p, cursor + 36)];
    assert props[..k + 1] == props[..k] + [p] && Properties(found') == Properties(found) + [p];
    assert blob[cursor + |PropertyBytes(p)|..] == blob[cursor..][|PropertyBytes(p)|..];
  }

  lemma TreeStarts(props: seq<Property>)
    requires Encodable(props)
    ensures |Tree(props)| >= HEADER_BYTES && Tree(props)[0..8] == Header(|props|)
  {
    hide Header, Body;
  }

  lemma TreeHeader(props: seq<Property>)
    requires Encodable(props)
    ensures |Tree(props)| >= HEADER_BYTES
    ensures Le(Tree(props)[..4]) == |props| && Le(Tree(props)[4..8]) == 0
    ensures Tree(props)[8..] == Body(props)
  {
    Pow256Values();
    LeOfToLe(|props|, 4);
    LeOfToLe(0, 4);
    assert Tree(props)[..4] == ToLe(|props|, 4) && Tree(props)[4..8] == ToLe(0, 4);
  }

  lemma HeaderOfTree(blob: seq<byte>, props: seq<Property>)
    requires |blob| >= HEADER_BYTES && Encodable(props)
    requires Le(blob[..4]) == |props| && Le(blob[4..8]) == 0 && blob[8..] == Body(props)
    ensures blob == Tree(props)
  {
    ToLeOfLe(blob[..4]);
    ToLeOfLe(blob[4..8]);
    assert blob == blob[..4] + blob[4..8] + blob[8..];
  }

  // The decoder accepts exactly what the encoder can write, and recovers every property and
  // the offset of its value.
  method Decode(blob: seq<byte>) returns (r: Option<seq<Located>>)
    ensures r.Some? ==>
      var props := Properties(r.value);
      && Encodable(props) && blob == Tree(props)
      && forall k :: 0 <= k < |props| ==> r.value[k].start == ValueStart(props, k)
    ensures forall props :: Encodable(props) && blob == Tree(props) ==> r.Some? && Properties(r.value) == props
    ensures r.Some? ==> exists ends :: FoundLaidOut(blob, r.value, ends)
    ensures forall props, ends :: Encodable(props) && TreeLaidOut(blob, props, ends) ==>
      r.Some? && Properties(r.value) == props
  {
    hide PropertyAt, Good, Distinct, Tree, Bytes.Le, Body, Decoded, Agrees, Encodable, TreeLaidOut, FoundLaidOut;
    forall props, ends | Encodable(props) && TreeLaidOut(blob, props, ends) ensures blob == Tree(props) {
      LayoutIsTree(blob, props, ends);
    }
    forall props | Encodable(props) && blob == Tree(props) {
      TreeHeader(props);
    }
    if |blob| < HEADER_BYTES {
      return None;
    }
    var count, children := Le(blob[..4]), Le(blob[4..8]);
    if children != 0 {
      return None;
    }
    var cursor: nat, found := HEADER_BYTES, [];
    DecodingStarts(blob);
    for k := 0 to count
      invariant |found| == k && Decoded(blob, found, cursor) && cursor <= |blob|
      invariant forall props :: Encodable(props) && blob == Tree(props) ==>
        |props| == count && Agrees(blob, found, cursor, props)
    {
      DecodedCursor(blob, found, cursor);
      var step := PropertyAt(blob, cursor);
      forall props | Encodable(props) && blob == Tree(props)
        ensures step.Some? && NewName(found, step.value.0.name)
        ensures step.value.1 <= |blob|
        ensures Agrees(blob, found + [Located(step.value.0, cursor + 36)], step.value.1, props)
      {
        AgreesGrows(blob, found, cursor, props);
      }
      if step.None? {
        return None;
      }
      var (p, next) := step.value;
      if !NewName(found, p.name) {
        return None;
      }
      DecodedGrows(blob, found, cursor);
      found := found + [Located(p, cursor + 36)];
      cursor := next;
    }
    forall props | Encodable(props) && blob == Tree(props) ensures Properties(found) == props && cursor == |blob| {
      DecodingEnds(blob, found, cursor, props);
    }
    if cursor != |blob| {
      return None;
    }
    DecodedTree(blob, found);
    FoundHasLayout(blob, found);
    r := Some(found);
  }

  // The properties found and the offsets of their values fit the layout.
  ghost predicate FoundLaidOut(blob: seq<byte>, found: seq<Located>, ends: seq<nat>) {
    && TreeLaidOut(blob, Properties(found), ends)
    && forall k :: 0 <= k < |found| ==> found[k].start == ends[k] + 36
  }

  lemma FoundHasLayout(blob: seq<byte>, found: seq<Located>)
    requires Encodable(Properties(found)) && blob == Tree(Properties(found))
    requires forall k :: 0 <= k < |found| ==> found[k].start == ValueStart(Properties(found), k)
    ensures FoundLaidOut(blob, found, Ends(Properties(found)))
  {
    hide TreeLaidOut, Encodable, Tree, Body;
    TreeHasLayout(Properties(found));
  }

  lemma DecodingStarts(blob: seq<byte>)
    requires |blob| >= HEADER_BYTES
    ensures Decoded(blob, [], HEADER_BYTES)
    ensures forall props :: Encodable(props) && blob == Tree(props) ==> Agrees(blob, [], HEADER_BYTES, props)
  {
    forall props | Encodable(props) && blob == Tree(props) ensures Agrees(blob, [], HEADER_BYTES, props) {
      TreeHeader(props);
      assert props[0..] == props;
    }
  }

  lemma DecodedCursor(blob: seq<byte>, found: seq<Located>, cursor: nat)
    requires Decoded(blob, found, cursor)
    ensures cursor <= |blob| && cursor % 4 == 0
  {
  }

  lemma DecodingEnds(blob: seq<byte>, found: seq<Located>, cursor: nat, props: seq<Property>)
    requires cursor <= |blob| && Encodable(props) && Agrees(blob, found, cursor, props) && |found| == |props|
    ensures Properties(found) == props && cursor == |blob|
  {
    assert props[..|props|] == props && props[|props|..] == [];
  }

  lemma DecodedTree(blob: seq<byte>, found: seq<Located>)
    requires |blob| >= HEADER_BYTES && Decoded(blob, found, |blob|)
    requires |found| == Le(blob[..4]) && Le(blob[4..8]) == 0
    ensures var props := Properties(found);
      && Encodable(props) && blob == Tree(props)
      && forall k :: 0 <= k < |props| ==> found[k].start == ValueStart(props, k)
  {
    Pow256Values();
    HeaderOfTree(blob, Properties(found));
  }

  // The encoding is injective.
  lemma TreeInjective(props: seq<Property>, other: seq<Property>)
    requires Encodable(props) && Encodable(other) && Tree(props) == Tree(other)
    ensures props == other
  {
    TreeHeader(props);
    TreeHeader(other);
    BodyInjective(props, other);
  }

  lemma {:induction false} BodyInjective(props: seq<Property>, other: seq<Property>)
    requires AllGood(props) && AllGood(other)
    requires |props| == |other| && Body(props) == Body(other)
    ensures props == other
  {
    hide PropertyAt, PropertyBytes, Good;
    if |props| > 0 {
      var b := Body(props);
      assert b[0..] == b;
      PropertyAtComplete(b, 0, props[0], Body(props[1..]));
      PropertyAtComplete(b, 0, other[0], Body(other[1..]));
      assert Body(props[1..]) == b[|PropertyBytes(props[0])|..] == Body(other[1..]);
      BodyInjective(props[1..], other[1..]);
      assert props == [props[0]] + props[1..] && other == [other[0]] + other[1..];
    }
  }

  // ----- the authored tree

  function Ascii(s: string): (b: seq<byte>)
    ensures |b| == |s|
    ensures forall i :: 0 <= i < |s| ==> b[i] == s[i] as nat % 256
  {
    seq(|s|, i requires 0 <= i < |s| => s[i] as nat % 256)
  }

  const NAME: string := "name"
  const APERTURE: string := "authored-aperture"

  function Authored(value: seq<byte>, template: bool): seq<Property> {
    [Property(Ascii(NAME), [0], false), Property(Ascii(APERTURE), value, template)]
  }

  lemma AuthoredIsEncodable(value: seq<byte>, template: bool)
    requires |value| < FLAG
    ensures Encodable(Authored(value, template))
    ensures ValueStart(Authored(value, template), 0) == 44
    ensures ValueStart(Authored(value, template), 1) == 84
  {
    hide PropertyBytes, Bytes.ToLe;
    var props := Authored(value, template);
    assert |props[0].name| != |props[1].name|;
    assert props[..0] == [] && props[..1] == [props[0]];
    BodyOfOne(props[0]);
  }

  // The authored tree is no longer than it has to be: 100 bytes for a 16-byte value.
  lemma AuthoredSize(value: seq<byte>, template: bool)
    requires |value| < FLAG
    ensures Encodable(Authored(value, template))
    ensures var size := |Tree(Authored(value, template))|; size % 4 == 0 && 84 + |value| <= size < 88 + |value|
    ensures |value| == 16 ==> |Tree(Authored(value, template))| == 100
  {
    hide Tree, TreeLaidOut, Body;
    var props := Authored(value, template);
    AuthoredIsEncodable(value, template);
    TreeHasLayout(props);
    LastEnds(Tree(props), props, Ends(props));
  }

  lemma LastEnds(blob: seq<byte>, props: seq<Property>, ends: seq<nat>)
    requires |props| == 2 && TreeLaidOut(blob, props, ends)
    ensures ends[1] + 36 + |props[1].value| <= |blob| < ends[1] + 40 + |props[1].value| && |blob| % 4 == 0
  {
    hide Bytes.SpellsFour;
    assert PropertyAtEnds(blob, props, ends, 1);
  }

  // The authored tree byte by byte: the name property with one zero byte, then the aperture,
  // whose value starts at 84.
  lemma AuthoredBytes(value: seq<byte>, template: bool)
    requires |value| < FLAG
    ensures Encodable(Authored(value, template))
    ensures var tree := Tree(Authored(value, template));
      && 84 + |value| <= |tree|
      && tree[8..12] == [0x6e, 0x61, 0x6d, 0x65]
      && SpellsFour(tree, 40, 1) && tree[44] == 0
      && tree[48..65] == [0x61, 0x75, 0x74, 0x68, 0x6f, 0x72, 0x65, 0x64, 0x2d,
                          0x61, 0x70, 0x65, 0x72, 0x74, 0x75, 0x72, 0x65]
      && SpellsFour(tree, 80, |value| + if template then 0x8000_0000 else 0)
      && tree[84..84 + |value|] == value
  {
    hide Tree, Bytes.SpellsFour, LaidOut, Authored, Encodable;
    var props := Authored(value, template);
    AuthoredIsEncodable(value, template);
    AuthoredFields(value, template);
    AuthoredPlaces(Tree(props), props);
    LaidOutAt(Tree(props), 8, 48, props[0]);
    LaidOutAt(Tree(props), 48, |Tree(props)|, props[1]);
  }

  lemma AuthoredFields(value: seq<byte>, template: bool)
    ensures var props := Authored(value, template);
      && |props| == 2
      && props[0].name == [0x6e, 0x61, 0x6d, 0x65] && props[0].value == [0] && !props[0].flag
      && props[1].name == [0x61, 0x75, 0x74, 0x68, 0x6f, 0x72, 0x65, 0x64, 0x2d,
                           0x61, 0x70, 0x65, 0x72, 0x74, 0x75, 0x72, 0x65]
      && props[1].value == value && props[1].flag == template
  {
  }

  lemma AuthoredPlaces(tree: seq<byte>, props: seq<Property>)
    requires Encodable(props) && |props| == 2 && tree == Tree(props)
    requires ValueStart(props, 0) == 44 && ValueStart(props, 1) == 84
    ensures 48 <= |tree|
    ensures LaidOut(tree[..8], tree[..48], props[0].name, props[0].value, props[0].flag)
    ensures LaidOut(tree[..48], tree[..|tree|], props[1].name, props[1].value, props[1].flag)
  {
    hide Tree, Body, Bytes.SpellsFour, LaidOut, Distinct, Good;
    TreeHasLayout(props);
    assert PropertyAtEnds(tree, props, Ends(props), 0);
    assert PropertyAtEnds(tree, props, Ends(props), 1);
  }

  // A property laid out in the middle of a tree.
  lemma LaidOutAt(tree: seq<byte>, at: nat, next: nat, p: Property)
    requires at <= next <= |tree| && LaidOut(tree[..at], tree[..next], p.name, p.value, p.flag)
    ensures |p.name| <= 32 && at + 36 + |p.value| <= |tree|
    ensures tree[at..at + |p.name|] == p.name
    ensures SpellsFour(tree, at + 32, |p.value| + if p.flag then 0x8000_0000 else 0)
    ensures tree[at + 36..at + 36 + |p.value|] == p.value
  {
    var size := |p.value|;
    assert tree[at..at + |p.name|] == tree[..next][at..at + |p.name|];
    assert tree[at + 36..at + 36 + size] == tree[..next][at + 36..at + 36 + size];
  }

  method AuthoredSource() returns (bytes: seq<byte>)
    ensures var value := Ascii("opaque/observed-extent()") + [0];
      Encodable(Authored(value, true)) && bytes == Tree(Authored(value, true))
  {
    hide PropertyBytes, Bytes.ToLe, Ascii;
    ghost var props := Authored(Ascii("opaque/observed-extent()") + [0], true);
    AuthoredIsEncodable(props[1].value, true);
    TwoProperties(props);
    bytes := ToLe(2, 4) + ToLe(0, 4);
    bytes := AppendProperty(bytes, Ascii(NAME), [0], false);
    bytes := AppendProperty(bytes, Ascii(APERTURE), Ascii("opaque/observed-extent()") + [0], true);
  }

  lemma TwoProperties(props: seq<Property>)
    requires Encodable(props) && |props| == 2
    ensures |Header(2) + PropertyBytes(props[0])| % 4 == 0
    ensures Tree(props) == Header(2) + PropertyBytes(props[0]) + PropertyBytes(props[1])
  {
    hide PropertyBytes, Header;
    assert props == [props[0]] + [props[1]];
    BodySplit([props[0]], [props[1]]);
    BodyOfOne(props[0]);
    BodyOfOne(props[1]);
    PropertyAligned(props[0]);
    MultiplesAdd(8, |PropertyBytes(props[0])|);
  }

  lemma SecondStart(props: seq<Property>)
    requires Encodable(props) && |props| == 2
    ensures ValueStart(props, 0) == 44 && ValueStart(props, 1) > 44
  {
    assert props[..0] == [] && props[..1] == [props[0]];
    BodyOfOne(props[0]);
  }

  // The checker's schema: it accepts the authored tree around any value, and nothing else.
  method DecodeAuthored(blob: seq<byte>, template: bool) returns (r: Option<Located>)
    ensures r.Some? ==>
      var value := r.value.property.value;
      && |value| < FLAG && Encodable(Authored(value, template)) && blob == Tree(Authored(value, template))
      && r.value == Located(Authored(value, template)[1], 84)
    ensures forall value :: Encodable(Authored(value, template)) && blob == Tree(Authored(value, template)) ==>
      r.Some? && r.value.property.value == value
  {
    hide Tree, Body, PropertyBytes, Ascii;
    forall value | Encodable(Authored(value, template)) ensures ValueStart(Authored(value, template), 1) == 84 {
      assert Good(Authored(value, template)[1]);
      AuthoredIsEncodable(value, template);
    }
    var all := Decode(blob);
    if all.None? || |all.value| != 2 {
      return None;
    }
    SecondStart(Properties(all.value));
    var first, second := all.value[0], all.value[1];
    var name, aperture := first, second;
    if second.property.name == Ascii(NAME) {
      name, aperture := second, first;
    }
    if name.property.name != Ascii(NAME) || aperture.property.name != Ascii(APERTURE) {
      return None;
    }
    if name != Located(Property(Ascii(NAME), [0], false), 44) || aperture.property.flag != template {
      return None;
    }
    assert Properties(all.value) == Authored(aperture.property.value, template);
    r := Some(aperture);
  }
}
