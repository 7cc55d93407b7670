/** 16-bit units stored little-endian in byte strings, and UTF-16 well-formedness. */
module Units {
  import opened Bytes

  type unit = u: nat | u <= 0xffff

  // from_le_bytes for two bytes
  function U16(low: nat, high: nat): nat {
    low + 256 * high
  }

  // The whole units of a byte string; an odd last byte is ignored.
  function UnitsOf(b: seq<byte>): (u: seq<unit>)
    ensures |u| == |b| / 2
  {
    if |b| < 2 then [] else [U16(b[0], b[1])] + UnitsOf(b[2..])
  }

  lemma {:induction false} UnitAt(b: seq<byte>, i: nat)
    requires i < |b| / 2
    ensures UnitsOf(b)[i] == U16(b[2 * i], b[2 * i + 1])
  {
    if i > 0 {
      UnitAt(b[2..], i - 1);
    }
  }

  function UnitBytes(units: seq<unit>): (b: seq<byte>)
    ensures |b| == 2 * |units|
  {
    if |units| == 0 then [] else UnitBytes(units[..|units| - 1]) + ToLe(units[|units| - 1], 2)
  }

  lemma ToLeTwo(v: nat)
    requires v <= 0xffff
    ensures ToLe(v, 2) == [v % 256, v / 256]
  {
    assert ToLe(v, 2) == [v % 256] + ToLe(v / 256, 1);
    assert ToLe(v / 256, 1) == [v / 256 % 256] + ToLe(v / 256 / 256, 0);
  }

  lemma {:induction false} UnitBytesAt(units: seq<unit>, i: nat)
    requires i < |units|
    ensures UnitBytes(units)[2 * i] == units[i] % 256 && UnitBytes(units)[2 * i + 1] == units[i] / 256
  {
    var n := |units| - 1;
    ToLeTwo(units[n]);
    if i < n {
      UnitBytesAt(units[..n], i);
    }
  }

  lemma {:induction false} UnitsOfAppend(a: seq<byte>, b: seq<byte>)
    requires |a| % 2 == 0
    ensures UnitsOf(a + b) == UnitsOf(a) + UnitsOf(b)
    decreases |a|
  {
    if |a| == 0 {
      assert a + b == b;
    } else {
      assert (a + b)[2..] == a[2..] + b;
      UnitsOfAppend(a[2..], b);
    }
  }

  lemma {:induction false} UnitsRoundTrip(units: seq<unit>)
    ensures UnitsOf(UnitBytes(units)) == units
  {
    if |units| > 0 {
      var n := |units| - 1;
      UnitsRoundTrip(units[..n]);
      UnitsOfAppend(UnitBytes(units[..n]), ToLe(units[n], 2));
      ToLeTwo(units[n]);
      assert UnitsOf([units[n] % 256, units[n] / 256]) == [units[n]];
    }
  }

  predicate IsHigh(u: unit) {
    0xd800 <= u <= 0xdbff
  }

  predicate IsLow(u: unit) {
    0xdc00 <= u <= 0xdfff
  }

  // Every surrogate is half of a high-low pair.
  predicate IsUtf16(units: seq<unit>) {
    && (forall i :: 0 <= i < |units| && IsHigh(units[i]) ==> i + 1 < |units| && IsLow(units[i + 1]))
    && (forall i :: 0 <= i < |units| && IsLow(units[i]) ==> i > 0 && IsHigh(units[i - 1]))
  }

  // decode_utf16 without an error: a surrogate has to be a high one, with a low one after it,
  // and the two are taken together.
  method DecodeUtf16(units: seq<unit>) returns (ok: bool)
    ensures ok <==> IsUtf16(units)
  {
    var i := 0;
    while i < |units|
      invariant 0 <= i <= |units|
      invariant i > 0 ==> !IsHigh(units[i - 1])
      invariant forall k :: 0 <= k < i && IsHigh(units[k]) ==> k + 1 < |units| && IsLow(units[k + 1])
      invariant forall k :: 0 <= k < i && IsLow(units[k]) ==> k > 0 && IsHigh(units[k - 1])
    {
      if units[i] < 0xd800 || 0xdfff < units[i] {
        i := i + 1;
      } else if units[i] >= 0xdc00 || i + 1 == |units| {
        return false;
      } else if units[i + 1] < 0xdc00 || 0xdfff < units[i + 1] {
        return false;
      } else {
        i := i + 2;
      }
    }
    ok := true;
  }
}
