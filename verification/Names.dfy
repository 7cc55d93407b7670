/** Names in firmware records: bounded UTF-16 text, escaped to printable ASCII for log lines.
    The same escaping is applied to the text an exited application leaves behind. */
module Names {
  import opened Uefi
  import opened Bytes
  import opened Units
  import opened DevicePaths

  const MAX_NAME: nat := 255
  const MAX_EXIT_DATA_BYTES: nat := 2048

  // ----- terminated text

  // How many units come before the first zero unit, or before the end.
  function TextLength(units: seq<unit>): (n: nat)
    ensures n <= |units|
    ensures forall i :: 0 <= i < n ==> units[i] != 0
    ensures n < |units| ==> units[n] == 0
  {
    if |units| == 0 || units[0] == 0 then 0 else 1 + TextLength(units[1..])
  }

  lemma TextLengthIs(units: seq<unit>, n: nat)
    requires n <= |units| && (forall i :: 0 <= i < n ==> units[i] != 0) && (n < |units| ==> units[n] == 0)
    ensures TextLength(units) == n
  {
  }

  // Allowed in a directory entry's name: no control unit, '/' or '\'.
  predicate IsNameUnit(u: unit) {
    0x1f < u && u !in {0x2f, 0x5c, 0x7f}
  }

  // The text before the terminator is a name the crate takes.
  ghost predicate IsName(bytes: seq<byte>, component: bool, name: seq<unit>) {
    var units := UnitsOf(bytes);
    && TextLength(units) < |units|
    && name == units[..TextLength(units)]
    && |name| <= 255
    && IsUtf16(name)
    && (component ==> |name| > 0 && forall i :: 0 <= i < |name| ==> IsNameUnit(name[i]))
  }

  method NameUnits(bytes: seq<byte>, component: bool) returns (r: Result<seq<unit>, Invalid>)
    ensures r.Ok? ==> IsName(bytes, component, r.value)
    ensures r.Err? ==> r.error == NameInvalid && forall name :: !IsName(bytes, component, name)
  {
    hide IsUtf16, UnitsOf, TextLength;
    ghost var all := UnitsOf(bytes);
    var units: seq<unit> := [];
    var ended := false;
    for k := 0 to |bytes| / 2
      invariant !ended && |units| == k && units == all[..k] && k <= MAX_NAME
      invariant forall i :: 0 <= i < k ==> all[i] != 0
      invariant component ==> forall i :: 0 <= i < k ==> IsNameUnit(units[i])
    {
      var u := U16(bytes[2 * k], bytes[2 * k + 1]);
      UnitAt(bytes, k);
      if u == 0 {
        ended := true;
        TextLengthIs(all, k);
        break;
      }
      if |units| == MAX_NAME || (component && (u < 0x20 || u == 0x7f || u == 0x2f || u == 0x5c)) {
        return Err(NameInvalid);
      }
      units := units + [u];
    }
    if !ended {
      TextLengthIs(all, |all|);
    }
    if !ended || (component && |units| == 0) {
      return Err(NameInvalid);
    }
    var ok := DecodeUtf16(units);
    if !ok {
      return Err(NameInvalid);
    }
    r := Ok(units);
  }

  // ----- escaping

  const HEX: seq<char> := ['0', '1', '2', '3', '4', '5', '6', '7', '8', '9', 'a', 'b', 'c', 'd', 'e', 'f']

  function Hex4(u: unit): (s: string)
    ensures |s| == 4
  {
    [HEX[u / 4096], HEX[u / 256 % 16], HEX[u / 16 % 16], HEX[u % 16]]
  }

  function EscapeUnit(u: unit): string {
    if u == 0x22 then ['\\', '"']
    else if u == 0x5c then ['\\', '\\']
    else if 0x20 <= u <= 0x7e then [u as char]
    else ['\\', 'u'] + Hex4(u)
  }

  function Escape(units: seq<unit>): string {
    if |units| == 0 then [] else EscapeUnit(units[0]) + Escape(units[1..])
  }

  lemma {:induction false} EscapeAppend(units: seq<unit>, u: unit)
    ensures Escape(units + [u]) == Escape(units) + EscapeUnit(u)
  {
    if |units| == 0 {
      assert Escape([u]) == EscapeUnit(u) + Escape([u][1..]);
    } else {
      assert (units + [u])[1..] == units[1..] + [u];
      EscapeAppend(units[1..], u);
    }
  }

  lemma EscapeEmpty()
    ensures Escape([]) == []
  {
  }

  // What is written for one unit.
  method WriteEscaped(u: unit) returns (s: string)
    ensures s == EscapeUnit(u)
  {
    if u == 0x22 {
      s := "\\\"";
    } else if u == 0x5c {
      s := "\\\\";
    } else if 0x20 <= u <= 0x7e {
      s := [u as char];
    } else {
      s := "\\u" + Hex4(u);
    }
  }

  method Name(bytes: seq<byte>, component: bool) returns (r: Result<string, Invalid>)
    ensures r.Ok? ==> exists name :: IsName(bytes, component, name) && r.value == Escape(name)
    ensures r.Err? ==> r.error == NameInvalid && forall name :: !IsName(bytes, component, name)
  {
    hide EscapeUnit, Escape, IsName;
    var units := NameUnits(bytes, component);
    if units.Err? {
      return Err(units.error);
    }
    EscapeEmpty();
    var escaped: string := [];
    for i := 0 to |units.value|
      invariant escaped == Escape(units.value[..i])
    {
      assert units.value[..i + 1] == units.value[..i] + [units.value[i]];
      EscapeAppend(units.value[..i], units.value[i]);
      var written := WriteEscaped(units.value[i]);
      escaped := escaped + written;
    }
    assert units.value[..|units.value|] == units.value;
    r := Ok(escaped);
  }

  // ----- reading escaped text back

  function HexDigit(c: char): Option<nat> {
    if '0' <= c <= '9' then Some(c as nat - '0' as nat)
    else if 'a' <= c <= 'f' then Some(10 + (c as nat - 'a' as nat))
    else None
  }

  function ParseHex4(s: string): Option<unit>
    requires |s| >= 4
  {
    var a, b, c, d := HexDigit(s[0]), HexDigit(s[1]), HexDigit(s[2]), HexDigit(s[3]);
    if a.Some? && b.Some? && c.Some? && d.Some? && a.value < 16 && b.value < 16 && c.value < 16 && d.value < 16
    then Some(4096 * a.value + 256 * b.value + 16 * c.value + d.value) else None
  }

  // Reads a quoted string up to its closing quote: the units, and what follows the quote.
  function ReadQuoted(s: string): Option<(seq<unit>, string)> {
    if |s| == 0 then None
    else if s[0] == '"' then Some(([], s[1..]))
    else if s[0] != '\\' then Prepend(s[0] as nat % 0x1_0000, ReadQuoted(s[1..]))
    else if |s| >= 2 && (s[1] == '"' || s[1] == '\\') then Prepend(s[1] as nat % 0x1_0000, ReadQuoted(s[2..]))
    else if |s| >= 6 && s[1] == 'u' && ParseHex4(s[2..]).Some? then Prepend(ParseHex4(s[2..]).value, ReadQuoted(s[6..]))
    else None
  }

  function Prepend(u: unit, rest: Option<(seq<unit>, string)>): Option<(seq<unit>, string)> {
    match rest
    case None => None
    case Some(pair) => Some(([u] + pair.0, pair.1))
  }

  lemma HexDigitRoundTrip(n: nat)
    requires n < 16
    ensures HexDigit(HEX[n]) == Some(n)
  {
  }

  lemma HexDigitsOf(u: unit)
    ensures u / 4096 < 16
    ensures 4096 * (u / 4096) + 256 * (u / 256 % 16) + 16 * (u / 16 % 16) + u % 16 == u
  {
    assert u / 256 == 16 * (u / 4096) + u / 256 % 16;
    assert u / 16 == 16 * (u / 256) + u / 16 % 16;
  }

  lemma Hex4RoundTrip(u: unit, rest: string)
    ensures ParseHex4(Hex4(u) + rest) == Some(u)
  {
    hide HexDigit;
    HexDigitsOf(u);
    HexDigitRoundTrip(u / 4096);
    HexDigitRoundTrip(u / 256 % 16);
    HexDigitRoundTrip(u / 16 % 16);
    HexDigitRoundTrip(u % 16);
  }

  lemma ReadEscapedUnit(u: unit, rest: string)
    ensures ReadQuoted(EscapeUnit(u) + rest) == Prepend(u, ReadQuoted(rest))
  {
    hide Hex4, ParseHex4, Prepend;
    var s := EscapeUnit(u) + rest;
    if u == 0x22 || u == 0x5c {
      assert s[2..] == rest;
    } else if 0x20 <= u <= 0x7e {
      assert s[1..] == rest;
    } else {
      assert s[2..] == Hex4(u) + rest && s[6..] == rest;
      Hex4RoundTrip(u, rest);
    }
  }

  // Escaped text between quotes reads back as the original units, and nothing of what
  // follows the closing quote is taken for part of it.
  lemma {:induction false} QuotedRoundTrip(units: seq<unit>, rest: string)
    ensures ReadQuoted(Escape(units) + ['"'] + rest) == Some((units, rest))
  {
    if |units| == 0 {
      assert Escape(units) + ['"'] + rest == ['"'] + rest;
      assert (['"'] + rest)[1..] == rest;
    } else {
      var tail := Escape(units[1..]) + ['"'] + rest;
      assert Escape(units) + ['"'] + rest == EscapeUnit(units[0]) + tail;
      ReadEscapedUnit(units[0], tail);
      QuotedRoundTrip(units[1..], rest);
      assert [units[0]] + units[1..] == units;
    }
  }

  lemma EscapeInjective(a: seq<unit>, b: seq<unit>)
    ensures Escape(a) == Escape(b) <==> a == b
  {
    QuotedRoundTrip(a, []);
    QuotedRoundTrip(b, []);
  }

  // Quotation mark and backslash are escaped by a backslash; every other printable ASCII unit
  // stands for itself; the rest are spelled in four lower-case hexadecimal digits.
  lemma EscapeForms(u: unit)
    ensures u == 0x22 ==> EscapeUnit(u) == "\\\""
    ensures u == 0x5c ==> EscapeUnit(u) == "\\\\"
    ensures 0x20 <= u <= 0x7e && u != 0x22 && u != 0x5c ==> EscapeUnit(u) == [u as char]
    ensures !(0x20 <= u <= 0x7e) ==>
      && |EscapeUnit(u)| == 6 && EscapeUnit(u)[..2] == "\\u"
      && HexDigit(EscapeUnit(u)[2]) == Some(u / 0x1000) && HexDigit(EscapeUnit(u)[3]) == Some(u / 0x100 % 16)
      && HexDigit(EscapeUnit(u)[4]) == Some(u / 0x10 % 16) && HexDigit(EscapeUnit(u)[5]) == Some(u % 16)
  {
    hide HexDigit;
    HexDigitsOf(u);
    HexDigitRoundTrip(u / 0x1000);
    HexDigitRoundTrip(u / 0x100 % 16);
    HexDigitRoundTrip(u / 0x10 % 16);
    HexDigitRoundTrip(u % 16);
  }

  lemma EscapeUnitIsPrintable(u: unit)
    ensures forall i :: 0 <= i < |EscapeUnit(u)| ==> ' ' <= EscapeUnit(u)[i] <= '~'
  {
    assert forall n :: 0 <= n < 16 ==> ' ' <= HEX[n] <= '~';
  }

  // Only printable ASCII comes out.
  lemma {:induction false} EscapeIsPrintable(units: seq<unit>)
    ensures forall i :: 0 <= i < |Escape(units)| ==> ' ' <= Escape(units)[i] <= '~'
  {
    hide EscapeUnit;
    if |units| > 0 {
      EscapeUnitIsPrintable(units[0]);
      EscapeIsPrintable(units[1..]);
    }
  }

  lemma OneAndTwoDots()
    ensures Escape([0x2e]) == "." && Escape([0x2e, 0x2e]) == ".."
  {
    EscapeAppend([], 0x2e);
    EscapeAppend([0x2e], 0x2e);
    assert [] + [0x2e] == [0x2e] && [0x2e] + [0x2e] == [0x2e, 0x2e];
  }

  // Recognising "." and ".." after escaping is recognising them before it.
  lemma DotsSurviveEscaping(units: seq<unit>)
    ensures Escape(units) == "." <==> units == [0x2e]
    ensures Escape(units) == ".." <==> units == [0x2e, 0x2e]
  {
    hide Escape;
    OneAndTwoDots();
    EscapeInjective(units, [0x2e]);
    EscapeInjective(units, [0x2e, 0x2e]);
  }

  // ----- text left by an exited application

  method EscapedDescription(bytes: seq<byte>) returns (text: string, units: nat, terminated: bool)
    ensures units == TextLength(UnitsOf(bytes))
    ensures text == Escape(UnitsOf(bytes)[..units])
    ensures terminated <==> units < |bytes| / 2
  {
    hide EscapeUnit, Escape;
    EscapeEmpty();
    ghost var all := UnitsOf(bytes);
    text, units, terminated := [], 0, false;
    for k := 0 to |bytes| / 2
      invariant !terminated && units == k
      invariant text == Escape(all[..k])
      invariant forall i :: 0 <= i < k ==> all[i] != 0
    {
      var u := U16(bytes[2 * k], bytes[2 * k + 1]);
      UnitAt(bytes, k);
      if u == 0 {
        terminated := true;
        TextLengthIs(all, k);
        return;
      }
      assert all[..k + 1] == all[..k] + [all[k]];
      EscapeAppend(all[..k], u);
      var written := WriteEscaped(u);
      text := text + written;
      units := units + 1;
    }
    TextLengthIs(all, |all|);
  }

  // The report on exit data of any size: only a bounded prefix is read, and when the text is
  // terminated within it, text, terminator and trailing bytes add up to the declared size.
  method ExitDataReport(data: seq<byte>) returns (text: string, units: nat, terminated: bool, trailing: nat)
    ensures var seen := if |data| < 2048 then data else data[..2048];
      units == TextLength(UnitsOf(seen)) && text == Escape(UnitsOf(seen)[..units])
    ensures terminated ==> 2 * (units + 1) + trailing == |data|
    ensures !terminated ==> trailing == 0
  {
    var length := if |data| < MAX_EXIT_DATA_BYTES then |data| else MAX_EXIT_DATA_BYTES;
    assert |data| < MAX_EXIT_DATA_BYTES ==> data[..length] == data;
    text, units, terminated := EscapedDescription(data[..length]);
    trailing := if !terminated || |data| < (units + 1) * 2 then 0 else |data| - (units + 1) * 2;
  }
}
