/** Lists of numbers and of byte strings stored in one text column (util/string.go:19-148). */
module ListCodecs {
  import opened FixedWidth
  import opened Options
  import opened Text

  const MAX_U32: nat := 0xFFFF_FFFF
  const MAX_U64: nat := 0xFFFF_FFFF_FFFF_FFFF

  type Byte = x: int | 0 <= x < 256

  // ----- numbers -----

  function StringToUint32(s: string): Option<nat> {
    var v := ParseUint(s, MAX_U64);
    if v.None? || v.value > MAX_U32 then None else v
  }

  /** The value an int32 variable holds after being assigned `x`. */
  function WrapI32(x: int): (r: int)
    ensures IsI32(r)
    ensures r == x <==> IsI32(x)
    ensures (x - r) % TWO_32 == 0
  {
    if IsI32(x) then x
    else
      var m := x % TWO_32;
      if m > MAX_I32 then m - TWO_32 else m
  }

  /** Only the upper bound is compared; anything below narrows. */
  function StringToInt32(s: string): Option<int> {
    var v := ParseInt(s, MAX_I64 as nat);
    if v.None? || v.value > MAX_I32 then None else Some(WrapI32(v.value))
  }

  function Uint64ToInt64(n: nat): int {
    var v := ParseInt(Decimal(n), MAX_I64 as nat);
    if v.None? then 0 else v.value
  }

  lemma Uint32RoundTrip(n: nat)
    ensures StringToUint32(Decimal(n)) == if n <= MAX_U32 then Some(n) else None
  {
    ValueOfDecimal(n);
  }

  /** The detour through text keeps every number up to MaxInt64 and turns the others into 0. */
  lemma Uint64ToInt64Exact(n: nat)
    ensures Uint64ToInt64(n) == if n <= MAX_I64 then n else 0
  {
    hide Decimal, ParseInt;
    assert Decimal(n) == Signed(n);
    ParseIntOfSigned(n, MAX_I64 as nat);
  }

  /** Printed 64-bit numbers read back exactly when they fit 32 bits: larger ones are refused, and smaller
      ones come back as some other number. */
  lemma StringToInt32Exact(n: int)
    requires IsI64(n)
    ensures StringToInt32(Signed(n)) == Some(n) <==> IsI32(n)
    ensures StringToInt32(Signed(n)).None? <==> n > MAX_I32
  {
    hide Signed, ParseInt;
    ParseIntOfSigned(n, MAX_I64 as nat);
  }

  // ----- splitting by comma -----

  /** The characters with Unicode's White_Space property, which strings.TrimSpace removes. */
  predicate IsSpace(c: char) {
    '\U{0009}' <= c <= '\U{000D}' || c == ' ' || c == '\U{0085}' || c == '\U{00A0}' || c == '\U{1680}' ||
    '\U{2000}' <= c <= '\U{200A}' || c == '\U{2028}' || c == '\U{2029}' || c == '\U{202F}' ||
    c == '\U{205F}' || c == '\U{3000}'
  }

  /** The code points with the property White_Space in the Unicode standard. */
  const WHITE_SPACE: set<int> :=
    {9, 10, 11, 12, 13, 32, 133, 160, 5760, 8192, 8193, 8194, 8195, 8196, 8197, 8198, 8199, 8200, 8201, 8202,
     8232, 8233, 8239, 8287, 12288}

  lemma SpacesAreWhiteSpace(c: char)
    ensures IsSpace(c) <==> c as int in WHITE_SPACE
  {
  }

  function TrimLeft(s: string): string {
    if s != [] && IsSpace(s[0]) then TrimLeft(s[1..]) else s
  }

  function TrimRight(s: string): string {
    if s != [] && IsSpace(s[|s| - 1]) then TrimRight(s[..|s| - 1]) else s
  }

  function TrimSpace(s: string): string {
    TrimRight(TrimLeft(s))
  }

  /** The parts that are not blank, trimmed. */
  function Trimmed(parts: seq<string>): seq<string> {
    if parts == [] then []
    else
      var last := TrimSpace(parts[|parts| - 1]);
      Trimmed(parts[..|parts| - 1]) + if |last| > 0 then [last] else []
  }

  function Items(s: string): seq<string> {
    Trimmed(Split(TrimSpace(s), ','))
  }

  lemma {:induction false} TrimLeftMeans(s: string) returns (left: string)
    ensures s == left + TrimLeft(s) && (forall i :: 0 <= i < |left| ==> IsSpace(left[i]))
    ensures TrimLeft(s) != [] ==> !IsSpace(TrimLeft(s)[0])
  {
    hide IsSpace;
    left := [];
    if s != [] && IsSpace(s[0]) {
      var rest := TrimLeftMeans(s[1..]);
      left := [s[0]] + rest;
      assert s == [s[0]] + s[1..];
    }
  }

  lemma {:induction false} TrimRightMeans(s: string) returns (right: string)
    ensures s == TrimRight(s) + right && (forall i :: 0 <= i < |right| ==> IsSpace(right[i]))
    ensures TrimRight(s) != [] ==> !IsSpace(TrimRight(s)[|TrimRight(s)| - 1])
    ensures TrimRight(s) != [] ==> TrimRight(s)[0] == s[0]
  {
    hide IsSpace;
    right := [];
    if s != [] && IsSpace(s[|s| - 1]) {
      var rest := TrimRightMeans(s[..|s| - 1]);
      right := rest + [s[|s| - 1]];
      assert s == s[..|s| - 1] + [s[|s| - 1]];
    }
  }

  /** Trimming takes only spaces away, from both ends, until none is left there. */
  lemma TrimMeans(s: string) returns (left: string, right: string)
    ensures s == left + TrimSpace(s) + right
    ensures (forall i :: 0 <= i < |left| ==> IsSpace(left[i])) && (forall i :: 0 <= i < |right| ==> IsSpace(right[i]))
    ensures var t := TrimSpace(s); t != [] ==> !IsSpace(t[0]) && !IsSpace(t[|t| - 1])
  {
    hide IsSpace, TrimLeft, TrimRight;
    left := TrimLeftMeans(s);
    right := TrimRightMeans(TrimLeft(s));
  }

  /** An item is not empty, neither starts nor ends with a space, and holds no comma. */
  predicate WellTrimmed(item: string) {
    && item != [] && ',' !in item
    && item[0] as int !in WHITE_SPACE && item[|item| - 1] as int !in WHITE_SPACE
  }

  lemma {:induction false} PartsHoldNoComma(s: string)
    ensures forall p :: p in Split(s, ',') ==> ',' !in p
  {
    if s != [] {
      PartsHoldNoComma(s[1..]);
      var rest := Split(s[1..], ',');
      assert rest[0] in rest;
      forall p | p in Split(s, ',')
        ensures ',' !in p
      {
        assert p == "" || p in rest || p == [s[0]] + rest[0];
      }
    }
  }

  lemma {:induction false} TrimmedParts(parts: seq<string>)
    requires forall p :: p in parts ==> ',' !in p
    ensures forall i :: 0 <= i < |Trimmed(parts)| ==> WellTrimmed(Trimmed(parts)[i])
  {
    hide IsSpace, TrimSpace;
    if parts != [] {
      var n := |parts| - 1;
      TrimmedParts(parts[..n]);
      var left, right := TrimMeans(parts[n]);
      assert parts[n] in parts;
      var t := TrimSpace(parts[n]);
      if t != [] {
        SpacesAreWhiteSpace(t[0]);
        SpacesAreWhiteSpace(t[|t| - 1]);
      }
      forall i | 0 <= i < |t|
        ensures t[i] != ','
      {
        assert parts[n][|left| + i] == t[i];
      }
    }
  }

  method SplitByComma(s: string) returns (items: seq<string>)
    ensures items == Items(s)
    ensures forall i :: 0 <= i < |items| ==> WellTrimmed(items[i])
  {
    hide Split, TrimSpace, WellTrimmed;
    PartsHoldNoComma(TrimSpace(s));
    TrimmedParts(Split(TrimSpace(s), ','));
    var parts := Split(TrimSpace(s), ',');
    items := [];
    for i := 0 to |parts|
      invariant items == Trimmed(parts[..i])
    {
      assert parts[..i + 1][..i] == parts[..i];
      if |TrimSpace(parts[i])| > 0 {
        items := items + [TrimSpace(parts[i])];
      }
    }
    assert parts[..|parts|] == parts;
  }

  // ----- splitting what was joined -----

  predicate Plain(s: string) {
    forall i :: 0 <= i < |s| ==> s[i] != ',' && !IsSpace(s[i])
  }

  function NonEmpty<T(==)>(list: seq<seq<T>>): seq<seq<T>> {
    if list == [] then []
    else NonEmpty(list[..|list| - 1]) + if list[|list| - 1] != [] then [list[|list| - 1]] else []
  }

  lemma NothingToTrim(s: string)
    requires forall i :: 0 <= i < |s| ==> !IsSpace(s[i])
    ensures TrimSpace(s) == s
  {
  }

  lemma {:induction false} TrimmedPlain(parts: seq<string>)
    requires forall i :: 0 <= i < |parts| ==> Plain(parts[i])
    ensures Trimmed(parts) == NonEmpty(parts)
  {
    if parts != [] {
      TrimmedPlain(parts[..|parts| - 1]);
      assert Plain(parts[|parts| - 1]);
      NothingToTrim(parts[|parts| - 1]);
    }
  }

  lemma {:induction false} JoinHasNoSpace(parts: seq<string>)
    requires forall i :: 0 <= i < |parts| ==> Plain(parts[i])
    ensures forall i :: 0 <= i < |Join(parts, ',')| ==> !IsSpace(Join(parts, ',')[i])
  {
    if |parts| > 0 {
      assert Plain(parts[0]);
      JoinHasNoSpace(parts[1..]);
    }
  }

  /** Splitting a joined list of plain parts gives back its non-empty parts. */
  lemma ItemsOfJoin(parts: seq<string>)
    requires forall i :: 0 <= i < |parts| ==> Plain(parts[i])
    ensures Items(Join(parts, ',')) == NonEmpty(parts)
  {
    JoinHasNoSpace(parts);
    NothingToTrim(Join(parts, ','));
    if parts == [] {
      assert Split("", ',') == [""];
      TrimmedPlain([""]);
    } else {
      SplitOfJoin(parts, ',');
      TrimmedPlain(parts);
    }
  }

  lemma {:induction false} AllKept<T>(list: seq<seq<T>>)
    ensures NonEmpty(list) == list <==> forall i :: 0 <= i < |list| ==> list[i] != []
  {
    KeptCount(list);
    if forall i :: 0 <= i < |list| ==> list[i] != [] {
      KeptWhole(list);
    }
  }

  lemma {:induction false} KeptWhole<T>(list: seq<seq<T>>)
    requires forall i :: 0 <= i < |list| ==> list[i] != []
    ensures NonEmpty(list) == list
  {
    if list != [] {
      KeptWhole(list[..|list| - 1]);
    }
  }

  lemma {:induction false} KeptCount<T>(list: seq<seq<T>>)
    ensures |NonEmpty(list)| <= |list|
    ensures (exists i :: 0 <= i < |list| && list[i] == []) ==> |NonEmpty(list)| < |list|
  {
    if list != [] {
      var n := |list| - 1;
      KeptCount(list[..n]);
      if i :| 0 <= i < |list| && list[i] == [] {
        assert i < n ==> list[..n][i] == [];
      }
    }
  }

  // ----- decoding every item -----

  /** All items decoded, or None if one cannot be. */
  function DecodeAll<T>(items: seq<string>, decode: string -> Option<T>): (r: Option<seq<T>>)
    ensures r.Some? <==> forall i :: 0 <= i < |items| ==> decode(items[i]).Some?
    ensures r.Some? ==> |r.value| == |items| &&
                        forall i :: 0 <= i < |items| ==> decode(items[i]) == Some(r.value[i])
  {
    if items == [] then Some([])
    else
      var last := |items| - 1;
      var init := DecodeAll(items[..last], decode);
      var d := decode(items[last]);
      if init.None? || d.None? then
        assert init.None? ==> exists i :: 0 <= i < last && decode(items[..last][i]).None?;
        None
      else
        assert forall i :: 0 <= i < last ==> items[..last][i] == items[i];
        Some(init.value + [d.value])
  }

  // ----- lists of numbers -----

  function Decimals(ids: seq<nat>): seq<string> {
    seq(|ids|, i requires 0 <= i < |ids| => Decimal(ids[i]))
  }

  method Uint32SliceToString(ids: seq<nat>) returns (s: string)
    requires forall i :: 0 <= i < |ids| ==> ids[i] <= MAX_U32
    ensures s == Join(Decimals(ids), ',')
    ensures DecodeAll(Items(s), StringToUint32) == Some(ids)
  {
    var list := new string[|ids|];
    for i := 0 to |ids|
      invariant forall j :: 0 <= j < i ==> list[j] == Decimal(ids[j])
    {
      list[i] := Decimal(ids[i]);
    }
    assert list[..] == Decimals(ids);
    s := Join(list[..], ',');
    NumbersRoundTrip(ids);
  }

  method StringToUint32Slice(s: string) returns (ids: Option<seq<nat>>)
    ensures ids == DecodeAll(Items(s), StringToUint32)
  {
    hide StringToUint32, Items;
    var items := SplitByComma(s);
    var list := new nat[|items|];
    for i := 0 to |items|
      invariant forall j :: 0 <= j < i ==> StringToUint32(items[j]) == Some(list[j])
    {
      var v := StringToUint32(items[i]);
      if v.None? {
        return None;
      }
      list[i] := v.value;
    }
    ids := Some(list[..]);
    assert DecodeAll(items, StringToUint32).value == list[..];
  }

  lemma DecimalIsPlain(n: nat)
    ensures Plain(Decimal(n)) && Decimal(n) != []
  {
    assert forall c {:trigger IsDigit(c)} :: IsDigit(c) ==> c != ',' && !IsSpace(c);
  }

  lemma DecimalsArePlain(ids: seq<nat>)
    ensures forall i :: 0 <= i < |ids| ==> Plain(Decimals(ids)[i]) && Decimals(ids)[i] != []
  {
    hide Plain, Decimal;
    forall i | 0 <= i < |ids|
      ensures Plain(Decimals(ids)[i]) && Decimals(ids)[i] != []
    {
      DecimalIsPlain(ids[i]);
    }
  }

  lemma DecimalsDecode(ids: seq<nat>)
    requires forall i :: 0 <= i < |ids| ==> ids[i] <= MAX_U32
    ensures DecodeAll(Decimals(ids), StringToUint32) == Some(ids)
  {
    hide StringToUint32, Decimal;
    forall i | 0 <= i < |ids|
      ensures StringToUint32(Decimals(ids)[i]) == Some(ids[i])
    {
      Uint32RoundTrip(ids[i]);
    }
    assert DecodeAll(Decimals(ids), StringToUint32).value == ids;
  }

  /** A list of 32-bit numbers survives the round trip, the empty list included. */
  lemma NumbersRoundTrip(ids: seq<nat>)
    requires forall i :: 0 <= i < |ids| ==> ids[i] <= MAX_U32
    ensures DecodeAll(Items(Join(Decimals(ids), ',')), StringToUint32) == Some(ids)
  {
    hide Items, StringToUint32, Plain, Decimal, NonEmpty, DecodeAll;
    DecimalsArePlain(ids);
    ItemsOfJoin(Decimals(ids));
    AllKept(Decimals(ids));
    DecimalsDecode(ids);
  }

  // ----- lists of byte strings -----

  function HexDigit(d: nat): (c: char)
    requires d < 16
    ensures HexValue(c) == Some(d) && c != ',' && !IsSpace(c)
  {
    if d < 10 then '0' + d as char else 'a' + (d - 10) as char
  }

  function HexValue(c: char): (v: Option<nat>)
    ensures v.Some? ==> v.value < 16
  {
    if '0' <= c <= '9' then Some((c - '0') as nat)
    else if 'a' <= c <= 'f' then Some((c - 'a') as nat + 10)
    else if 'A' <= c <= 'F' then Some((c - 'A') as nat + 10)
    else None
  }

  function HexEncode(bytes: seq<Byte>): string {
    if bytes == [] then "" else [HexDigit(bytes[0] / 16), HexDigit(bytes[0] % 16)] + HexEncode(bytes[1..])
  }

  /** hex.DecodeString: the bytes up to the first pair that is no byte, and whether that is all of it. */
  function HexRead(s: string): (seq<Byte>, bool) {
    if s == [] then ([], true)
    else if |s| == 1 then ([], false)
    else
      var high, low, rest := HexValue(s[0]), HexValue(s[1]), HexRead(s[2..]);
      if high.None? || low.None? then ([], false) else ([high.value * 16 + low.value] + rest.0, rest.1)
  }

  function HexDecode(s: string): Option<seq<Byte>> {
    var (bytes, ok) := HexRead(s);
    if ok then Some(bytes) else None
  }

  lemma {:induction false} HexRoundTrip(bytes: seq<Byte>)
    ensures HexDecode(HexEncode(bytes)) == Some(bytes)
    ensures Plain(HexEncode(bytes))
    ensures HexEncode(bytes) == [] <==> bytes == []
  {
    hide IsSpace, HexValue, HexDigit;
    if bytes != [] {
      HexRoundTrip(bytes[1..]);
      var high, low := HexDigit(bytes[0] / 16), HexDigit(bytes[0] % 16);
      var s := [high, low] + HexEncode(bytes[1..]);
      assert s[0] == high && s[1] == low && s[2..] == HexEncode(bytes[1..]);
      assert bytes == [bytes[0]] + bytes[1..];
    }
  }

  lemma HexDigitAt(d: nat)
    requires d < 16
    ensures HexDigit(d) == "0123456789abcdef"[d]
  {
  }

  /** Two lower-case hexadecimal digits for each byte, the high one first. */
  lemma {:induction false} HexEncodeAt(bytes: seq<Byte>, i: nat)
    requires i < |bytes|
    ensures |HexEncode(bytes)| == 2 * |bytes|
    ensures HexEncode(bytes)[2 * i] == "0123456789abcdef"[bytes[i] / 16]
    ensures HexEncode(bytes)[2 * i + 1] == "0123456789abcdef"[bytes[i] % 16]
  {
    hide IsSpace, HexValue, HexDigit;
    HexDigitAt(bytes[i] / 16);
    HexDigitAt(bytes[i] % 16);
    var rest := HexEncode(bytes[1..]);
    if i > 0 {
      HexEncodeAt(bytes[1..], i - 1);
      assert HexEncode(bytes)[2 * i] == rest[2 * (i - 1)] && HexEncode(bytes)[2 * i + 1] == rest[2 * (i - 1) + 1];
    } else if |bytes| > 1 {
      HexEncodeAt(bytes[1..], 0);
    }
  }

  predicate IsHexDigit(c: char) {
    c in "0123456789abcdefABCDEF"
  }

  /** Exactly the strings of an even number of hexadecimal digits in either case decode. */
  lemma {:induction false} HexDecodes(s: string)
    ensures HexDecode(s).Some? <==> |s| % 2 == 0 && forall i :: 0 <= i < |s| ==> IsHexDigit(s[i])
  {
    hide HexValue, IsHexDigit;
    if |s| >= 2 {
      var rest := s[2..];
      HexDecodes(rest);
      HexDigits(s[0]);
      HexDigits(s[1]);
      assert s == [s[0], s[1]] + rest;
      assert HexDecode(s).Some? <==> IsHexDigit(s[0]) && IsHexDigit(s[1]) && HexDecode(rest).Some?;
      assert |s| % 2 == |rest| % 2;
    }
  }

  lemma HexDigits(c: char)
    ensures HexValue(c).Some? <==> IsHexDigit(c)
  {
  }

  function Hexes(list: seq<seq<Byte>>): seq<string> {
    seq(|list|, i requires 0 <= i < |list| => HexEncode(list[i]))
  }

  method BytesSliceToString(list: seq<seq<Byte>>) returns (s: string)
    ensures s == Join(Hexes(list), ',')
    ensures DecodeAll(Items(s), HexDecode) == Some(NonEmpty(list))
  {
    var strings := new string[|list|];
    for i := 0 to |list|
      invariant forall j :: 0 <= j < i ==> strings[j] == HexEncode(list[j])
    {
      strings[i] := HexEncode(list[i]);
    }
    assert strings[..] == Hexes(list);
    s := Join(strings[..], ',');
    BytesRoundTrip(list);
  }

  /** The list that comes with an error: everything before the bad item, what could be read of it, and nothing
      for the items behind it. */
  predicate IsPartial(items: seq<string>, list: seq<seq<Byte>>, bad: nat) {
    && bad < |items| == |list|
    && (forall j :: 0 <= j < bad ==> HexDecode(items[j]) == Some(list[j]))
    && HexDecode(items[bad]).None? && list[bad] == HexRead(items[bad]).0
    && (forall j :: bad < j < |items| ==> list[j] == [])
  }

  method StringToBytesSlice(s: string) returns (list: seq<seq<Byte>>, ok: bool)
    ensures ok <==> DecodeAll(Items(s), HexDecode).Some?
    ensures ok ==> DecodeAll(Items(s), HexDecode) == Some(list)
    ensures !ok ==> exists bad: nat :: IsPartial(Items(s), list, bad)
  {
    hide HexRead, Items;
    var items := SplitByComma(s);
    var hashes := new seq<Byte>[|items|](_ => []);
    for i := 0 to |items|
      invariant forall j :: 0 <= j < i ==> HexDecode(items[j]) == Some(hashes[j])
      invariant forall j :: i <= j < |items| ==> hashes[j] == []
    {
      var (bytes, complete) := HexRead(items[i]);
      hashes[i] := bytes;
      if !complete {
        assert IsPartial(items, hashes[..], i);
        return hashes[..], false;
      }
    }
    assert DecodeAll(items, HexDecode).value == hashes[..];
    return hashes[..], true;
  }

  lemma {:induction false} NonEmptyHexes(list: seq<seq<Byte>>)
    ensures NonEmpty(Hexes(list)) == Hexes(NonEmpty(list))
  {
    if list != [] {
      var init, last := list[..|list| - 1], list[|list| - 1];
      NonEmptyHexes(init);
      HexRoundTrip(last);
      hide HexEncode, HexDecode, Plain;
      assert Hexes(list)[..|list| - 1] == Hexes(init);
      assert Hexes(NonEmpty(init) + [last]) == Hexes(NonEmpty(init)) + [HexEncode(last)];
    }
  }

  lemma HexesArePlain(list: seq<seq<Byte>>)
    ensures forall i :: 0 <= i < |list| ==> Plain(Hexes(list)[i])
  {
    hide Plain, HexEncode;
    forall i | 0 <= i < |list|
      ensures Plain(Hexes(list)[i])
    {
      HexRoundTrip(list[i]);
    }
  }

  lemma HexesDecode(list: seq<seq<Byte>>)
    ensures DecodeAll(Hexes(list), HexDecode) == Some(list)
  {
    hide Plain, HexEncode, HexDecode;
    forall i | 0 <= i < |list|
      ensures HexDecode(Hexes(list)[i]) == Some(list[i])
    {
      HexRoundTrip(list[i]);
    }
    assert DecodeAll(Hexes(list), HexDecode).value == list;
  }

  /** A list of byte strings comes back without its empty elements, so it survives exactly when it has none. */
  lemma BytesRoundTrip(list: seq<seq<Byte>>)
    ensures DecodeAll(Items(Join(Hexes(list), ',')), HexDecode) == Some(NonEmpty(list))
    ensures DecodeAll(Items(Join(Hexes(list), ',')), HexDecode) == Some(list) <==>
            forall i :: 0 <= i < |list| ==> list[i] != []
  {
    hide Items, HexDecode, HexEncode, Plain, NonEmpty, DecodeAll;
    HexesArePlain(list);
    ItemsOfJoin(Hexes(list));
    NonEmptyHexes(list);
    HexesDecode(NonEmpty(list));
    AllKept(list);
  }
}
