/** Cashaddr text (src/cashaddr.cpp). */
module CashAddr {
  import opened Basics
  import opened CashAddrCode

  /** What Decode gives for a text: nothing, a prefix and values, or no defined result. */
  datatype Outcome = Refused | Undefined | Accepted(prefix: string, values: seq<bv8>)

  predicate IsLower(c: char) { 'a' <= c <= 'z' }
  predicate IsUpper(c: char) { 'A' <= c <= 'Z' }
  predicate IsDigit(c: char) { '0' <= c <= '9' }

  /** The character set for encoding. */
  function CharOf(d: bv8): (c: char)
    requires d < 32
    ensures IsLower(c) || IsDigit(c)
  {
    if d == 0 then 'q' else if d == 1 then 'p' else if d == 2 then 'z' else if d == 3 then 'r'
    else if d == 4 then 'y' else if d == 5 then '9' else if d == 6 then 'x' else if d == 7 then '8'
    else if d == 8 then 'g' else if d == 9 then 'f' else if d == 10 then '2' else if d == 11 then 't'
    else if d == 12 then 'v' else if d == 13 then 'd' else if d == 14 then 'w' else if d == 15 then '0'
    else if d == 16 then 's' else if d == 17 then '3' else if d == 18 then 'j' else if d == 19 then 'n'
    else if d == 20 then '5' else if d == 21 then '4' else if d == 22 then 'k' else if d == 23 then 'h'
    else if d == 24 then 'c' else if d == 25 then 'e' else if d == 26 then '6' else if d == 27 then 'm'
    else if d == 28 then 'u' else if d == 29 then 'a' else if d == 30 then '7' else 'l'
  }

  function LowerCase(c: char): char {
    if IsUpper(c) then (c as int + 32) as char else c
  }

  function LowerValue(c: char): Option<bv8> {
    if c == 'q' then Some(0) else if c == 'p' then Some(1) else if c == 'z' then Some(2)
    else if c == 'r' then Some(3) else if c == 'y' then Some(4) else if c == '9' then Some(5)
    else if c == 'x' then Some(6) else if c == '8' then Some(7) else if c == 'g' then Some(8)
    else if c == 'f' then Some(9) else if c == '2' then Some(10) else if c == 't' then Some(11)
    else if c == 'v' then Some(12) else if c == 'd' then Some(13) else if c == 'w' then Some(14)
    else if c == '0' then Some(15) else if c == 's' then Some(16) else if c == '3' then Some(17)
    else if c == 'j' then Some(18) else if c == 'n' then Some(19) else if c == '5' then Some(20)
    else if c == '4' then Some(21) else if c == 'k' then Some(22) else if c == 'h' then Some(23)
    else if c == 'c' then Some(24) else if c == 'e' then Some(25) else if c == '6' then Some(26)
    else if c == 'm' then Some(27) else if c == 'u' then Some(28) else if c == 'a' then Some(29)
    else if c == '7' then Some(30) else if c == 'l' then Some(31)
    else None
  }

  /** The character set for decoding takes either case. */
  const CHARSET := "qpzry9x8gf2tvdw0s3jn54khce6mua7l"

  /** The character of a value is the one at its place in the set, and has that value. */
  lemma CharsetIs(d: bv8)
    requires d < 32
    ensures |CHARSET| == 32 && CharOf(d) == CHARSET[d as int] && LowerValue(CHARSET[d as int]) == Some(d)
  {
    hide CharOf, LowerValue;
    CharsetLow(d);
    CharsetHigh(d);
    if d < 16 { ValueOfLowChar(d); } else { ValueOfHighChar(d); }
  }

  lemma CharsetLow(d: bv8)
    ensures d < 16 ==> CharOf(d) == CHARSET[d as int]
  {
  }

  lemma CharsetHigh(d: bv8)
    ensures 16 <= d < 32 ==> CharOf(d) == CHARSET[d as int]
  {
  }

  function ValueOf(c: char): Option<bv8> { LowerValue(LowerCase(c)) }

  lemma ValueOfChar(d: bv8)
    requires d < 32
    ensures ValueOf(CharOf(d)) == Some(d)
  {
    hide LowerValue, CharOf;
    if d < 16 { ValueOfLowChar(d); } else { ValueOfHighChar(d); }
  }

  lemma ValueOfLowChar(d: bv8)
    requires d < 16
    ensures LowerValue(CharOf(d)) == Some(d)
  {
  }

  lemma ValueOfHighChar(d: bv8)
    requires 16 <= d < 32
    ensures LowerValue(CharOf(d)) == Some(d)
  {
  }

  lemma CharOfValue(c: char)
    requires ValueOf(c).Some?
    ensures ValueOf(c).value < 32 && CharOf(ValueOf(c).value) == LowerCase(c)
  {
    hide LowerCase;
    CharOfLower(LowerCase(c));
  }

  lemma CharOfLower(c: char)
    requires LowerValue(c).Some?
    ensures LowerValue(c).value < 32 && CharOf(LowerValue(c).value) == c
  {
  }

  /** A lower-case character outside the set has no value. */
  lemma CharsetOnly(c: char)
    requires LowerValue(c).Some?
    ensures c in CHARSET
  {
    hide CharOf, LowerValue;
    CharOfLower(c);
    CharsetIs(LowerValue(c).value);
  }

  // --- What a text means ---

  /** The position of the first separator, or -1. */
  function Colon(s: string): (k: int)
    ensures -1 <= k < |s| && (k >= 0 ==> s[k] == ':')
    ensures forall i :: 0 <= i < (if k < 0 then |s| else k) ==> s[i] != ':'
  {
    if s == [] then -1 else if s[0] == ':' then 0
    else
      var k := Colon(s[1..]);
      if k < 0 then -1 else k + 1
  }

  lemma ColonIs(s: string, k: nat)
    requires k < |s| && s[k] == ':' && forall i :: 0 <= i < k ==> s[i] != ':'
    ensures Colon(s) == k
  {
  }

  predicate Allowed(c: char) { IsLower(c) || IsUpper(c) || IsDigit(c) || c == ':' }

  /** Only letters, digits and at most one separator; letters of one case; a prefix, if there is
      one, is nonempty and has no digits. */
  predicate WellShaped(s: string) {
    && (forall i :: 0 <= i < |s| ==> Allowed(s[i]))
    && (forall i :: 0 <= i < |s| && s[i] == ':' ==> i == Colon(s))
    && Colon(s) != 0
    && (forall i :: 0 <= i < Colon(s) ==> !IsDigit(s[i]))
    && !((exists i :: 0 <= i < |s| && IsUpper(s[i])) && (exists i :: 0 <= i < |s| && IsLower(s[i])))
  }

  function Lowered(s: string): (t: string)
    ensures |t| == |s| && forall i :: 0 <= i < |s| ==> t[i] == LowerCase(s[i])
  {
    seq(|s|, i requires 0 <= i < |s| => LowerCase(s[i]))
  }

  /** The low five bits of every character of the prefix, then a zero. */
  function ExpandPrefix(prefix: string): seq<bv8> {
    seq(|prefix|, i requires 0 <= i < |prefix| => (prefix[i] as int % 32) as bv8) + [0]
  }

  predicate AllValues(s: string) { forall i :: 0 <= i < |s| ==> ValueOf(s[i]).Some? }

  function Values(s: string): (v: seq<bv8>)
    requires AllValues(s)
    ensures |v| == |s| && forall i :: 0 <= i < |s| ==> v[i] == ValueOf(s[i]).value
  {
    seq(|s|, i requires 0 <= i < |s| => ValueOf(s[i]).value)
  }

  function Chars(v: seq<bv8>): (s: string)
    requires Fives(v)
    ensures |s| == |v| && forall i :: 0 <= i < |v| ==> s[i] == CharOf(v[i])
  {
    seq(|v|, i requires 0 <= i < |v| => CharOf(v[i]))
  }

  predicate Verifies(prefix: string, v: seq<bv8>) { PolyMod(ExpandPrefix(prefix) + v) == 1 }

  function Payload(s: string): string { s[Colon(s) + 1..] }

  function Prefix(s: string, standard: string): string {
    if Colon(s) < 0 then standard else Lowered(s[..Colon(s)])
  }

  /** The prefix and the values without their checksum; a text that verifies with fewer than
      eight values has no checksum to drop. */
  function Decoded(s: string, standard: string): Outcome {
    if WellShaped(s) && AllValues(Payload(s)) && Verifies(Prefix(s, standard), Values(Payload(s))) then
      if |Payload(s)| < 8 then Undefined
      else Accepted(Prefix(s, standard), Values(Payload(s))[..|Payload(s)| - 8])
    else Refused
  }

  function Encoded(prefix: string, v: seq<bv8>): string
    requires Fives(v)
  {
    ChecksumFives(ExpandPrefix(prefix) + v);
    prefix + ":" + Chars(v + Checksum(ExpandPrefix(prefix) + v))
  }

  // --- Round trips ---

  ghost predicate LowerWord(p: string) { p != "" && forall i :: 0 <= i < |p| ==> IsLower(p[i]) }

  lemma ValuesOfChars(v: seq<bv8>)
    requires Fives(v)
    ensures AllValues(Chars(v)) && Values(Chars(v)) == v
  {
    hide ValueOf, CharOf;
    forall i | 0 <= i < |v| ensures ValueOf(Chars(v)[i]) == Some(v[i]) { ValueOfChar(v[i]); }
  }

  lemma CharsOfValues(s: string)
    requires AllValues(s)
    ensures Fives(Values(s)) && Chars(Values(s)) == Lowered(s)
  {
    hide ValueOf, CharOf, LowerCase;
    forall i | 0 <= i < |s| ensures Values(s)[i] < 32 && CharOf(Values(s)[i]) == LowerCase(s[i]) { CharOfValue(s[i]); }
  }

  lemma EncodedShape(p: string, v: seq<bv8>)
    requires LowerWord(p) && Fives(v)
    ensures var s := p + ":" + Chars(v);
      WellShaped(s) && Colon(s) == |p| && Payload(s) == Chars(v) && Prefix(s, "") == p
  {
    hide CharOf;
    var s := p + ":" + Chars(v);
    forall i | 0 <= i < |s|
      ensures Allowed(s[i]) && !IsUpper(s[i]) && (s[i] == ':' ==> i == |p|)
    {
      if i > |p| { assert s[i] == Chars(v)[i - |p| - 1]; }
    }
    ColonIs(s, |p|);
    assert Lowered(s[..|p|]) == p;
  }

  /** Decoding gives back what was encoded exactly when the prefix is a nonempty word of lower-case
      letters. */
  lemma RoundTripIff(p: string, v: seq<bv8>, standard: string)
    requires Fives(v)
    ensures Decoded(Encoded(p, v), standard) == Accepted(p, v) <==> LowerWord(p)
  {
    hide CharOf, ValueOf, Colon, WellShaped, PolyMod, Checksum, ExpandPrefix;
    var e := ExpandPrefix(p) + v;
    var cs := Checksum(e);
    var s := Encoded(p, v);
    ChecksumFives(e);
    if LowerWord(p) {
      EncodedShape(p, v + cs);
      ValuesOfChars(v + cs);
      ChecksumIff(e, cs);
      assert ExpandPrefix(p) + (v + cs) == e + cs;
    } else if Decoded(s, standard).Accepted? {
      assert s[|p|] == ':';
      DecodedPrefix(s, standard, |p|);
    }
  }

  /** A text with a separator that decodes has a prefix of lower-case letters. */
  lemma DecodedPrefix(s: string, standard: string, k: nat)
    requires Decoded(s, standard).Accepted? && k < |s| && s[k] == ':'
    ensures LowerWord(Decoded(s, standard).prefix)
  {
    hide CharOf, ValueOf, PolyMod;
    assert Colon(s) == k;
  }

  /** A prefix with a digit, such as the main network's, makes addresses that do not decode. */
  lemma DigitInPrefix(p: string, v: seq<bv8>, standard: string, i: nat)
    requires Fives(v) && i < |p| && IsDigit(p[i])
    ensures Decoded(Encoded(p, v), standard) == Refused
  {
    hide CharOf, ValueOf, PolyMod, Checksum, ExpandPrefix;
    var s := Encoded(p, v);
    assert s[i] == p[i] && s[|p|] == ':';
    if Colon(s) < i { assert s[Colon(s)] == ':'; }
  }

  lemma MainPrefixFails(v: seq<bv8>)
    requires Fives(v)
    ensures Decoded(Encoded("2x2coin", v), "2x2coin") == Refused
  {
    DigitInPrefix("2x2coin", v, "2x2coin", 0);
  }

  /** What decodes is, but for case and an omitted prefix, the encoding of what it decodes to. */
  lemma EncodeDecode(s: string, standard: string)
    requires Decoded(s, standard).Accepted?
    ensures var Accepted(p, v) := Decoded(s, standard);
      Fives(v) && Encoded(p, v) == p + ":" + Lowered(Payload(s))
  {
    hide CharOf, ValueOf, Colon, WellShaped, PolyMod, Checksum, ExpandPrefix, LowerCase;
    var Accepted(p, v) := Decoded(s, standard);
    CharsOfValues(Payload(s));
    var all := Values(Payload(s));
    var cs := all[|all| - 8..];
    assert all == v + cs;
    var e := ExpandPrefix(p) + v;
    assert ExpandPrefix(p) + all == e + cs;
    ChecksumIff(e, cs);
  }

  // --- Texts too short to hold a checksum ---

  /** Decode has no defined result exactly for well-shaped texts of fewer than eight values whose
      values are what the prefix leaves for that many; with eight or more it always has one. */
  lemma UndefinedIff(s: string, standard: string)
    ensures Decoded(s, standard) == Undefined <==>
      && WellShaped(s) && AllValues(Payload(s)) && |Payload(s)| < 8
      && var n := |Payload(s)|;
         var w := Xor(Steps(PolyMod(ExpandPrefix(Prefix(s, standard))), n), 1);
         Below(w, n) && Values(Payload(s)) == Unpacked(w, n)
  {
    hide CharOf, ValueOf, Colon, WellShaped, PolyMod, ExpandPrefix, Steps, Xor, Below, Unpacked;
    if AllValues(Payload(s)) && |Payload(s)| < 8 {
      CharsOfValues(Payload(s));
      ShortIff(ExpandPrefix(Prefix(s, standard)), Values(Payload(s)));
    }
  }

  lemma Grow(v: seq<bv8>, d: bv8, w: seq<bv8>, c: bv64, next: bv64)
    requires w == v + [d] && PolyMod(v) == c && Xor(Next(c), Wide(d)) == next
    ensures PolyMod(w) == next
  {
    PolyModSnoc(v, d);
  }

  /** The remainder of a prefix alone can be 1. */
  lemma PrefixVerifies()
    ensures PolyMod([1, 14, 21, 20, 2, 20, 21, 14, 1, 0]) == 1
  {
    hide PolyMod;
    PolyModNone();
    Grow([], 1, [1], 0x00_0000_0001, 0x00_0000_0021);
    Grow([1], 14, [1, 14], 0x00_0000_0021, 0x00_0000_042e);
    Grow([1, 14], 21, [1, 14, 21], 0x00_0000_042e, 0x00_0000_85d5);
    Grow([1, 14, 21], 20, [1, 14, 21, 20], 0x00_0000_85d5, 0x00_0010_bab4);
    Grow([1, 14, 21, 20], 2, [1, 14, 21, 20, 2], 0x00_0010_bab4, 0x00_0217_5682);
    Grow([1, 14, 21, 20, 2], 20, [1, 14, 21, 20, 2, 20], 0x00_0217_5682, 0x00_42ea_d054);
    Grow([1, 14, 21, 20, 2, 20], 21, [1, 14, 21, 20, 2, 20, 21], 0x00_42ea_d054, 0x08_5d5a_0a95);
    Grow([1, 14, 21, 20, 2, 20, 21], 14, [1, 14, 21, 20, 2, 20, 21, 14], 0x08_5d5a_0a95, 0x93_59fd_dccf);
    Grow([1, 14, 21, 20, 2, 20, 21, 14], 1, [1, 14, 21, 20, 2, 20, 21, 14, 1], 0x93_59fd_dccf, 0x0c_c795_e473);
    Grow([1, 14, 21, 20, 2, 20, 21, 14, 1], 0, [1, 14, 21, 20, 2, 20, 21, 14, 1, 0], 0x0c_c795_e473, 0x00_0000_0001);
  }

  lemma PolyModNone()
    ensures PolyMod([]) == 1
  {
  }

  /** There is such a text: a prefix, a separator and nothing else. */
  lemma EmptyPayload(standard: string)
    ensures Decoded("anutbtuna:", standard) == Undefined
  {
    hide PolyMod, WellShaped, Colon, ExpandPrefix;
    var p := "anutbtuna";
    EncodedShape(p, []);
    assert p + ":" + Chars([]) == "anutbtuna:";
    PrefixExpands();
    PrefixVerifies();
    assert ExpandPrefix(p) + Values("") == ExpandPrefix(p);
  }

  lemma PrefixExpands()
    ensures ExpandPrefix("anutbtuna") == [1, 14, 21, 20, 2, 20, 21, 14, 1, 0]
  {
  }

  lemma GrowAt(v: seq<bv8>, k: nat, c: bv64, next: bv64)
    requires k < |v| && PolyMod(v[..k]) == c && Xor(Next(c), Wide(v[k])) == next
    ensures PolyMod(v[..k + 1]) == next
  {
    hide PolyMod;
    assert v[..k + 1] == v[..k] + [v[k]];
    Grow(v[..k], v[k], v[..k + 1], c, next);
  }

  /** The first of the address vectors: no data, and the checksum of the prefix alone. */
  lemma VectorDecodes(standard: string)
    ensures Decoded("prefix:x64nx6hz", standard) == Accepted("prefix", [])
  {
    hide PolyMod, WellShaped, Colon, ExpandPrefix, CharOf, ValueOf;
    var p, v := "prefix", [6, 26, 21, 19, 6, 26, 23, 2];
    VectorChars();
    EncodedShape(p, v);
    assert p + ":" + Chars(v) == "prefix:x64nx6hz";
    ValuesOfChars(v);
    VectorVerifies();
    assert Values(Chars(v))[..0] == [];
  }

  lemma VectorChars()
    ensures Fives([6, 26, 21, 19, 6, 26, 23, 2]) && Chars([6, 26, 21, 19, 6, 26, 23, 2]) == "x64nx6hz"
    ensures ExpandPrefix("prefix") == [16, 18, 5, 6, 9, 24, 0]
  {
  }

  /** The prefix, the separator and the payload of the vector. */
  const VECTOR: seq<bv8> := [16, 18, 5, 6, 9, 24, 0, 6, 26, 21, 19, 6, 26, 23, 2]

  lemma VectorStart()
    ensures PolyMod(VECTOR[..8]) == 0x1c_78d8_6e67
  {
    hide PolyMod;
    PolyModNone();
    assert VECTOR[..0] == [];
    GrowAt(VECTOR, 0, 0x00_0000_0001, 0x00_0000_0030);
    GrowAt(VECTOR, 1, 0x00_0000_0030, 0x00_0000_0612);
    GrowAt(VECTOR, 2, 0x00_0000_0612, 0x00_0000_c245);
    GrowAt(VECTOR, 3, 0x00_0000_c245, 0x00_0018_48a6);
    GrowAt(VECTOR, 4, 0x00_0018_48a6, 0x00_0309_14c9);
    GrowAt(VECTOR, 5, 0x00_0309_14c9, 0x00_6122_9938);
    GrowAt(VECTOR, 6, 0x00_6122_9938, 0x0c_2453_2700);
    GrowAt(VECTOR, 7, 0x0c_2453_2700, 0x1c_78d8_6e67);
  }

  lemma VectorMiddle()
    ensures PolyMod(VECTOR[..12]) == 0xb6_722b_db6d
  {
    hide PolyMod;
    VectorStart();
    GrowAt(VECTOR, 8, 0x1c_78d8_6e67, 0x6e_5edc_db79);
    GrowAt(VECTOR, 9, 0x6e_5edc_db79, 0x0e_39d3_b038);
    GrowAt(VECTOR, 10, 0x0e_39d3_b038, 0x5f_c8ca_8972);
    GrowAt(VECTOR, 11, 0x5f_c8ca_8972, 0xb6_722b_db6d);
  }

  lemma VectorEnd()
    ensures PolyMod(VECTOR[..15]) == 1
  {
    hide PolyMod;
    VectorMiddle();
    GrowAt(VECTOR, 12, 0xb6_722b_db6d, 0x5a_830a_a3ec);
    GrowAt(VECTOR, 13, 0x5a_830a_a3ec, 0x1f_0a2e_88bc);
    GrowAt(VECTOR, 14, 0x1f_0a2e_88bc, 0x00_0000_0001);
  }

  lemma VectorVerifies()
    ensures PolyMod([16, 18, 5, 6, 9, 24, 0] + [6, 26, 21, 19, 6, 26, 23, 2]) == 1
  {
    hide PolyMod;
    VectorEnd();
    assert [16, 18, 5, 6, 9, 24, 0] + [6, 26, 21, 19, 6, 26, 23, 2] == VECTOR == VECTOR[..15];
  }

  // --- The loops ---

  method Encode(prefix: string, v: seq<bv8>) returns (s: string)
    requires Fives(v)
    ensures s == Encoded(prefix, v)
  {
    hide CharOf, Checksum, ExpandPrefix;
    var checksum := CreateChecksum(ExpandPrefix(prefix) + v);
    ChecksumFives(ExpandPrefix(prefix) + v);
    var combined := v + checksum;
    s := prefix + ":";
    var i := 0;
    while i < |combined|
      invariant 0 <= i <= |combined|
      invariant s == prefix + ":" + Chars(combined)[..i]
    {
      s := s + [CharOf(combined[i])];
      i := i + 1;
    }
  }

  /** What the scan knows of the characters before i. */
  ghost predicate Scanned(s: string, i: nat, lower: bool, upper: bool, number: bool, size: nat)
    requires i <= |s|
  {
    && (forall j :: 0 <= j < i ==> Allowed(s[j]))
    && (lower <==> exists j :: 0 <= j < i && IsLower(s[j]))
    && (upper <==> exists j :: 0 <= j < i && IsUpper(s[j]))
    && (number <==> exists j :: 0 <= j < i && IsDigit(s[j]))
    && (size == 0 ==> forall j :: 0 <= j < i ==> s[j] != ':')
    && (size > 0 ==> size < i && s[size] == ':')
    && (size > 0 ==> forall j :: 0 <= j < i && s[j] == ':' ==> j == size)
    && (size > 0 ==> forall j :: 0 <= j < size ==> !IsDigit(s[j]))
  }

  /** A separator that comes first, after a digit or after another one spoils the text. */
  lemma BadSeparator(s: string, i: nat, lower: bool, upper: bool, number: bool, size: nat)
    requires i < |s| && s[i] == ':' && Scanned(s, i, lower, upper, number, size)
    requires number || i == 0 || size != 0
    ensures !WellShaped(s)
  {
  }

  lemma ScanDone(s: string, lower: bool, upper: bool, number: bool, size: nat)
    requires Scanned(s, |s|, lower, upper, number, size)
    ensures WellShaped(s) <==> !(upper && lower)
    ensures size == if Colon(s) < 0 then 0 else Colon(s)
  {
    if size > 0 { ColonIs(s, size); }
  }

  /** The sanity checks, and the length of the prefix or zero. */
  method Scan(s: string) returns (ok: bool, size: nat)
    ensures ok <==> WellShaped(s)
    ensures ok ==> size == if Colon(s) < 0 then 0 else Colon(s)
  {
    hide WellShaped;
    var lower, upper, number := false, false, false;
    size := 0;
    var i := 0;
    while i < |s|
      invariant 0 <= i <= |s|
      invariant Scanned(s, i, lower, upper, number, size)
    {
      var c := s[i];
      if 'a' <= c <= 'z' {
        lower := true;
      } else if 'A' <= c <= 'Z' {
        upper := true;
      } else if '0' <= c <= '9' {
        number := true;
      } else if c == ':' {
        if number || i == 0 || size != 0 {
          BadSeparator(s, i, lower, upper, number, size);
          return false, 0;
        }
        size := i;
      } else {
        Unexpected(s, i);
        return false, 0;
      }
      i := i + 1;
    }
    ScanDone(s, lower, upper, number, size);
    ok := !(upper && lower);
  }

  lemma Unexpected(s: string, i: nat)
    requires i < |s| && !Allowed(s[i])
    ensures !WellShaped(s)
  {
  }

  /** The values of the characters, or failure at one outside the set. */
  method ReadValues(s: string) returns (ok: bool, v: seq<bv8>)
    ensures ok <==> AllValues(s)
    ensures ok ==> v == Values(s)
  {
    hide ValueOf;
    v := [];
    var i := 0;
    while i < |s|
      invariant 0 <= i <= |s|
      invariant |v| == i && forall j :: 0 <= j < i ==> ValueOf(s[j]) == Some(v[j])
    {
      var d := ValueOf(s[i]);
      if d == None {
        return false, [];
      }
      v := v + [d.value];
      i := i + 1;
    }
    ok := true;
  }

  method Decode(s: string, standard: string) returns (r: Outcome)
    ensures r == Decoded(s, standard)
  {
    hide ValueOf, WellShaped, Colon, PolyMod, ExpandPrefix;
    var ok, size := Scan(s);
    if !ok {
      return Refused;
    }
    assert Colon(s) != 0 by { NotFirst(s); }
    var prefix := standard;
    if size != 0 {
      prefix := Lowered(s[..size]);
      size := size + 1;
    }
    assert s[size..] == Payload(s);
    var good, values := ReadValues(s[size..]);
    if !good {
      return Refused;
    }
    var c := PolyModLoop(ExpandPrefix(prefix) + values);
    if c != 1 {
      return Refused;
    }
    if |values| < 8 {
      return Undefined;
    }
    return Accepted(prefix, values[..|values| - 8]);
  }

  lemma NotFirst(s: string)
    requires WellShaped(s)
    ensures Colon(s) != 0
  {
  }
}
