/** Google Reader item identifiers (internal/googlereader/item.go). Strings hold one char per
    byte; fmt.Sscanf with %016x skips leading ASCII white space and reads at most 16 characters. */
module ItemIds {
  import opened Common
  import opened Numerals

  const PREFIX := "tag:google.com,2005:reader/item/"

  datatype ParseError = InvalidItemID

  // ----- The code -----

  /** fmt.Sprintf("%016x", id) of an id that is not negative, as ids of a bigserial column are. */
  function Hex16(id: nat): string { Pad(Print(id, 16), 16) }

  /** convertEntryIDToLongFormItemID */
  function LongForm(id: nat): string { PREFIX + Hex16(id) }

  /** strconv.FormatInt(id, 10) of an id that is not negative. */
  function Decimal(id: nat): string { Print(id, 10) }

  predicate IsBlank(c: char) { c == ' ' || c == '\t' || c == '\r' || c == 11 as char || c == 12 as char }

  /** Leading white space; a line feed is an error. */
  function SkipBlanks(s: string): Option<string> {
    if s == [] then Some([])
    else if s[0] == '\n' then None
    else if IsBlank(s[0]) then SkipBlanks(s[1..])
    else Some(s)
  }

  /** The longest prefix of hexadecimal digits. */
  function HexPrefix(s: string): string {
    if s != [] && DigitValue(s[0]) < 16 then [s[0]] + HexPrefix(s[1..]) else []
  }

  /** fmt.Sscanf(s, "%016x", &itemID): what follows the number is ignored. */
  function ScanHex16(s: string): Option<int> {
    match SkipBlanks(s)
    case None => None
    case Some(t) => ScanField(t[..Min(16, |t|)])
  }

  /** An optional sign and at least one digit. */
  function ScanField(field: string): Option<int> {
    var signed := field != [] && (field[0] == '-' || field[0] == '+');
    var sign := if signed then field[..1] else [];
    var digits := HexPrefix(if signed then field[1..] else field);
    if digits == [] then None else ParseInt64(sign + digits, 16)
  }

  function ParseItemID(s: string): Result<int, ParseError> {
    if PREFIX <= s then
      match ScanHex16(s[|PREFIX|..])
      case None => Err(InvalidItemID)
      case Some(id) => if id == 0 then Err(InvalidItemID) else Ok(id)
    else if |s| == 16 && ScanHex16(s).Some? then Ok(ScanHex16(s).value)
    else
      match ParseInt64(s, 10)
      case None => Err(InvalidItemID)
      case Some(id) => Ok(id)
  }

  /** parseItemIDsFromRequest: all items or none. */
  method ParseItemIDs(items: seq<string>) returns (r: Result<seq<int>, ParseError>)
    ensures r.Ok? <==> items != [] && forall i :: 0 <= i < |items| ==> ParseItemID(items[i]).Ok?
    ensures r.Ok? ==> |r.value| == |items| && forall i :: 0 <= i < |items| ==> ParseItemID(items[i]) == Ok(r.value[i])
  {
    if |items| == 0 {
      return Err(InvalidItemID);
    }
    var ids := seq(|items|, _ => 0);
    var i := 0;
    while i < |items|
      invariant 0 <= i <= |items| == |ids|
      invariant forall j :: 0 <= j < i ==> ParseItemID(items[j]) == Ok(ids[j])
    {
      var id := ParseItemID(items[i]);
      if id.Err? {
        return Err(InvalidItemID);
      }
      ids := ids[i := id.value];
      i := i + 1;
    }
    r := Ok(ids);
  }

  // ----- Round trips -----

  lemma {:induction false} HexPrefixOfDigits(s: string)
    requires AllDigits(s, 16)
    ensures HexPrefix(s) == s
  {
    if s != [] {
      HexPrefixOfDigits(s[1..]);
    }
  }

  /** A digit is neither white space nor a sign. */
  lemma DigitStartsNumber(c: char)
    requires DigitValue(c) < 16
    ensures !IsBlank(c) && c != '\n' && c != '-' && c != '+'
  {
  }

  lemma {:induction false} ParseDigits(s: string, base: nat)
    requires IsBase(base) && s != [] && AllDigits(s, base)
    ensures ParseInt64(s, base) == if Value(s, base) <= INT64_MAX then Some(Value(s, base)) else None
  {
    DigitStartsNumber(s[0]);
  }

  /** Scanning up to 16 hexadecimal digits reads their value, if it fits into 64 bits. */
  lemma {:induction false} ScanDigits(s: string)
    requires s != [] && |s| <= 16 && AllDigits(s, 16)
    ensures ScanHex16(s) == if Value(s, 16) <= INT64_MAX then Some(Value(s, 16)) else None
  {
    DigitStartsNumber(s[0]);
    assert SkipBlanks(s) == Some(s);
    assert s[..|s|] == s;
    ScanDigitField(s);
  }

  lemma {:induction false} ScanDigitField(s: string)
    requires s != [] && AllDigits(s, 16)
    ensures ScanField(s) == if Value(s, 16) <= INT64_MAX then Some(Value(s, 16)) else None
  {
    DigitStartsNumber(s[0]);
    HexPrefixOfDigits(s);
    assert [] + s == s;
    ParseDigits(s, 16);
  }

  lemma {:induction false} PadKeepsValue(s: string, width: nat)
    requires AllDigits(s, 16)
    ensures AllDigits(Pad(s, width), 16) && Value(Pad(s, width), 16) == Value(s, 16)
    ensures |Pad(s, width)| == Max(width, |s|)
  {
    if |s| < width {
      ValueOfZeros(width - |s|, s, 16);
    }
  }

  lemma {:induction false} PaddedDigits(n: nat, width: nat)
    requires width > 0
    ensures AllDigits(Pad(Print(n, 16), width), 16) && Value(Pad(Print(n, 16), width), 16) == n
    ensures |Pad(Print(n, 16), width)| == Max(width, |Print(n, 16)|)
  {
    ValueOfPrint(n, 16);
    PadKeepsValue(Print(n, 16), width);
  }

  lemma PowersOf16()
    ensures Pow(16, 15) == 0x1000_0000_0000_0000 && Pow(16, 16) == 0x1_0000_0000_0000_0000
  {
    assert Pow(16, 4) == 0x1_0000 by { assert Pow(16, 2) == 0x100; }
    assert Pow(16, 8) == 0x1_0000_0000 by { assert Pow(16, 6) == 0x100_0000; }
    assert Pow(16, 12) == 0x1_0000_0000_0000 by { assert Pow(16, 10) == 0x100_0000_0000; }
    assert Pow(16, 14) == 0x100_0000_0000_0000;
  }

  lemma ParsePrefixed(t: string)
    ensures ParseItemID(PREFIX + t)
         == if ScanHex16(t).None? || ScanHex16(t) == Some(0) then Err(InvalidItemID) else Ok(ScanHex16(t).value)
  {
    assert (PREFIX + t)[|PREFIX|..] == t && PREFIX <= PREFIX + t;
  }

  lemma {:induction false} ScanPrinted(id: nat)
    requires id <= INT64_MAX
    ensures ScanHex16(Hex16(id)) == Some(id) && |Hex16(id)| == 16
    ensures ScanHex16(Print(id, 16)) == Some(id)
  {
    PowersOf16();
    PrintLength(id, 16, 16);
    PaddedDigits(id, 16);
    ScanDigits(Hex16(id));
    ValueOfPrint(id, 16);
    ScanDigits(Print(id, 16));
  }

  /** The long form reads back for every positive 64-bit id, as promised; zero is refused. */
  lemma LongFormRoundTripsExactlyWhen(id: nat)
    requires id <= 0x7FFF_FFFF_FFFF_FFFF
    ensures ParseItemID(LongForm(id)) == Ok(id) <==> id > 0
  {
    ScanPrinted(id);
    ParsePrefixed(Hex16(id));
  }

  /** The other hexadecimal spellings that clients send: unpadded with the prefix, and padded
      without it. */
  lemma {:induction false} ShortHexFormsRoundTrip(id: nat)
    requires 0 < id <= 0x7FFF_FFFF_FFFF_FFFF
    ensures ParseItemID(PREFIX + Print(id, 16)) == Ok(id)
    ensures ParseItemID(Hex16(id)) == Ok(id)
  {
    ParsePrefixed(Print(id, 16));
    ScanPrinted(id);
    PaddedDigits(id, 16);
    DigitStartsNumber(Hex16(id)[0]);
    NotPrefixed(Hex16(id));
  }

  /** What the long form looks like: the prefix, then sixteen digits, small letters among them. */
  lemma {:induction false} LongFormShape(id: nat)
    requires id <= 0x7FFF_FFFF_FFFF_FFFF
    ensures |LongForm(id)| == 48 && "tag:google.com,2005:reader/item/" <= LongForm(id)
    ensures forall i :: 32 <= i < 48 ==> '0' <= LongForm(id)[i] <= '9' || 'a' <= LongForm(id)[i] <= 'f'
    ensures AllDigits(LongForm(id)[32..], 16) && Value(LongForm(id)[32..], 16) == id
  {
    ScanPrinted(id);
    PaddedDigits(id, 16);
    PrintedSmall(id);
    assert LongForm(id)[32..] == Hex16(id);
    forall i | 32 <= i < 48 ensures LongForm(id)[i] == Hex16(id)[i - 32] {
    }
  }

  predicate IsSmallDigit(c: char) { '0' <= c <= '9' || 'a' <= c <= 'f' }

  lemma {:induction false} PrintedSmall(n: nat)
    ensures forall i :: 0 <= i < |Print(n, 16)| ==> IsSmallDigit(Print(n, 16)[i])
    ensures forall i :: 0 <= i < |Hex16(n)| ==> IsSmallDigit(Hex16(n)[i])
  {
    if n >= 16 {
      PrintedSmall(Quotient(n, 16));
    }
  }

  /** Blanks before the number are passed over, but not a line feed; what follows the sixteenth
      digit is ignored. */
  lemma {:induction false} BlanksAndTail(id: nat, blank: char, tail: string)
    requires 0 < id <= 0x7FFF_FFFF_FFFF_FFFF
    requires blank == ' ' || blank == '\t' || blank == '\r' || blank == 11 as char || blank == 12 as char
    ensures ParseItemID(PREFIX + ([blank] + (Hex16(id) + tail))) == Ok(id)
    ensures ParseItemID(PREFIX + ("\n" + Hex16(id))) == Err(InvalidItemID)
  {
    var s := Hex16(id) + tail;
    ScanPrinted(id);
    PaddedDigits(id, 16);
    DigitStartsNumber(Hex16(id)[0]);
    assert s[0] == Hex16(id)[0] && s[..16] == Hex16(id);
    assert Hex16(id)[..16] == Hex16(id) && SkipBlanks(Hex16(id)) == Some(Hex16(id));
    assert ([blank] + s)[1..] == s && SkipBlanks(s) == Some(s) && SkipBlanks([blank] + s) == Some(s);
    assert ScanHex16([blank] + s) == ScanHex16(Hex16(id));
    ParsePrefixed([blank] + s);
    ParsePrefixed("\n" + Hex16(id));
  }

  /** A sign is read before a hexadecimal number. */
  lemma {:induction false} SignedHexReads(sign: char, id: int, digits: string)
    requires 0 < id < 0x1000_0000_0000_0000 && (sign == '-' || sign == '+') && digits == Print(id, 16)
    ensures ParseItemID(PREFIX + ([sign] + digits)) == Ok(if sign == '-' then -id else id)
  {
    PrintedFits(id, digits);
    ScanSigned(sign, digits, id);
    ScannedIsParsed([sign] + digits, if sign == '-' then -id else id);
  }

  lemma ScannedIsParsed(t: string, id: int)
    requires ScanHex16(t) == Some(id) && id != 0
    ensures ParseItemID(PREFIX + t) == Ok(id)
  {
    ParsePrefixed(t);
  }

  lemma {:induction false} PrintedFits(id: nat, digits: string)
    requires id < 0x1000_0000_0000_0000 && digits == Print(id, 16)
    ensures digits != [] && |digits| <= 15 && AllDigits(digits, 16) && Value(digits, 16) == id <= INT64_MAX
  {
    PowersOf16();
    ValueOfPrint(id, 16);
    PrintLength(id, 16, 15);
  }

  lemma {:induction false} ScanSigned(sign: char, s: string, v: int)
    requires (sign == '-' || sign == '+') && s != [] && |s| <= 15 && AllDigits(s, 16) && Value(s, 16) == v <= INT64_MAX
    ensures ScanHex16([sign] + s) == Some(if sign == '-' then -v else v)
  {
    var t := [sign] + s;
    assert t[0] == sign && t[..1] == [sign] && t[1..] == s && t[..|t|] == t;
    assert SkipBlanks(t) == Some(t);
    HexPrefixOfDigits(s);
    assert ScanHex16(t) == ParseInt64(t, 16);
  }

  /** A negative decimal number of other than sixteen characters reads back exactly within 64
      bits. */
  lemma {:induction false} NegativeDecimalReadsExactlyWhen(id: int, digits: string)
    requires id > 0 && digits == Decimal(id) && |digits| != 15
    ensures ParseItemID(['-'] + digits) == Ok(-id) <==> id <= 0x8000_0000_0000_0000
  {
    ValueOfPrint(id, 10);
    ParseNegative(digits, id);
    NoPrefixOfMinus(['-'] + digits);
  }

  lemma {:induction false} ParseNegative(s: string, v: int)
    requires s != [] && AllDigits(s, 10) && Value(s, 10) == v
    ensures ParseInt64(['-'] + s, 10) == if v <= 0x8000_0000_0000_0000 then Some(-v) else None
  {
    var t := ['-'] + s;
    assert t[0] == '-' && t[1..] == s;
  }

  lemma NoPrefixOfMinus(s: string)
    requires s != [] && s[0] == '-' && |s| != 16
    ensures ParseItemID(s) == if ParseInt64(s, 10).None? then Err(InvalidItemID) else Ok(ParseInt64(s, 10).value)
  {
    assert PREFIX[0] == 't';
  }

  lemma NotPrefixed(s: string)
    requires s != [] && DigitValue(s[0]) < 16
    ensures !(PREFIX <= s)
  {
    assert PREFIX[0] == 't';
  }

  lemma PowersOf10()
    ensures Pow(10, 15) == 1_000_000_000_000_000 && Pow(10, 16) == 10_000_000_000_000_000
  {
    assert Pow(10, 4) == 1_0000 by { assert Pow(10, 2) == 100; }
    assert Pow(10, 8) == 1_0000_0000 by { assert Pow(10, 6) == 100_0000; }
    assert Pow(10, 12) == 1_0000_0000_0000 by { assert Pow(10, 10) == 100_0000_0000; }
    assert Pow(10, 14) == 100_0000_0000_0000;
  }

  /** Sixteen decimal digits mean more when read as hexadecimal ones. */
  lemma {:induction false} HexReadsMore(s: string)
    requires s != [] && AllDigits(s, 10)
    ensures AllDigits(s, 16) && Value(s, 16) >= Value(s, 10)
    ensures |s| > 1 && DigitValue(s[0]) > 0 ==> Value(s, 16) > Value(s, 10)
  {
    var init := s[..|s| - 1];
    if init != [] {
      HexReadsMore(init);
      if DigitValue(s[0]) > 0 && |init| == 1 {
        assert init[..0] == [] && Value(init, 10) == DigitValue(s[0]);
      }
      if DigitValue(s[0]) > 0 && |init| > 1 {
        assert Value(init, 16) > Value(init, 10);
      }
    }
  }

  /** The decimal form reads back exactly unless it has 16 characters and starts with a digit
      below 8: then it is taken for a hexadecimal number. From 8 on the hexadecimal reading
      overflows 64 bits and the code falls back to the decimal one. */
  lemma DecimalRoundTripsExactlyWhen(id: nat)
    ensures ParseItemID(Decimal(id)) == Ok(id) <==>
            id <= 0x7FFF_FFFF_FFFF_FFFF && !(|Decimal(id)| == 16 && id < 8_000_000_000_000_000)
  {
    var s := Decimal(id);
    ValueOfPrint(id, 10);
    NotPrefixed(s);
    ParseDigits(s, 10);
    if |s| == 16 {
      SixteenDecimalDigits(id, s);
    }
  }

  lemma {:induction false} SixteenDecimalDigits(id: nat, s: string)
    requires |s| == 16 && AllDigits(s, 10) && Value(s, 10) == id && DigitValue(s[0]) > 0
    ensures ScanHex16(s).None? || ScanHex16(s).value > id
    ensures ScanHex16(s).None? <==> id >= 8_000_000_000_000_000
  {
    HexReadsMore(s);
    ScanDigits(s);
    FirstOfSixteen(s);
  }

  lemma {:induction false} FirstOfSixteen(s: string)
    requires |s| == 16 && AllDigits(s, 10) && AllDigits(s, 16)
    ensures Value(s, 16) < 0x8000_0000_0000_0000 <==> DigitValue(s[0]) < 8
    ensures Value(s, 10) < 8_000_000_000_000_000 <==> DigitValue(s[0]) < 8
  {
    PowersOf10();
    PowersOf16();
    ValueOfFirst(s, 16);
    ValueOfFirst(s, 10);
    ValueIsBounded(s[1..], 16);
    ValueIsBounded(s[1..], 10);
    LeadingDigit(DigitValue(s[0]), Pow(16, 15), Value(s[1..], 16));
    LeadingDigit(DigitValue(s[0]), Pow(10, 15), Value(s[1..], 10));
  }

  lemma LeadingDigit(d: nat, p: nat, r: nat)
    requires r < p
    ensures d * p + r < 8 * p <==> d < 8
  {
    MulMonotone(d + 1, 8, p);
    MulMonotone(8, d, p);
  }

  lemma MulMonotone(a: nat, b: nat, c: nat)
    ensures a <= b ==> a * c <= b * c
  {
  }
}
