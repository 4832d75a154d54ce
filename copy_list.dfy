/**
  The stored copy-region list of a dungeon record ("3970,3971,3972") and the
  three library steps the manager applies to it: String.Split(','),
  String.Trim() on every part, and Convert.ToUInt16 on every trimmed part.
 */
module CopyList {
  import opened Wrappers
  import opened Numerics

  /** Inverse of Split: the parts glued back together with the separator. */
  function Join(parts: seq<string>, sep: char): string
    requires |parts| >= 1
  {
    if |parts| == 1 then parts[0] else parts[0] + [sep] + Join(parts[1..], sep)
  }

  /**
    String.Split(sep) with a single separator character and no options: the
    maximal separator-free runs between separators, empty ones included, so
    there is always one part more than there are separators.
   */
  function Split(s: string, sep: char): (parts: seq<string>)
    ensures |parts| >= 1
    ensures Join(parts, sep) == s
    ensures forall i :: 0 <= i < |parts| ==> sep !in parts[i]
    decreases |s|
  {
    if |s| == 0 then [""]
    else
      var rest := Split(s[1..], sep);
      if s[0] == sep then
        assert ([""] + rest)[1..] == rest;
        [""] + rest
      else
        var parts := [[s[0]] + rest[0]] + rest[1..];
        assert parts[1..] == rest[1..];
        assert |rest| > 1 ==> Join(rest, sep) == rest[0] + [sep] + Join(rest[1..], sep);
        assert s == [s[0]] + s[1..];
        parts
  }

  /** A separator-free list of parts is recovered from its join. */
  lemma {:induction false} JoinInjective(ps: seq<string>, qs: seq<string>, sep: char)
    requires |ps| >= 1 && |qs| >= 1
    requires forall i :: 0 <= i < |ps| ==> sep !in ps[i]
    requires forall i :: 0 <= i < |qs| ==> sep !in qs[i]
    requires Join(ps, sep) == Join(qs, sep)
    ensures ps == qs
    decreases |ps|
  {
    var j := Join(ps, sep);
    if |ps| > 1 && |qs| > 1 {
      JoinFirstSeparator(ps, sep);
      JoinFirstSeparator(qs, sep);
      assert |ps[0]| == |qs[0]|;
      assert ps[0] == j[..|ps[0]|] == qs[0];
      var n := |ps[0]| + 1;
      assert Join(ps[1..], sep) == j[n..] == Join(qs[1..], sep);
      JoinInjective(ps[1..], qs[1..], sep);
      assert ps == [ps[0]] + ps[1..];
      assert qs == [qs[0]] + qs[1..];
    }
  }

  /** In a join, the first part ends at the first separator. */
  lemma JoinFirstSeparator(ps: seq<string>, sep: char)
    requires |ps| > 1 && sep !in ps[0]
    ensures |ps[0]| < |Join(ps, sep)| && Join(ps, sep)[|ps[0]|] == sep
    ensures forall k :: 0 <= k < |ps[0]| ==> Join(ps, sep)[k] != sep
  {
    var j := Join(ps, sep);
    assert j == ps[0] + [sep] + Join(ps[1..], sep);
    forall k | 0 <= k < |ps[0]| ensures j[k] != sep {
      assert j[k] == ps[0][k];
    }
  }

  /** Splitting a join of separator-free parts gives the parts back. */
  lemma SplitJoin(parts: seq<string>, sep: char)
    requires |parts| >= 1
    requires forall i :: 0 <= i < |parts| ==> sep !in parts[i]
    ensures Split(Join(parts, sep), sep) == parts
  {
    JoinInjective(Split(Join(parts, sep), sep), parts, sep);
  }

  /** Char.IsWhiteSpace: the Unicode separators plus U+0009..U+000D and U+0085. */
  predicate IsWhiteSpace(c: char) {
    || ('\U{0009}' <= c <= '\U{000D}') || c == '\U{0020}' || c == '\U{0085}' || c == '\U{00A0}'
    || c == '\U{1680}' || ('\U{2000}' <= c <= '\U{200A}') || c == '\U{2028}' || c == '\U{2029}'
    || c == '\U{202F}' || c == '\U{205F}' || c == '\U{3000}'
  }

  /** String.TrimStart(). */
  function TrimStart(s: string): string {
    if s != [] && IsWhiteSpace(s[0]) then TrimStart(s[1..]) else s
  }

  /** String.TrimEnd(). */
  function TrimEnd(s: string): string {
    if s != [] && IsWhiteSpace(s[|s| - 1]) then TrimEnd(s[..|s| - 1]) else s
  }

  /** String.Trim(). */
  function Trim(s: string): string {
    TrimEnd(TrimStart(s))
  }

  /** TrimStart drops a prefix of white space, and what is left does not start with white space. */
  lemma {:induction false} TrimStartDropsLeadingWhiteSpace(s: string)
    ensures var r := TrimStart(s);
            && |r| <= |s| && r == s[|s| - |r|..]
            && (forall i :: 0 <= i < |s| - |r| ==> IsWhiteSpace(s[i]))
            && (r != [] ==> !IsWhiteSpace(r[0]))
    decreases |s|
  {
    if s != [] && IsWhiteSpace(s[0]) {
      TrimStartDropsLeadingWhiteSpace(s[1..]);
      assert forall i :: 1 <= i < |s| ==> s[i] == s[1..][i - 1];
    }
  }

  /** TrimEnd drops a suffix of white space, and what is left does not end with white space. */
  lemma {:induction false} TrimEndDropsTrailingWhiteSpace(s: string)
    ensures var r := TrimEnd(s);
            && |r| <= |s| && r == s[..|r|]
            && (forall i :: |r| <= i < |s| ==> IsWhiteSpace(s[i]))
            && (r != [] ==> !IsWhiteSpace(r[|r| - 1]))
    decreases |s|
  {
    if s != [] && IsWhiteSpace(s[|s| - 1]) {
      TrimEndDropsTrailingWhiteSpace(s[..|s| - 1]);
      assert forall i :: 0 <= i < |s| - 1 ==> s[i] == s[..|s| - 1][i];
    }
  }

  /** A part without white space is left as it is. */
  lemma TrimWithoutWhiteSpace(s: string)
    requires forall i :: 0 <= i < |s| ==> !IsWhiteSpace(s[i])
    ensures Trim(s) == s
  {
    TrimStartDropsLeadingWhiteSpace(s);
    TrimEndDropsTrailingWhiteSpace(TrimStart(s));
  }

  predicate IsDigit(c: char) {
    '0' <= c <= '9'
  }

  predicate AllDigits(s: string) {
    forall i :: 0 <= i < |s| ==> IsDigit(s[i])
  }

  function DigitValue(c: char): nat
    requires IsDigit(c)
  {
    c as int - '0' as int
  }

  function DigitChar(d: nat): (c: char)
    requires d < 10
    ensures IsDigit(c) && DigitValue(c) == d
  {
    ('0' as int + d) as char
  }

  /** The value of a run of decimal digits, most significant first. */
  function DigitsValue(s: string): nat
    requires AllDigits(s)
  {
    if s == [] then 0 else DigitsValue(s[..|s| - 1]) * 10 + DigitValue(s[|s| - 1])
  }

  /** The white space the number parser skips around a number: tab through carriage return, and space. */
  predicate IsNumberWhite(c: char) {
    c == ' ' || '\t' <= c <= '\r'
  }

  /** The number parser ignores a run of NUL characters at the very end of the text. */
  function DropTrailingNuls(s: string): string {
    if s != [] && s[|s| - 1] == '\0' then DropTrailingNuls(s[..|s| - 1]) else s
  }

  function DropLeadingNumberWhite(s: string): string {
    if s != [] && IsNumberWhite(s[0]) then DropLeadingNumberWhite(s[1..]) else s
  }

  function DropTrailingNumberWhite(s: string): string {
    if s != [] && IsNumberWhite(s[|s| - 1]) then DropTrailingNumberWhite(s[..|s| - 1]) else s
  }

  /**
    Convert.ToUInt16(string) with the invariant culture (NumberStyles.Integer):
    optional white space, an optional '+' or '-' sign, one or more ASCII
    digits (leading zeros allowed), optional white space, and then any number
    of NUL characters, which the parser accepts at the end of the text.  No
    white space may come between the sign and the digits.  An empty or
    non-numeric text is a FormatException and a value above 65535 (or a
    negative one) an OverflowException; both are None here.  "-0" parses as 0.
   */
  function ParseUInt16(s: string): Option<uint16> {
    ParseSigned(StripNumber(s))
  }

  /** The text left once the white space and NULs around a number are removed. */
  function StripNumber(s: string): string {
    DropLeadingNumberWhite(DropTrailingNumberWhite(DropTrailingNuls(s)))
  }

  /** An optional sign followed by digits, the value of which must fit a ushort. */
  function ParseSigned(core: string): Option<uint16> {
    var signed := |core| > 0 && (core[0] == '+' || core[0] == '-');
    var negative := |core| > 0 && core[0] == '-';
    var digits := if signed then core[1..] else core;
    if digits == [] || !AllDigits(digits) then None
    else
      var v := DigitsValue(digits);
      if v >= TWO_TO_THE_16 || (negative && v != 0) then None else Some(v)
  }

  /** A run of digits carries nothing the parser would strip. */
  lemma DigitsUnpadded(s: string)
    requires |s| >= 1 && AllDigits(s)
    ensures StripNumber(s) == s
  {
    assert IsDigit(s[0]) && IsDigit(s[|s| - 1]);
  }

  predicate AllNul(z: string) {
    forall i :: 0 <= i < |z| ==> z[i] == '\0'
  }

  predicate AllNumberWhite(w: string) {
    forall i :: 0 <= i < |w| ==> IsNumberWhite(w[i])
  }

  /**
    The shape of a text Convert.ToUInt16 accepts, split into its pieces: white
    space, a sign ("", "+" or "-"), digits of value `v` (only 0 after a '-'),
    white space, and NULs.
   */
  predicate NumberText(s: string, lead: string, sign: string, digits: string, trail: string, nuls: string, v: nat) {
    && s == lead + (sign + digits) + trail + nuls
    && AllNumberWhite(lead) && AllNumberWhite(trail) && AllNul(nuls)
    && (sign == "" || sign == "+" || sign == "-")
    && |digits| >= 1 && AllDigits(digits) && DigitsValue(digits) == v
    && (sign == "-" ==> v == 0)
  }

  /** DropTrailingNuls removes exactly the NULs at the end. */
  lemma {:induction false} DropTrailingNulsSplits(s: string)
    ensures var r := DropTrailingNuls(s);
            && |r| <= |s| && s == r + s[|r|..] && AllNul(s[|r|..])
            && (r == [] || r[|r| - 1] != '\0')
    decreases |s|
  {
    if s != [] && s[|s| - 1] == '\0' {
      DropTrailingNulsSplits(s[..|s| - 1]);
      assert forall i :: 0 <= i < |s| - 1 ==> s[i] == s[..|s| - 1][i];
    }
  }

  /** DropTrailingNumberWhite removes exactly the number white space at the end. */
  lemma {:induction false} DropTrailingWhiteSplits(s: string)
    ensures var r := DropTrailingNumberWhite(s);
            && |r| <= |s| && s == r + s[|r|..] && AllNumberWhite(s[|r|..])
            && (r == [] || !IsNumberWhite(r[|r| - 1]))
    decreases |s|
  {
    if s != [] && IsNumberWhite(s[|s| - 1]) {
      DropTrailingWhiteSplits(s[..|s| - 1]);
      assert forall i :: 0 <= i < |s| - 1 ==> s[i] == s[..|s| - 1][i];
    }
  }

  /** DropLeadingNumberWhite removes exactly the number white space at the start. */
  lemma {:induction false} DropLeadingWhiteSplits(s: string)
    ensures var r := DropLeadingNumberWhite(s);
            && |r| <= |s| && s == s[..|s| - |r|] + r && AllNumberWhite(s[..|s| - |r|])
            && (r == [] || !IsNumberWhite(r[0]))
    decreases |s|
  {
    if s != [] && IsNumberWhite(s[0]) {
      DropLeadingWhiteSplits(s[1..]);
      assert forall i :: 1 <= i < |s| ==> s[i] == s[1..][i - 1];
    }
  }

  lemma {:induction false} NulsDropped(t: string, z: string)
    requires t == [] || t[|t| - 1] != '\0'
    requires AllNul(z)
    ensures DropTrailingNuls(t + z) == t
    decreases |z|
  {
    if z == [] {
      assert t + z == t;
    } else {
      var u := t + z;
      assert u[|u| - 1] == z[|z| - 1];
      assert u[..|u| - 1] == t + z[..|z| - 1];
      NulsDropped(t, z[..|z| - 1]);
    }
  }

  lemma {:induction false} TrailingWhiteDropped(t: string, w: string)
    requires t == [] || !IsNumberWhite(t[|t| - 1])
    requires AllNumberWhite(w)
    ensures DropTrailingNumberWhite(t + w) == t
    decreases |w|
  {
    if w == [] {
      assert t + w == t;
    } else {
      var u := t + w;
      assert u[|u| - 1] == w[|w| - 1];
      assert u[..|u| - 1] == t + w[..|w| - 1];
      TrailingWhiteDropped(t, w[..|w| - 1]);
    }
  }

  lemma {:induction false} LeadingWhiteDropped(a: string, t: string)
    requires AllNumberWhite(a)
    requires t == [] || !IsNumberWhite(t[0])
    ensures DropLeadingNumberWhite(a + t) == t
    decreases |a|
  {
    if a == [] {
      assert a + t == t;
    } else {
      var u := a + t;
      assert u[0] == a[0];
      assert u[1..] == a[1..] + t;
      LeadingWhiteDropped(a[1..], t);
    }
  }

  /** The pieces the conversion strips around the sign and digits. */
  lemma StrippedPieces(s: string) returns (lead: string, trail: string, nuls: string)
    ensures s == lead + StripNumber(s) + trail + nuls
    ensures AllNumberWhite(lead) && AllNumberWhite(trail) && AllNul(nuls)
  {
    var t1 := DropTrailingNuls(s);
    DropTrailingNulsSplits(s);
    var t2 := DropTrailingNumberWhite(t1);
    DropTrailingWhiteSplits(t1);
    var core := DropLeadingNumberWhite(t2);
    DropLeadingWhiteSplits(t2);
    lead, trail, nuls := t2[..|t2| - |core|], t1[|t2|..], s[|t1|..];
  }

  /** The sign and the digits of a text ParseSigned accepts. */
  lemma SignedPieces(core: string) returns (sign: string, digits: string)
    requires ParseSigned(core).Some?
    ensures core == sign + digits
    ensures sign == "" || sign == "+" || sign == "-"
    ensures |digits| >= 1 && AllDigits(digits) && DigitsValue(digits) == ParseSigned(core).value
    ensures sign == "-" ==> ParseSigned(core).value == 0
  {
    var signed := |core| > 0 && (core[0] == '+' || core[0] == '-');
    sign := if signed then core[..1] else "";
    digits := if signed then core[1..] else core;
    assert core == sign + digits;
  }

  /** Every text the conversion accepts has the number shape, with the converted value. */
  lemma ParsedTextIsNumber(s: string)
    requires ParseUInt16(s).Some?
    ensures exists lead, sign, digits, trail, nuls :: NumberText(s, lead, sign, digits, trail, nuls, ParseUInt16(s).value)
  {
    var lead, trail, nuls := StrippedPieces(s);
    var sign, digits := SignedPieces(StripNumber(s));
    assert NumberText(s, lead, sign, digits, trail, nuls, ParseUInt16(s).value);
  }

  /** Every text of the number shape whose value fits a ushort converts to that value. */
  lemma NumberTextParses(s: string, lead: string, sign: string, digits: string, trail: string, nuls: string, v: nat)
    requires NumberText(s, lead, sign, digits, trail, nuls, v) && v < TWO_TO_THE_16
    ensures ParseUInt16(s) == Some(v as uint16)
  {
    var core := sign + digits;
    var t2 := lead + core;
    var t1 := t2 + trail;
    assert t2[|t2| - 1] == digits[|digits| - 1] && IsDigit(digits[|digits| - 1]);
    if trail != [] {
      assert t1[|t1| - 1] == trail[|trail| - 1];
    }
    NulsDropped(t1, nuls);
    TrailingWhiteDropped(t2, trail);
    assert core[0] == if sign == "" then digits[0] else sign[0];
    assert IsDigit(digits[0]);
    LeadingWhiteDropped(lead, core);
    SignedDigitsParse(sign, digits, v);
  }

  lemma SignedDigitsParse(sign: string, digits: string, v: nat)
    requires sign == "" || sign == "+" || sign == "-"
    requires |digits| >= 1 && AllDigits(digits) && DigitsValue(digits) == v && v < TWO_TO_THE_16
    requires sign == "-" ==> v == 0
    ensures ParseSigned(sign + digits) == Some(v as uint16)
  {
    var core := sign + digits;
    var r := ParseSigned(core);
    if sign == "" {
      assert core == digits;
      assert IsDigit(core[0]);
      assert r == Some(v as uint16);
    } else {
      assert |core| > 0 && core[0] == sign[0] && (core[0] == '+' || core[0] == '-');
      assert core[1..] == digits;
      assert r == Some(v as uint16);
    }
  }


  /** A decimal number too large for a ushort is an OverflowException, so None. */
  lemma OverflowRejected(n: nat)
    requires n >= TWO_TO_THE_16
    ensures ParseUInt16(Decimal(n)) == None
  {
    DecimalValue(n);
    DigitsUnpadded(Decimal(n));
    assert !IsDigit('+') && !IsDigit('-');
  }

  /** NUL characters appended to a part do not change what it converts to. */
  lemma TrailingNulsIgnored(s: string, n: nat)
    requires s == [] || s[|s| - 1] != '\0'
    ensures ParseUInt16(s + seq(n, _ => '\0')) == ParseUInt16(s)
  {
    NulsDropped(s, seq(n, _ => '\0'));
  }

  /** "3970" followed by a NUL converts to 3970, though String.Trim() leaves the NUL in place. */
  lemma TrailingNulExample()
    ensures ParseUInt16("3970\0") == Some(3970)
  {
    DecimalExample();
    ParseDecimal(3970);
    TrailingNulsIgnored("3970", 1);
    assert "3970" + seq(1, _ => '\0') == "3970\0";
  }

  /** The shortest decimal spelling of a number (what ToString() writes). */
  function Decimal(n: nat): (s: string)
    ensures |s| >= 1 && AllDigits(s)
  {
    if n < 10 then [DigitChar(n)] else Decimal(n / 10) + [DigitChar(n % 10)]
  }

  lemma {:induction false} DecimalValue(n: nat)
    ensures DigitsValue(Decimal(n)) == n
  {
    if n >= 10 {
      var s := Decimal(n);
      assert s[..|s| - 1] == Decimal(n / 10);
      DecimalValue(n / 10);
    }
  }

  /** Convert.ToUInt16 reads back what ToString() wrote. */
  lemma ParseDecimal(n: uint16)
    ensures ParseUInt16(Decimal(n)) == Some(n)
  {
    DecimalValue(n);
    DigitsUnpadded(Decimal(n));
    assert !IsDigit('+') && !IsDigit('-');
  }

  lemma EmptyPartInvalid()
    ensures ParseUInt16("") == None
  {
  }

  /** Every part's conversion, in order; None marks a part Convert.ToUInt16 rejects. */
  function Conversions(parts: seq<string>): (r: seq<Option<uint16>>)
    ensures |r| == |parts|
    ensures forall i :: 0 <= i < |parts| ==> r[i] == ParseUInt16(Trim(parts[i]))
  {
    if parts == [] then [] else [ParseUInt16(Trim(parts[0]))] + Conversions(parts[1..])
  }

  /** The converted values when every conversion succeeded, or None at the first failure. */
  function AllConverted(results: seq<Option<uint16>>): (r: Option<seq<uint16>>)
    ensures r.Some? <==> forall i :: 0 <= i < |results| ==> results[i].Some?
    ensures r.Some? ==> |r.value| == |results|
    ensures r.Some? ==> forall i :: 0 <= i < |results| ==> results[i] == Some(r.value[i])
  {
    if results == [] then Some([])
    else match results[0]
      case None => None
      case Some(v) =>
        match AllConverted(results[1..])
        case None => None
        case Some(vs) => Some([v] + vs)
  }

  /** Parses every trimmed part, failing as a whole on the first bad one. */
  function ParseParts(parts: seq<string>): (r: Option<seq<uint16>>)
    ensures r.Some? <==> forall i :: 0 <= i < |parts| ==> ParseUInt16(Trim(parts[i])).Some?
    ensures r.Some? ==> |r.value| == |parts|
    ensures r.Some? ==> forall i :: 0 <= i < |parts| ==> ParseUInt16(Trim(parts[i])) == Some(r.value[i])
  {
    var results := Conversions(parts);
    assert forall i :: 0 <= i < |parts| ==> results[i] == ParseUInt16(Trim(parts[i]));
    AllConverted(results)
  }

  /** Parts that all convert determine the whole result. */
  lemma ParsePartsAllConverted(parts: seq<string>, ids: seq<uint16>)
    requires |ids| == |parts|
    requires forall i :: 0 <= i < |parts| ==> ParseUInt16(Trim(parts[i])) == Some(ids[i])
    ensures ParseParts(parts) == Some(ids)
  {
    var r := ParseParts(parts);
    assert r.Some?;
    assert forall i :: 0 <= i < |ids| ==> r.value[i] == ids[i];
    assert r.value == ids;
  }

  /** One part that does not convert makes the whole list fail. */
  lemma ParsePartsFails(parts: seq<string>, i: nat)
    requires i < |parts| && ParseUInt16(Trim(parts[i])).None?
    ensures ParseParts(parts) == None
  {
  }

  /** The copy-region list a record's string stands for, or None when Init would throw. */
  function ParseCopyList(s: string): Option<seq<uint16>> {
    ParseParts(Split(s, ','))
  }

  /** The decimal spelling of every id. */
  function DecimalParts(ids: seq<uint16>): seq<string> {
    seq(|ids|, i requires 0 <= i < |ids| => Decimal(ids[i]))
  }

  /** The stored spelling of a list of copy ids. */
  function FormatCopyList(ids: seq<uint16>): string
    requires |ids| >= 1
  {
    Join(DecimalParts(ids), ',')
  }

  /** Decimal spellings carry no separator and parse back to their ids. */
  lemma ParseDecimalParts(ids: seq<uint16>)
    ensures forall i :: 0 <= i < |ids| ==> ',' !in DecimalParts(ids)[i]
    ensures ParseParts(DecimalParts(ids)) == Some(ids)
  {
    var parts := DecimalParts(ids);
    forall i | 0 <= i < |parts| ensures ',' !in parts[i] && ParseUInt16(Trim(parts[i])) == Some(ids[i]) {
      assert !IsDigit(',');
      forall j | 0 <= j < |parts[i]| ensures !IsWhiteSpace(parts[i][j]) {
        assert IsDigit(parts[i][j]);
      }
      TrimWithoutWhiteSpace(parts[i]);
      ParseDecimal(ids[i]);
    }
    var r := ParseParts(parts);
    assert r.value == ids;
  }

  /** Every non-empty list of copy ids survives being stored and parsed again. */
  lemma ParseFormatRoundTrip(ids: seq<uint16>)
    requires |ids| >= 1
    ensures ParseCopyList(FormatCopyList(ids)) == Some(ids)
  {
    ParseDecimalParts(ids);
    SplitJoin(DecimalParts(ids), ',');
  }

  /** A list with an empty (or blank) part is rejected as a whole. */
  lemma BlankPartRejectsList(s: string, i: nat)
    requires i < |Split(s, ',')| && Trim(Split(s, ',')[i]) == ""
    ensures ParseCopyList(s) == None
  {
    var parts := Split(s, ',');
    assert ParseUInt16(Trim(parts[i])).None?;
  }

  /** The record's default copy list, the empty string, is not a valid list. */
  lemma DefaultCopyListRejected()
    ensures ParseCopyList("") == None
  {
    assert Split("", ',') == [""];
    assert Trim("") == "";
  }

  lemma ExampleCopyList()
    ensures ParseCopyList("3970,3971,3972") == Some([3970, 3971, 3972])
  {
    ExampleFormat();
    ParseFormatRoundTrip([3970, 3971, 3972]);
  }

  lemma ExampleFormat()
    ensures FormatCopyList([3970, 3971, 3972]) == "3970,3971,3972"
  {
    var parts := DecimalParts([3970, 3971, 3972]);
    assert parts == ["3970", "3971", "3972"] by {
      DecimalExample();
    }
    assert parts[1..] == ["3971", "3972"];
    ExampleJoinTail();
    assert "3970" + [','] + "3971,3972" == "3970,3971,3972";
  }

  lemma ExampleJoinTail()
    ensures Join(["3971", "3972"], ',') == "3971,3972"
  {
    assert ["3971", "3972"][1..] == ["3972"];
  }

  lemma DecimalExample()
    ensures Decimal(3970) == "3970" && Decimal(3971) == "3971" && Decimal(3972) == "3972"
  {
    assert Decimal(3) == "3";
    assert Decimal(39) == "39";
    assert Decimal(397) == "397";
  }
}
