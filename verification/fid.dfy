/** The file identifier `"<volume id>,<hex key><8 hex digits of cookie>"` and its
    parser (weedo.go, `ParseFid`). */
module Fids {
  import opened GoBase
  import opened Strconv
  import opened Strings

  /** A parsed file id. Go keeps all three parts in `uint64` fields; the parser
      bounds the volume id and the cookie to 32 bits. */
  datatype Fid = Fid(id: nat, key: nat, cookie: nat)

  /** The error ParseFid returns when the text does not have the two segments it needs. */
  const FidFormatInvalid: Error := Text("Fid format invalid")

  /** Number of bytes of the second segment that hold the cookie. */
  const CookieLen: nat := 8

  /** `s` is a number `strconv.ParseUint(s, base, bits)` accepts, where `limit` is
      `2^bits`: a non-empty digit string whose value is below the limit. */
  predicate IsUint(s: GoString, base: nat, limit: nat)
  {
    |s| > 0 && AllDigits(s, base) && Value(s, base) < limit
  }

  /** The key part of a second segment: all but its last eight bytes. */
  function KeyText(seg: GoString): GoString
    requires |seg| > CookieLen
  {
    seg[..|seg| - CookieLen]
  }

  /** The cookie part of a second segment: its last eight bytes. */
  function CookieText(seg: GoString): GoString
    requires |seg| > CookieLen
  {
    seg[|seg| - CookieLen..]
  }

  /** `ParseFid`: split on ',', parse the volume id as decimal (32 bits), the key as
      hex (64 bits) and the cookie as hex (32 bits), in that order, returning the
      first error met (ParseFidFirstError). */
  function ParseFid(s: GoString): (r: Result<Fid, Error>)
    ensures var a := Split(s, ',');
      && (Count(s, ',') != 1 || |a[1]| <= CookieLen ==> r == Failure(FidFormatInvalid))
      && (r.Success? <==>
            && Count(s, ',') == 1 && |a[1]| > CookieLen
            && IsUint(a[0], 10, Two32)
            && IsUint(KeyText(a[1]), 16, Two64)
            && IsUint(CookieText(a[1]), 16, Two32))
      && (r.Success? ==>
            && r.value.id == Value(a[0], 10) && r.value.id < Two32
            && r.value.key == Value(KeyText(a[1]), 16) && r.value.key < Two64
            && r.value.cookie == Value(CookieText(a[1]), 16)
            && r.value.cookie < Two32)
  {
    Pow2Constants();
    var a := Split(s, ',');
    if |a| != 2 || |a[1]| <= CookieLen then Failure(FidFormatInvalid)
    else
      var index := |a[1]| - CookieLen;
      match ParseUint(a[0], 10, 32)
      case Failure(e) => Failure(e)
      case Success(id) =>
        match ParseUint(a[1][..index], 16, 64)
        case Failure(e) => Failure(e)
        case Success(key) =>
          match ParseUint(a[1][index..], 16, 32)
          case Failure(e) => Failure(e)
          case Success(cookie) => Success(Fid(id, key, cookie))
  }

  /** Which error a well-shaped but unparsable id reports: the ParseUint error of
      the first part that fails, in the order volume id, key, cookie. */
  lemma ParseFidFirstError(s: GoString)
    ensures var a := Split(s, ',');
      && (Count(s, ',') == 1 && |a[1]| > CookieLen && !IsUint(a[0], 10, Two32) ==>
            ParseUint(a[0], 10, 32).Failure? &&
            ParseFid(s) == Failure(ParseUint(a[0], 10, 32).error))
      && (Count(s, ',') == 1 && |a[1]| > CookieLen && IsUint(a[0], 10, Two32)
            && !IsUint(KeyText(a[1]), 16, Two64) ==>
            ParseUint(KeyText(a[1]), 16, 64).Failure? &&
            ParseFid(s) == Failure(ParseUint(KeyText(a[1]), 16, 64).error))
      && (Count(s, ',') == 1 && |a[1]| > CookieLen && IsUint(a[0], 10, Two32)
            && IsUint(KeyText(a[1]), 16, Two64) && !IsUint(CookieText(a[1]), 16, Two32) ==>
            ParseUint(CookieText(a[1]), 16, 32).Failure? &&
            ParseFid(s) == Failure(ParseUint(CookieText(a[1]), 16, 32).error))
  {
    Pow2Constants();
  }

  /** A digit string of length `n` has a value below `base^n`. */
  lemma {:induction false} ValueBelowPow(s: GoString, base: nat)
    requires base >= 2 && AllDigits(s, base)
    ensures Value(s, base) < Pow(base, |s|)
  {
    if |s| > 0 {
      var p := s[..|s| - 1];
      ValuePrefix(s, base);
      ValueBelowPow(p, base);
      var v, d := Value(p, base), DigitValue(s[|s| - 1]).value;
      MulLe(v + 1, Pow(base, |p|), base);
      MulDistrib(v, 1, base);
      assert Pow(base, |s|) == base * Pow(base, |p|);
      assert Value(s, base) == v * base + d < (v + 1) * base;
    }
  }

  /** Eight hex digits always fit in 32 bits, so the cookie can only fail to parse
      on a byte that is not a hex digit, never by overflow. */
  lemma CookieNeverOverflows(seg: GoString)
    requires |seg| > CookieLen
    ensures ParseUint(CookieText(seg), 16, 32).Success? <==> AllDigits(CookieText(seg), 16)
  {
    Pow2Constants();
    if AllDigits(CookieText(seg), 16) {
      ValueBelowPow(CookieText(seg), 16);
    }
  }

  /** The canonical text of a file id: decimal volume id, hex key without leading
      zeros, and the cookie as exactly eight hex digits. */
  function FormatFid(f: Fid): GoString
    requires f.cookie < Two32
  {
    FormatUint(f.id, 10) + [','] + KeyCookie(f)
  }

  lemma NoCommaInDigits(s: GoString, base: nat)
    requires AllDigits(s, base)
    ensures ',' !in s
  {
    forall i | 0 <= i < |s| ensures s[i] != ',' {
      assert IsDigit(s[i], base);
    }
  }

  /** Round trip: every id within range survives formatting and parsing. */
  lemma ParseFormatFid(f: Fid)
    requires f.id < Two32 && f.key < Two64 && f.cookie < Two32
    ensures ParseFid(FormatFid(f)) == Success(f)
  {
    FormatFidSplit(f);
    FormatFidNumbers(f);
  }

  /** The second segment of a formatted id: the hex key, then the padded cookie. */
  function KeyCookie(f: Fid): GoString
    requires f.cookie < Two32
  {
    Pow2Constants();
    FormatUint(f.key, 16) + FixedWidth(f.cookie, 16, CookieLen)
  }

  /** A formatted id has exactly one comma, between the volume id and the rest. */
  lemma FormatFidSplit(f: Fid)
    requires f.cookie < Two32
    ensures Count(FormatFid(f), ',') == 1
    ensures Split(FormatFid(f), ',') == [FormatUint(f.id, 10), KeyCookie(f)]
  {
    Pow2Constants();
    var d := FormatUint(f.id, 10);
    var k := FormatUint(f.key, 16);
    var c := FixedWidth(f.cookie, 16, CookieLen);
    var seg := KeyCookie(f);
    NoCommaInDigits(d, 10);
    NoCommaInDigits(k, 16);
    NoCommaInDigits(c, 16);
    forall i | 0 <= i < |seg| ensures seg[i] != ',' {
      if i < |k| { assert seg[i] == k[i]; } else { assert seg[i] == c[i - |k|]; }
    }
    assert FormatFid(f) == d + [','] + seg;
    OneComma(d, seg);
  }

  /** Two comma-free segments joined by one comma split back into those two. */
  lemma OneComma(d: GoString, seg: GoString)
    requires ',' !in d && ',' !in seg
    ensures Split(d + [','] + seg, ',') == [d, seg]
    ensures Count(d + [','] + seg, ',') == 1
  {
    SplitTwo(d, seg, ',');
  }

  /** Each part of a formatted id reads back as the number it was made from. */
  lemma FormatFidNumbers(f: Fid)
    requires f.id < Two32 && f.key < Two64 && f.cookie < Two32
    ensures |KeyCookie(f)| > CookieLen
    ensures IsUint(FormatUint(f.id, 10), 10, Two32) && Value(FormatUint(f.id, 10), 10) == f.id
    ensures KeyText(KeyCookie(f)) == FormatUint(f.key, 16)
    ensures IsUint(FormatUint(f.key, 16), 16, Two64) && Value(FormatUint(f.key, 16), 16) == f.key
    ensures CookieText(KeyCookie(f)) == FixedWidth(f.cookie, 16, CookieLen)
    ensures IsUint(FixedWidth(f.cookie, 16, CookieLen), 16, Two32)
    ensures Value(FixedWidth(f.cookie, 16, CookieLen), 16) == f.cookie
  {
    Pow2Constants();
    FixedWidthValue(f.cookie, 16, CookieLen);
    var seg := KeyCookie(f);
    assert seg[..|seg| - CookieLen] == FormatUint(f.key, 16);
    assert seg[|seg| - CookieLen..] == FixedWidth(f.cookie, 16, CookieLen);
  }

  /** The file id `7,01637037d6`: the second segment has ten bytes, so the last
      eight (`637037d6`) are the cookie and the first two (`01`) the key. */
  lemma ExampleFid()
    ensures ParseFid("7,01637037d6") == Success(Fid(7, 0x01, 0x637037d6))
  {
    ExampleSplit();
    ExampleNumbers();
  }

  lemma ExampleSplit()
    ensures Split("7,01637037d6", ',') == ["7", "01637037d6"]
    ensures Count("7,01637037d6", ',') == 1
  {
    var d: GoString := "7";
    var seg: GoString := "01637037d6";
    assert "7,01637037d6" == d + [','] + seg;
    OneComma(d, seg);
  }

  /** Leading zeros in the volume id are accepted: `007,01637037d6` names the same
      file as `7,01637037d6`. */
  lemma ParsePaddedExample()
    ensures ParseFid("007,01637037d6") == Success(Fid(7, 0x01, 0x637037d6))
  {
    PaddedSplit();
    PaddedVolumeId();
    ExampleNumbers();
  }

  lemma PaddedSplit()
    ensures Split("007,01637037d6", ',') == ["007", "01637037d6"]
    ensures Count("007,01637037d6", ',') == 1
  {
    var d: GoString := "007";
    var seg: GoString := "01637037d6";
    assert "007,01637037d6" == d + [','] + seg;
    OneComma(d, seg);
  }

  lemma PaddedVolumeId()
    ensures IsUint("007", 10, Two32) && Value("007", 10) == 7
  {
    Pow2Constants();
    var e: GoString := [];
    ValueSnoc(e, '0', 10, 0);
    assert e + ['0'] == "0";
    ValueSnoc("0", '0', 10, 0);
    assert "0" + ['0'] == "00";
    ValueSnoc("00", '7', 10, 0);
    assert "00" + ['7'] == "007";
  }

  lemma ExampleNumbers()
    ensures IsUint("7", 10, Two32) && Value("7", 10) == 7
    ensures KeyText("01637037d6") == "01" && IsUint("01", 16, Two64) && Value("01", 16) == 1
    ensures CookieText("01637037d6") == "637037d6" && IsUint("637037d6", 16, Two32)
    ensures Value("637037d6", 16) == 0x637037d6
  {
    var seg: GoString := "01637037d6";
    assert KeyText(seg) == "01";
    assert CookieText(seg) == "637037d6";
    Pow2Constants();
    SmallValues();
    CookieValue();
  }

  /** Appending one digit multiplies the value so far by the base and adds it. */
  lemma ValueSnoc(p: GoString, c: Byte, base: nat, v: nat)
    requires base >= 1 && AllDigits(p, base) && IsDigit(c, base) && Value(p, base) == v
    ensures AllDigits(p + [c], base)
    ensures Value(p + [c], base) == v * base + DigitValue(c).value
  {
    var s := p + [c];
    assert s[..|s| - 1] == p;
    ValuePrefix(s, base);
  }

  lemma SmallValues()
    ensures AllDigits("7", 10) && Value("7", 10) == 7
    ensures AllDigits("01", 16) && Value("01", 16) == 1
  {
    var e: GoString := [];
    ValueSnoc(e, '7', 10, 0);
    assert e + ['7'] == "7";
    ValueSnoc(e, '0', 16, 0);
    assert e + ['0'] == "0";
    ValueSnoc("0", '1', 16, 0);
    assert "0" + ['1'] == "01";
  }

  lemma CookieValue()
    ensures AllDigits("637037d6", 16) && Value("637037d6", 16) == 0x637037d6
  {
    var e: GoString := [];
    ValueSnoc(e, '6', 16, 0);
    assert e + ['6'] == "6";
    ValueSnoc("6", '3', 16, 0x6);
    assert "6" + ['3'] == "63";
    ValueSnoc("63", '7', 16, 0x63);
    assert "63" + ['7'] == "637";
    ValueSnoc("637", '0', 16, 0x637);
    assert "637" + ['0'] == "6370";
    ValueSnoc("6370", '3', 16, 0x6370);
    assert "6370" + ['3'] == "63703";
    ValueSnoc("63703", '7', 16, 0x63703);
    assert "63703" + ['7'] == "637037";
    ValueSnoc("637037", 'd', 16, 0x637037);
    assert "637037" + ['d'] == "637037d";
    ValueSnoc("637037d", '6', 16, 0x637037d);
    assert "637037d" + ['6'] == "637037d6";
  }

  /** A second segment of eight bytes or fewer is rejected before any number is
      read, even when it is made of hex digits. */
  lemma ShortSecondSegment()
    ensures ParseFid("7,37d6") == Failure(FidFormatInvalid)
  {
    var d: GoString := "7";
    var seg: GoString := "37d6";
    assert "7,37d6" == d + [','] + seg;
    OneComma(d, seg);
  }
}
