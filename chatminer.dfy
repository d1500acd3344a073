/** chatminer.py: poll each endpoint once per cycle, project six fields of
    the payload, append one timestamped row per record to the stats table,
    and show the latest row of every host. */
module ChatMiner {
  import opened Wrappers
  import opened Telemetry

  /** The dict fetch_data returns: exactly these six keys. */
  datatype Reading = Reading(
    hostname: Json, temp: Json, vrTemp: Json, hashRate: int,
    bestSessionDiff: Json, stratumDiff: Json)

  /** A row of the stats table, in column order (timestamp first). */
  datatype StatsRow = StatsRow(
    timestamp: int, hostname: Json, temp: Json, vrTemp: Json, hashRate: int,
    bestSessionDiff: Json, stratumDiff: Json)

  /** A row of the latest-per-host view: the stats columns without the timestamp. */
  datatype LatestRow = LatestRow(
    hostname: Json, temp: Json, vrTemp: Json, hashRate: int,
    bestSessionDiff: Json, stratumDiff: Json)

  // ---------------------------------------------------------------- int()

  /** int() of a float: truncation toward zero. */
  function Truncate(x: real): (r: int)
    ensures 0.0 <= x ==> 0 <= r && r as real <= x < r as real + 1.0
    ensures x < 0.0 ==> r <= 0 && r as real - 1.0 < x <= r as real
  {
    if x >= 0.0 then x.Floor else -((-x).Floor)
  }

  lemma TruncateExamples()
    ensures Truncate(123.7) == 123 && Truncate(-2.5) == -2 && Truncate(0.9) == 0
  {
  }

  /** The whitespace int() skips around the digits (Py_ISSPACE): space, tab,
      line feed, vertical tab, form feed and carriage return. */
  predicate IsAsciiSpace(c: char)
  {
    c == ' ' || 9 <= c as int <= 13
  }

  /** The characters at or above U+0080 that Python counts as whitespace
      (str.isspace). */
  predicate IsNonAsciiSpace(c: char)
  {
    c as int == 0x85 || c as int == 0xA0 || c as int == 0x1680 ||
    0x2000 <= c as int <= 0x200A || c as int == 0x2028 || c as int == 0x2029 ||
    c as int == 0x202F || c as int == 0x205F || c as int == 0x3000
  }

  predicate IsAscii(s: string)
  {
    forall k :: 0 <= k < |s| ==> s[k] as int < 128
  }

  /** Before reading digits, int() turns every non-ASCII whitespace character
      into ' ' and copies every character below U+0080 as it is; an all-ASCII
      string is left alone as a whole. So the separators U+001C..U+001F, which
      str.isspace counts as whitespace, are never skipped. */
  function AsciiSpaces(s: string): (t: string)
    ensures |t| == |s|
  {
    if IsAscii(s) then s
    else seq(|s|, k requires 0 <= k < |s| => if IsNonAsciiSpace(s[k]) then ' ' else s[k])
  }

  /** After the transformation, int() sees whitespace exactly where the string
      had ASCII whitespace or non-ASCII whitespace, and only characters at or
      above U+0080 have changed. */
  lemma AsciiSpacesSpec(s: string)
    ensures forall k :: 0 <= k < |s| ==>
      (IsAsciiSpace(AsciiSpaces(s)[k]) <==> IsAsciiSpace(s[k]) || IsNonAsciiSpace(s[k]))
    ensures forall k :: 0 <= k < |s| && !IsNonAsciiSpace(s[k]) ==> AsciiSpaces(s)[k] == s[k]
    ensures forall k :: 0 <= k < |s| && s[k] as int < 128 ==> AsciiSpaces(s)[k] == s[k]
  {
  }

  function StripLeft(s: string): (t: string)
    ensures |t| <= |s| && t == s[|s| - |t|..]
    ensures |t| > 0 ==> !IsAsciiSpace(t[0])
    ensures forall k :: 0 <= k < |s| - |t| ==> IsAsciiSpace(s[k])
  {
    if |s| > 0 && IsAsciiSpace(s[0]) then
      var t := StripLeft(s[1..]);
      assert s[1..][|s| - 1 - |t|..] == s[|s| - |t|..];
      assert forall k :: 1 <= k < |s| - |t| ==> s[1..][k - 1] == s[k];
      t
    else s
  }

  function StripRight(s: string): (t: string)
    ensures |t| <= |s| && t == s[..|t|]
    ensures |t| > 0 ==> !IsAsciiSpace(t[|t| - 1])
    ensures forall k :: |t| <= k < |s| ==> IsAsciiSpace(s[k])
  {
    if |s| > 0 && IsAsciiSpace(s[|s| - 1]) then
      var t := StripRight(s[..|s| - 1]);
      assert s[..|s| - 1][..|t|] == s[..|t|];
      assert forall k :: |t| <= k < |s| - 1 ==> s[..|s| - 1][k] == s[k];
      t
    else s
  }

  predicate IsDigit(c: char)
  {
    '0' <= c <= '9'
  }

  predicate IsDigits(d: string)
  {
    |d| > 0 && forall k :: 0 <= k < |d| ==> IsDigit(d[k])
  }

  function DigitsValue(d: string): nat
    requires forall k :: 0 <= k < |d| ==> IsDigit(d[k])
  {
    if |d| == 0 then 0
    else
      var c := d[|d| - 1];
      assert IsDigit(c);
      10 * DigitsValue(d[..|d| - 1]) + (c as int - '0' as int)
  }

  /** The text int() reads the number from: spaces normalised, then stripped. */
  function NumeralText(s: string): string
  {
    StripRight(StripLeft(AsciiSpaces(s)))
  }

  /** The most decimal digits int() converts (the default of
      sys.get_int_max_str_digits); a longer numeral raises ValueError. */
  const MaxStrDigits := 4300

  /** Decimal digits within the conversion limit. */
  predicate IsDecimal(d: string)
  {
    IsDigits(d) && |d| <= MaxStrDigits
  }

  /** An optional sign directly followed by decimal digits. */
  predicate IsNumeral(t: string)
  {
    IsDecimal(t) || (|t| > 0 && (t[0] == '-' || t[0] == '+') && IsDecimal(t[1..]))
  }

  /** int() of a string. */
  function IntOfString(s: string): Option<int>
  {
    var t := NumeralText(s);
    if |t| > 0 && (t[0] == '-' || t[0] == '+') then
      if IsDecimal(t[1..]) then
        var v: int := DigitsValue(t[1..]);
        Some(if t[0] == '-' then -v else v)
      else None
    else if IsDecimal(t) then Some(DigitsValue(t))
    else None
  }

  /** The decimal numeral of n, as str() writes it. */
  function ShowNat(n: nat): (d: string)
    ensures IsDigits(d)
  {
    if n < 10 then [('0' as int + n) as char]
    else ShowNat(n / 10) + [('0' as int + n % 10) as char]
  }

  function ShowInt(n: int): string
  {
    if n < 0 then "-" + ShowNat(-n) else ShowNat(n)
  }

  lemma {:induction false} ShowNatValue(n: nat)
    ensures DigitsValue(ShowNat(n)) == n
  {
    var d := ShowNat(n);
    if n >= 10 {
      ShowNatValue(n / 10);
      assert d[..|d| - 1] == ShowNat(n / 10);
    }
  }

  /** ASCII text without surrounding whitespace is read as it is. */
  lemma NumeralTextUnpadded(s: string)
    requires IsAscii(s) && |s| > 0 && !IsAsciiSpace(s[0]) && !IsAsciiSpace(s[|s| - 1])
    ensures NumeralText(s) == s
  {
    assert AsciiSpaces(s) == s;
  }

  /** int() of a string gives a value exactly when what remains after the
      surrounding whitespace is a signed or unsigned run of digits, and the
      value is negative only when the sign written is '-'. */
  lemma IntOfStringAccepts(s: string)
    ensures IntOfString(s).Some? <==> IsNumeral(NumeralText(s))
    ensures IntOfString(s).Some? && IntOfString(s).value < 0 ==> NumeralText(s)[0] == '-'
    ensures IntOfString(s).Some? && NumeralText(s)[0] == '-' ==> IntOfString(s).value <= 0
  {
  }

  /** A number whose text is plain digits is read as their value. */
  lemma ReadsDigits(s: string, d: string)
    requires IsDecimal(d) && NumeralText(s) == d
    ensures IntOfString(s) == Some(DigitsValue(d))
  {
    assert d[0] != '-' && d[0] != '+';
  }

  /** A number whose text is '-' and digits is read as their negated value. */
  lemma ReadsNegative(s: string, d: string)
    requires IsDecimal(d) && NumeralText(s) == "-" + d
    ensures IntOfString(s) == Some(-(DigitsValue(d) as int))
  {
    var t := NumeralText(s);
    assert t[0] == '-' && t[1..] == d;
  }

  /** A number whose text starts with neither a digit nor a sign is rejected. */
  lemma ReadsNonNumeral(s: string)
    requires |NumeralText(s)| > 0
    requires var c := NumeralText(s)[0]; !IsDigit(c) && c != '-' && c != '+'
    ensures IntOfString(s) == None
  {
  }

  /** int() reads back the numeral str() writes for a non-negative number. */
  lemma IntOfStringShowNat(n: int)
    requires n >= 0 && |ShowNat(n)| <= MaxStrDigits
    ensures IntOfString(ShowInt(n)) == Some(n)
  {
    var d := ShowNat(n);
    assert ShowInt(n) == d;
    ShowNatValue(n);
    assert IsDigit(d[0]) && IsDigit(d[|d| - 1]);
    NumeralTextUnpadded(d);
    ReadsDigits(d, d);
  }

  /** int() reads back the numeral str() writes for a negative number. */
  lemma IntOfStringShowNegative(n: int)
    requires n < 0 && |ShowNat(-n)| <= MaxStrDigits
    ensures IntOfString(ShowInt(n)) == Some(n)
  {
    var d := ShowNat(-n);
    ShowNatValue(-n);
    NegativeTextUnpadded(d);
    ReadsNegative("-" + d, d);
    assert IntOfString("-" + d) == Some(n);
    assert ShowInt(n) == "-" + d;
  }

  lemma NegativeTextUnpadded(d: string)
    requires IsDigits(d)
    ensures NumeralText("-" + d) == "-" + d
  {
    var s := "-" + d;
    assert forall k :: 1 <= k < |s| ==> s[k] == d[k - 1];
    assert IsDigit(d[|d| - 1]);
    NumeralTextUnpadded(s);
  }

  /** int() reads back every integer str() writes. str() itself raises
      ValueError beyond the same digit limit, so these are all its numerals. */
  lemma IntOfStringShowInt(n: int)
    requires |ShowNat(if n < 0 then -n else n)| <= MaxStrDigits
    ensures IntOfString(ShowInt(n)) == Some(n)
  {
    if n < 0 {
      IntOfStringShowNegative(n);
    } else {
      IntOfStringShowNat(n);
    }
  }

  /** Stripping skips a run of whitespace in front. */
  lemma {:induction false} StripLeftSkips(p: string, t: string)
    requires forall k :: 0 <= k < |p| ==> IsAsciiSpace(p[k])
    requires |t| > 0 && !IsAsciiSpace(t[0])
    ensures StripLeft(p + t) == t
    decreases |p|
  {
    if |p| > 0 {
      assert (p + t)[1..] == p[1..] + t;
      StripLeftSkips(p[1..], t);
    } else {
      assert p + t == t;
    }
  }

  /** Stripping skips a run of whitespace behind. */
  lemma {:induction false} StripRightSkips(t: string, q: string)
    requires forall k :: 0 <= k < |q| ==> IsAsciiSpace(q[k])
    requires |t| > 0 && !IsAsciiSpace(t[|t| - 1])
    ensures StripRight(t + q) == t
    decreases |q|
  {
    if |q| > 0 {
      var n := |q| - 1;
      assert (t + q)[..|t| + n] == t + q[..n];
      StripRightSkips(t, q[..n]);
    } else {
      assert t + q == t;
    }
  }

  /** Digits between two ASCII texts make an ASCII text. */
  lemma DigitsBetweenAscii(p: string, d: string, q: string)
    requires IsAscii(p) && IsDigits(d) && IsAscii(q)
    ensures IsAscii(p + d + q)
  {
    var s := p + d + q;
    forall k | 0 <= k < |s| ensures s[k] as int < 128 {
      if k < |p| {
        assert s[k] == p[k];
      } else if k < |p| + |d| {
        assert s[k] == d[k - |p|];
      } else {
        assert s[k] == q[k - |p| - |d|];
      }
    }
  }

  lemma PaddedText(d: string)
    requires IsDigits(d)
    ensures NumeralText(" -" + d + "\n") == "-" + d
  {
    var core := "-" + d;
    var s := " " + core + "\n";
    assert s == " -" + d + "\n";
    DigitsBetweenAscii(" -", d, "\n");
    assert AsciiSpaces(s) == s;
    assert IsDigit(d[|d| - 1]) && core[|core| - 1] == d[|d| - 1];
    StripLeftSkips(" ", core + "\n");
    assert " " + (core + "\n") == s;
    StripRightSkips(core, "\n");
  }

  /** int() skips ASCII whitespace around a sign and its digits. */
  lemma IntOfStringPadded(d: string)
    requires IsDecimal(d)
    ensures IntOfString(" -" + d + "\n") == Some(-(DigitsValue(d) as int))
  {
    PaddedText(d);
    ReadsNegative(" -" + d + "\n", d);
  }

  lemma SeparatorInAsciiText(d: string)
    requires IsDigits(d)
    ensures NumeralText([28 as char] + d) == [28 as char] + d
  {
    var a := [28 as char] + d;
    assert forall k :: 1 <= k < |a| ==> a[k] == d[k - 1];
    assert IsDigit(d[|d| - 1]) && a[|a| - 1] == d[|d| - 1];
    NumeralTextUnpadded(a);
  }

  lemma SeparatorBesideNonAsciiText(d: string)
    requires IsDigits(d)
    ensures NumeralText([28 as char] + d + [0xA0 as char]) == [28 as char] + d
  {
    var u := [28 as char] + d + [0xA0 as char];
    var a := [28 as char] + d;
    assert !IsAscii(u) by {
      assert u[|u| - 1] as int >= 128;
    }
    var t := AsciiSpaces(u);
    AsciiSpacesSpec(u);
    assert t[..|t| - 1] == a by {
      forall k | 0 <= k < |t| - 1 ensures t[k] == a[k] {
        assert u[k] == a[k] && a[k] as int < 128;
      }
    }
    assert t == a + [t[|t| - 1]];
    assert IsDigit(d[|d| - 1]) && a[|a| - 1] == d[|d| - 1];
    StripRightSkips(a, [t[|t| - 1]]);
  }

  /** U+001C before the digits is never skipped, even in a string that also
      holds a non-ASCII space (here U+00A0 after the digits). */
  lemma IntOfStringSeparator(d: string)
    requires IsDigits(d)
    ensures IntOfString([28 as char] + d) == None
    ensures IntOfString([28 as char] + d + [0xA0 as char]) == None
  {
    SeparatorInAsciiText(d);
    ReadsNonNumeral([28 as char] + d);
    SeparatorBesideNonAsciiText(d);
    ReadsNonNumeral([28 as char] + d + [0xA0 as char]);
  }

  lemma NonAsciiPaddedText(d: string)
    requires IsDigits(d)
    ensures NumeralText([0x3000 as char] + d + [0xA0 as char]) == d
  {
    var u := [0x3000 as char] + d + [0xA0 as char];
    assert !IsAscii(u) by {
      assert u[0] as int >= 128;
    }
    var t := AsciiSpaces(u);
    AsciiSpacesSpec(u);
    assert t[1..|t| - 1] == d by {
      forall k | 1 <= k < |t| - 1 ensures t[k] == d[k - 1] {
        assert u[k] == d[k - 1] && IsDigit(u[k]);
      }
    }
    assert t == [t[0]] + (d + [t[|t| - 1]]);
    StripLeftSkips([t[0]], d + [t[|t| - 1]]);
    StripRightSkips(d, [t[|t| - 1]]);
  }

  /** Non-ASCII spaces (here U+3000 and U+00A0) around the digits are skipped. */
  lemma IntOfStringNonAsciiPadded(d: string)
    requires IsDecimal(d)
    ensures IntOfString([0x3000 as char] + d + [0xA0 as char]) == Some(DigitsValue(d))
  {
    NonAsciiPaddedText(d);
    ReadsDigits([0x3000 as char] + d + [0xA0 as char], d);
  }

  /** int() rejects a run of digits longer than the digit limit. */
  lemma IntOfStringRejectsLong(d: string)
    requires IsDigits(d) && |d| > MaxStrDigits
    ensures IntOfString(d) == None
  {
    DigitsText(d);
    ReadsLongDigits(d, d);
  }

  /** Digits are ASCII and are read as they are. */
  lemma DigitsText(d: string)
    requires IsDigits(d)
    ensures NumeralText(d) == d
  {
    assert forall k :: 0 <= k < |d| ==> IsDigit(d[k]) && d[k] as int < 128;
    assert IsDigit(d[0]) && IsDigit(d[|d| - 1]);
    NumeralTextUnpadded(d);
  }

  /** A number whose text is more digits than the limit is rejected. */
  lemma ReadsLongDigits(s: string, d: string)
    requires IsDigits(d) && |d| > MaxStrDigits && NumeralText(s) == d
    ensures IntOfString(s) == None
  {
    assert d[0] != '-' && d[0] != '+';
  }

  /** A number whose text is a sign without digits right after it is rejected. */
  lemma ReadsBareSign(s: string)
    requires |NumeralText(s)| > 1
    requires (NumeralText(s)[0] == '-' || NumeralText(s)[0] == '+') && !IsDigit(NumeralText(s)[1])
    ensures IntOfString(s) == None
  {
    var t := NumeralText(s);
    assert t[1..][0] == t[1];
  }

  /** A number whose text starts with a digit but is not all digits is rejected. */
  lemma ReadsBrokenDigits(s: string, i: nat)
    requires i < |NumeralText(s)|
    requires IsDigit(NumeralText(s)[0]) && !IsDigit(NumeralText(s)[i])
    ensures IntOfString(s) == None
  {
  }

  lemma SpacedSignText(d: string)
    requires IsDigits(d)
    ensures NumeralText("+ " + d) == "+ " + d
  {
    var s := "+ " + d;
    assert forall k :: 2 <= k < |s| ==> s[k] == d[k - 2];
    assert IsDigit(d[|d| - 1]);
    NumeralTextUnpadded(s);
  }

  /** int() rejects a space between the sign and the digits. */
  lemma IntOfStringRejectsSpacedSign(d: string)
    requires IsDigits(d)
    ensures IntOfString("+ " + d) == None
  {
    SpacedSignText(d);
    ReadsBareSign("+ " + d);
  }

  lemma PointText(a: string, b: string)
    requires IsDigits(a) && IsDigits(b)
    ensures NumeralText(a + "." + b) == a + "." + b
  {
    var s := a + "." + b;
    assert forall k :: 0 <= k < |a| ==> s[k] == a[k];
    assert forall k :: |a| < k < |s| ==> s[k] == b[k - |a| - 1];
    assert IsDigit(a[0]) && IsDigit(b[|b| - 1]);
    NumeralTextUnpadded(s);
  }

  /** int() rejects a decimal point. */
  lemma IntOfStringRejectsPoint(a: string, b: string)
    requires IsDigits(a) && IsDigits(b)
    ensures IntOfString(a + "." + b) == None
  {
    PointText(a, b);
    var s := a + "." + b;
    assert s[|a|] == '.' && s[0] == a[0];
    ReadsBrokenDigits(s, |a|);
  }

  /** Python's int() applied to a decoded JSON value; None where it raises
      (None, lists and objects: TypeError; a non-numeral string: ValueError). */
  function PyInt(v: Json): (r: Option<int>)
    ensures v.JNull? || v.JArr? || v.JObj? ==> r.None?
    ensures v.JNum? ==> r == Some(Truncate(v.n))
  {
    match v
    case JBool(b) => Some(if b then 1 else 0)
    case JNum(x) => Some(Truncate(x))
    case JStr(s) => IntOfString(s)
    case _ => None
  }

  // ---------------------------------------------------------------- fetch_data

  /** The dict literal of fetch_data applied to response.json(). data.get
      raises AttributeError on anything but an object, and the int() of the
      hashRate may raise; both end in the except clause, which returns None. */
  function ProjectReading(data: Json): Option<Reading>
  {
    if !data.JObj? then None
    else
      var f := data.fields;
      match PyInt(Get(f, "hashRate", JNum(0.0)))
      case None => None
      case Some(h) =>
        Some(Reading(Get(f, "hostname", JNull), Get(f, "temp", JNull), Get(f, "vrTemp", JNull), h,
                     Get(f, "bestSessionDiff", JNull), Get(f, "stratumDiff", JNull)))
  }

  /** fetch_data: no status check; any failure gives None. */
  function FetchData(resp: Response, parse: Parser): Option<Reading>
  {
    match resp
    case Unreachable => None
    case Delivered(_, body) =>
      match parse(body)
      case None => None
      case Some(data) => ProjectReading(data)
  }

  /** The projection succeeds exactly on an object whose hashRate (0 when
      absent) int() accepts, and then holds int()'s value as hashRate. */
  lemma ProjectReadingSucceeds(data: Json)
    ensures ProjectReading(data).Some? <==> data.JObj? && PyInt(Get(data.fields, "hashRate", JNum(0.0))).Some?
    ensures ProjectReading(data).Some? ==>
      ProjectReading(data).value.hashRate == PyInt(Get(data.fields, "hashRate", JNum(0.0))).value
  {
  }

  /** fetch_data returns a record exactly when the endpoint answered with a
      body that parses and projects, whatever the HTTP status; the record is
      the projection of the parsed body. */
  lemma FetchDataSucceeds(resp: Response, parse: Parser)
    ensures FetchData(resp, parse).Some? <==>
      resp.Delivered? && parse(resp.body).Some? && ProjectReading(parse(resp.body).value).Some?
    ensures FetchData(resp, parse).Some? ==> FetchData(resp, parse) == ProjectReading(parse(resp.body).value)
  {
  }

  /** A key missing from the payload maps to None (JNull), a present key to its value. */
  lemma ProjectionCopiesFields(fields: map<string, Json>)
    requires ProjectReading(JObj(fields)).Some?
    ensures var r := ProjectReading(JObj(fields)).value;
      (r.hostname == if "hostname" in fields then fields["hostname"] else JNull) &&
      (r.temp == if "temp" in fields then fields["temp"] else JNull) &&
      (r.vrTemp == if "vrTemp" in fields then fields["vrTemp"] else JNull) &&
      (r.bestSessionDiff == if "bestSessionDiff" in fields then fields["bestSessionDiff"] else JNull) &&
      (r.stratumDiff == if "stratumDiff" in fields then fields["stratumDiff"] else JNull)
  {
  }

  /** An absent hashRate gives 0; a numeric one is truncated toward zero; a
      null one makes the whole fetch give None. */
  lemma HashRateConversion(fields: map<string, Json>)
    ensures "hashRate" !in fields ==>
      ProjectReading(JObj(fields)).Some? && ProjectReading(JObj(fields)).value.hashRate == 0
    ensures "hashRate" in fields && fields["hashRate"].JNum? ==>
      ProjectReading(JObj(fields)).Some? &&
      ProjectReading(JObj(fields)).value.hashRate == Truncate(fields["hashRate"].n)
    ensures "hashRate" in fields && fields["hashRate"] == JNull ==> ProjectReading(JObj(fields)).None?
  {
    assert Truncate(0.0) == 0;
  }

  /** Every failure yields None rather than an exception. */
  lemma FetchFailuresGiveNone(resp: Response, parse: Parser)
    ensures resp.Unreachable? ==> FetchData(resp, parse).None?
    ensures resp.Delivered? && parse(resp.body).None? ==> FetchData(resp, parse).None?
    ensures resp.Delivered? && parse(resp.body).Some? && !parse(resp.body).value.JObj? ==>
      FetchData(resp, parse).None?
  {
  }

  // ---------------------------------------------------------------- store_data and one cycle

  /** The row store_data inserts: datetime.now() first, then the six values. */
  function RowOf(now: int, r: Reading): StatsRow
  {
    StatsRow(now, r.hostname, r.temp, r.vrTemp, r.hashRate, r.bestSessionDiff, r.stratumDiff)
  }

  /** Whether DuckDB accepts a row, i.e. converts each value to its column's
      type (hashRate to a 32-bit INT, stratumDiff to INT, temp to FLOAT, ...). */
  type Admits = StatsRow -> bool

  /** A fetch of one endpoint: fetch_data with the payload decoder fixed. */
  type Fetch = Response -> Option<Reading>

  /** What fetch gives for each endpoint of the list, in list order. */
  function FetchEach(responses: seq<Response>, fetch: Fetch): (results: seq<Option<Reading>>)
    ensures |results| == |responses|
  {
    if |responses| == 0 then []
    else
      var n := |responses| - 1;
      FetchEach(responses[..n], fetch) + [fetch(responses[n])]
  }

  /** Entry k is the fetch of endpoint k. */
  lemma {:induction false} FetchEachSpec(responses: seq<Response>, fetch: Fetch)
    ensures forall k :: 0 <= k < |responses| ==> FetchEach(responses, fetch)[k] == fetch(responses[k])
  {
    if |responses| > 0 {
      var n := |responses| - 1;
      FetchEachSpec(responses[..n], fetch);
      assert forall k :: 0 <= k < n ==> responses[..n][k] == responses[k];
    }
  }

  /** What fetch_data gives for each endpoint of the list, in list order. */
  function FetchAll(responses: seq<Response>, parse: Parser): (results: seq<Option<Reading>>)
    ensures |results| == |responses|
  {
    FetchEach(responses, r => FetchData(r, parse))
  }

  /** Entry k is fetch_data of endpoint k. */
  lemma FetchAllSpec(responses: seq<Response>, parse: Parser)
    ensures forall k :: 0 <= k < |responses| ==> FetchAll(responses, parse)[k] == FetchData(responses[k], parse)
  {
    FetchEachSpec(responses, r => FetchData(r, parse));
  }

  /** The rows of the successful fetches, in endpoint order; results[k] is
      what fetch_data gave for endpoint k and clock[k] the time it was stored. */
  function Fetched(results: seq<Option<Reading>>, clock: seq<int>): seq<StatsRow>
    requires |clock| == |results|
  {
    if |results| == 0 then []
    else
      var n := |results| - 1;
      var before := Fetched(results[..n], clock[..n]);
      if results[n].None? then before else before + [RowOf(clock[n], results[n].value)]
  }

  /** The endpoints whose fetch returned a record, in increasing order. */
  function SuccessfulEndpoints(results: seq<Option<Reading>>): (idx: seq<nat>)
    ensures forall m :: 0 <= m < |idx| ==> idx[m] < |results| && results[idx[m]].Some?
  {
    if |results| == 0 then []
    else
      var n := |results| - 1;
      var before := SuccessfulEndpoints(results[..n]);
      assert forall m :: 0 <= m < |before| ==> results[..n][before[m]] == results[before[m]];
      if results[n].None? then before else before + [n]
  }

  /** They are exactly the indices of the successful fetches, each once, in
      increasing order. */
  lemma {:induction false} SuccessfulEndpointsSpec(results: seq<Option<Reading>>)
    ensures var idx := SuccessfulEndpoints(results);
      (forall m1, m2 :: 0 <= m1 < m2 < |idx| ==> idx[m1] < idx[m2]) &&
      (forall k :: 0 <= k < |results| && results[k].Some? ==> k in idx)
  {
    if |results| > 0 {
      var n := |results| - 1;
      SuccessfulEndpointsSpec(results[..n]);
      assert forall k :: 0 <= k < n ==> results[..n][k] == results[k];
    }
  }

  /** One row per successful fetch: row m holds the record of the m-th
      endpoint whose fetch succeeded, stamped with that endpoint's clock reading. */
  lemma {:induction false} FetchedOnePerSuccess(results: seq<Option<Reading>>, clock: seq<int>)
    requires |clock| == |results|
    ensures var idx := SuccessfulEndpoints(results);
      |Fetched(results, clock)| == |idx| &&
      forall m :: 0 <= m < |idx| ==> Fetched(results, clock)[m] == RowOf(clock[idx[m]], results[idx[m]].value)
  {
    if |results| > 0 {
      var n := |results| - 1;
      var rs, cs := results[..n], clock[..n];
      FetchedOnePerSuccess(rs, cs);
      var before, ib := Fetched(rs, cs), SuccessfulEndpoints(rs);
      assert forall m :: 0 <= m < |ib| ==> before[m] == RowOf(clock[ib[m]], results[ib[m]].value) by {
        forall m | 0 <= m < |ib| ensures before[m] == RowOf(clock[ib[m]], results[ib[m]].value) {
          assert rs[ib[m]] == results[ib[m]] && cs[ib[m]] == clock[ib[m]];
        }
      }
      if results[n].Some? {
        assert Fetched(results, clock) == before + [RowOf(clock[n], results[n].value)];
        assert SuccessfulEndpoints(results) == ib + [n];
      } else {
        assert Fetched(results, clock) == before && SuccessfulEndpoints(results) == ib;
      }
    }
  }

  /** When every endpoint returns a record, row k is endpoint k's, stamped
      with the k-th clock reading. */
  lemma {:induction false} FetchedAllSucceed(results: seq<Option<Reading>>, clock: seq<int>)
    requires |clock| == |results|
    requires forall k :: 0 <= k < |results| ==> results[k].Some?
    ensures |Fetched(results, clock)| == |results|
    ensures forall k :: 0 <= k < |results| ==> Fetched(results, clock)[k] == RowOf(clock[k], results[k].value)
  {
    if |results| > 0 {
      var n := |results| - 1;
      var rs, cs := results[..n], clock[..n];
      assert forall k :: 0 <= k < n ==> rs[k].Some? by {
        forall k | 0 <= k < n ensures rs[k].Some? {
          assert rs[k] == results[k];
        }
      }
      FetchedAllSucceed(rs, cs);
      var before, all := Fetched(rs, cs), Fetched(results, clock);
      assert all == before + [RowOf(clock[n], results[n].value)];
      forall k | 0 <= k < |results|
        ensures all[k] == RowOf(clock[k], results[k].value)
      {
        if k < n {
          assert all[k] == before[k];
          assert rs[k] == results[k] && cs[k] == clock[k];
        }
      }
    }
  }

  /** What one pass of main_loop's for loop appends, and whether it ran to
      the end: store_data is not guarded, so a row the database refuses
      raises out of main_loop and the remaining endpoints are not polled. */
  datatype CycleResult = CycleResult(rows: seq<StatsRow>, completed: bool)

  /** One more endpoint: nothing after a stop; a failed fetch is skipped; a
      record is appended if the database accepts it and stops the cycle if not. */
  function Step(before: CycleResult, result: Option<Reading>, now: int, admits: Admits): CycleResult
  {
    if !before.completed then before
    else match result
      case None => before
      case Some(r) =>
        if admits(RowOf(now, r)) then CycleResult(before.rows + [RowOf(now, r)], true)
        else CycleResult(before.rows, false)
  }

  function Cycle(results: seq<Option<Reading>>, clock: seq<int>, admits: Admits): (c: CycleResult)
    requires |clock| == |results|
    ensures |c.rows| <= |results|
  {
    if |results| == 0 then CycleResult([], true)
    else
      var n := |results| - 1;
      Step(Cycle(results[..n], clock[..n], admits), results[n], clock[n], admits)
  }

  lemma CycleExtends(results: seq<Option<Reading>>, clock: seq<int>, admits: Admits, i: nat)
    requires |clock| == |results| && i < |results|
    ensures Cycle(results[..i + 1], clock[..i + 1], admits) ==
      Step(Cycle(results[..i], clock[..i], admits), results[i], clock[i], admits)
  {
    assert results[..i + 1][..i] == results[..i];
    assert clock[..i + 1][..i] == clock[..i];
  }

  /** Only rows the database accepts are ever stored. */
  lemma {:induction false} CycleStoresOnlyAdmitted(results: seq<Option<Reading>>, clock: seq<int>, admits: Admits)
    requires |clock| == |results|
    ensures forall k :: 0 <= k < |Cycle(results, clock, admits).rows| ==> admits(Cycle(results, clock, admits).rows[k])
  {
    if |results| > 0 {
      var n := |results| - 1;
      CycleStoresOnlyAdmitted(results[..n], clock[..n], admits);
    }
  }

  /** When the database accepts every row, a cycle appends exactly the rows of
      the fetches that returned a record, in endpoint order, and completes. */
  lemma {:induction false} CycleStoresEveryFetch(results: seq<Option<Reading>>, clock: seq<int>, admits: Admits)
    requires |clock| == |results|
    requires forall row :: row in Fetched(results, clock) ==> admits(row)
    ensures Cycle(results, clock, admits) == CycleResult(Fetched(results, clock), true)
  {
    if |results| > 0 {
      var n := |results| - 1;
      var before := Fetched(results[..n], clock[..n]);
      assert forall row :: row in before ==> row in Fetched(results, clock);
      CycleStoresEveryFetch(results[..n], clock[..n], admits);
    }
  }

  /** In general a cycle appends a prefix of those rows; it stops short only
      at a row the database refuses. */
  lemma {:induction false} CycleIsPrefixOfFetched(results: seq<Option<Reading>>, clock: seq<int>, admits: Admits)
    requires |clock| == |results|
    ensures var c := Cycle(results, clock, admits);
      var all := Fetched(results, clock);
      |c.rows| <= |all| && c.rows == all[..|c.rows|] &&
      (c.completed <==> c.rows == all) &&
      (!c.completed ==> !admits(all[|c.rows|]))
  {
    if |results| > 0 {
      var n := |results| - 1;
      CycleIsPrefixOfFetched(results[..n], clock[..n], admits);
      var before := Fetched(results[..n], clock[..n]);
      var c := Cycle(results[..n], clock[..n], admits);
      if !c.completed {
        assert |c.rows| < |before|;
      }
    }
  }

  /** Polling a + b fetches a's rows, then b's. */
  lemma {:induction false} FetchedAppend(a: seq<Option<Reading>>, ca: seq<int>, b: seq<Option<Reading>>, cb: seq<int>)
    requires |ca| == |a| && |cb| == |b|
    ensures Fetched(a + b, ca + cb) == Fetched(a, ca) + Fetched(b, cb)
    decreases |b|
  {
    if |b| == 0 {
      assert a + b == a && ca + cb == ca;
    } else {
      var n := |b| - 1;
      var ab, cab := a + b, ca + cb;
      assert ab[..|a| + n] == a + b[..n];
      assert cab[..|a| + n] == ca + cb[..n];
      assert ab[|a| + n] == b[n] && cab[|a| + n] == cb[n];
      FetchedAppend(a, ca, b[..n], cb[..n]);
    }
  }

  /** A failed fetch contributes nothing and does not stop the endpoints after it. */
  lemma FailedFetchIsSkipped(a: seq<Option<Reading>>, ca: seq<int>, b: seq<Option<Reading>>, cb: seq<int>, t: int)
    requires |ca| == |a| && |cb| == |b|
    ensures Fetched(a + [None] + b, ca + [t] + cb) == Fetched(a, ca) + Fetched(b, cb)
  {
    FetchedAppend(a + [None], ca + [t], b, cb);
    FetchedAppend(a, ca, [None], [t]);
    assert Fetched([None], [t]) == [];
  }

  /** Three endpoints, the fetch of the second failing (an unreachable
      endpoint, say): rows for the first and third. */
  lemma ThreeEndpointsSecondFails(f1: Option<Reading>, f3: Option<Reading>, t1: int, t2: int, t3: int)
    requires f1.Some? && f3.Some?
    ensures Fetched([f1, None, f3], [t1, t2, t3]) == [RowOf(t1, f1.value), RowOf(t3, f3.value)]
  {
    assert [f1, None, f3] == [f1] + [None] + [f3];
    assert [t1, t2, t3] == [t1] + [t2] + [t3];
    FailedFetchIsSkipped([f1], [t1], [f3], [t3], t2);
    assert Fetched([f3], [t3]) == [RowOf(t3, f3.value)];
    assert Fetched([f1], [t1]) == [RowOf(t1, f1.value)];
  }

  /** The stats table of the open connection. */
  class StatsTable {
    var rows: seq<StatsRow>

    /** CREATE TABLE IF NOT EXISTS: the table keeps the rows it already has. */
    constructor (existing: seq<StatsRow>)
      ensures rows == existing
    {
      rows := existing;
    }

    /** store_data: appends exactly one row, timestamp first, when the database
        accepts it, and otherwise raises (ok is false) leaving the table as it was. */
    method StoreData(now: int, reading: Reading, admits: Admits) returns (ok: bool)
      modifies this
      ensures ok == admits(RowOf(now, reading))
      ensures rows == old(rows) + (if ok then [RowOf(now, reading)] else [])
    {
      var row := RowOf(now, reading);
      ok := admits(row);
      if ok {
        rows := rows + [row];
      }
    }

    /** The body of main_loop's for loop for one endpoint, given what its
        fetch_data returned: a record is stored, None is skipped. */
    method PollEndpoint(data: Option<Reading>, now: int, admits: Admits) returns (ok: bool)
      modifies this
      ensures rows == old(rows) + Step(CycleResult([], true), data, now, admits).rows
      ensures ok == Step(CycleResult([], true), data, now, admits).completed
    {
      ok := true;
      if data.Some? {
        ok := StoreData(now, data.value, admits);
      }
    }

    /** One pass of main_loop's for loop over the endpoints, the loop body
        calling fetch for each. responses[k] is what requesting the k-th
        endpoint gives and clock[k] what datetime.now() reads when its row
        is stored. */
    method PollCycle(responses: seq<Response>, clock: seq<int>, fetch: Fetch, admits: Admits)
      returns (completed: bool)
      requires |clock| == |responses|
      modifies this
      ensures rows == old(rows) + Cycle(FetchEach(responses, fetch), clock, admits).rows
      ensures completed == Cycle(FetchEach(responses, fetch), clock, admits).completed
    {
      ghost var results := FetchEach(responses, fetch);
      var i := 0;
      while i < |responses|
        invariant 0 <= i <= |responses|
        invariant Cycle(results[..i], clock[..i], admits).completed
        invariant rows == old(rows) + Cycle(results[..i], clock[..i], admits).rows
      {
        CycleExtends(results, clock, admits, i);
        var data := fetch(responses[i]);
        assert data == results[i] by {
          FetchEachSpec(responses, fetch);
        }
        var ok := PollEndpoint(data, clock[i], admits);
        if !ok {
          CyclePrefixStops(results, clock, admits, i + 1);
          return false;
        }
        i := i + 1;
      }
      assert results[..i] == results && clock[..i] == clock;
      completed := true;
    }

    /** main_loop's pass with fetch_data as the fetch. */
    method MainLoopPass(responses: seq<Response>, clock: seq<int>, parse: Parser, admits: Admits)
      returns (completed: bool)
      requires |clock| == |responses|
      modifies this
      ensures rows == old(rows) + Cycle(FetchAll(responses, parse), clock, admits).rows
      ensures completed == Cycle(FetchAll(responses, parse), clock, admits).completed
    {
      completed := PollCycle(responses, clock, r => FetchData(r, parse), admits);
    }
  }

  /** Once a cycle has stopped, polling further endpoints changes nothing. */
  lemma {:induction false} CyclePrefixStops(results: seq<Option<Reading>>, clock: seq<int>, admits: Admits, i: nat)
    requires |clock| == |results| && i <= |results|
    requires !Cycle(results[..i], clock[..i], admits).completed
    ensures Cycle(results, clock, admits) == Cycle(results[..i], clock[..i], admits)
    decreases |results| - i
  {
    if i < |results| {
      var n := |results| - 1;
      assert results[..n][..i] == results[..i] && clock[..n][..i] == clock[..i];
      CyclePrefixStops(results[..n], clock[..n], admits, i);
    } else {
      assert results[..i] == results && clock[..i] == clock;
    }
  }

  // ---------------------------------------------------------------- display_matrix

  function Project(row: StatsRow): LatestRow
  {
    LatestRow(row.hostname, row.temp, row.vrTemp, row.hashRate, row.bestSessionDiff, row.stratumDiff)
  }

  predicate HasHost(rows: seq<StatsRow>, h: Json)
  {
    exists k :: 0 <= k < |rows| && rows[k].hostname == h
  }

  /** The distinct hostnames of the table (the PARTITION BY groups, NULL
      being one group), in order of first appearance. */
  function Hosts(rows: seq<StatsRow>): (hs: seq<Json>)
    ensures forall i, j :: 0 <= i < j < |hs| ==> hs[i] != hs[j]
    ensures forall k :: 0 <= k < |rows| ==> rows[k].hostname in hs
    ensures forall m :: 0 <= m < |hs| ==> HasHost(rows, hs[m])
  {
    if |rows| == 0 then []
    else
      var n := |rows| - 1;
      var before := Hosts(rows[..n]);
      assert forall m :: 0 <= m < |before| ==> HasHost(rows, before[m]) by {
        forall m | 0 <= m < |before| ensures HasHost(rows, before[m]) {
          var k :| 0 <= k < n && rows[..n][k].hostname == before[m];
          assert rows[k].hostname == before[m];
        }
      }
      assert forall k :: 0 <= k < n ==> rows[k] == rows[..n][k];
      if rows[n].hostname in before then before else before + [rows[n].hostname]
  }

  /** The row ROW_NUMBER() numbers 1 in host h's partition, ordered by
      timestamp descending: one with the greatest timestamp. The SQL picks
      among equal timestamps arbitrarily; the model picks the earliest stored. */
  function LatestIndex(rows: seq<StatsRow>, h: Json): (i: nat)
    requires HasHost(rows, h)
    ensures i < |rows| && rows[i].hostname == h
    ensures forall k :: 0 <= k < |rows| && rows[k].hostname == h ==> rows[k].timestamp <= rows[i].timestamp
  {
    var n := |rows| - 1;
    assert forall k :: 0 <= k < n ==> rows[k] == rows[..n][k];
    if !HasHost(rows[..n], h) then n
    else
      var j := LatestIndex(rows[..n], h);
      if rows[n].hostname != h || rows[j].timestamp >= rows[n].timestamp then j else n
  }

  /** display_matrix's query: the latest row of every host, without its timestamp. */
  function LatestPerHost(rows: seq<StatsRow>): (view: seq<LatestRow>)
    ensures |view| == |Hosts(rows)|
    ensures forall m :: 0 <= m < |view| ==> view[m].hostname == Hosts(rows)[m]
  {
    var hs := Hosts(rows);
    seq(|hs|, m requires 0 <= m < |hs| => Project(rows[LatestIndex(rows, hs[m])]))
  }

  /** Every host of the table has a row in the view. */
  lemma LatestCoversEveryHost(rows: seq<StatsRow>, k: nat)
    requires k < |rows|
    ensures exists m :: 0 <= m < |LatestPerHost(rows)| && LatestPerHost(rows)[m].hostname == rows[k].hostname
  {
    var hs := Hosts(rows);
    var m :| 0 <= m < |hs| && hs[m] == rows[k].hostname;
    assert LatestPerHost(rows)[m].hostname == hs[m];
  }

  /** No host has two rows in the view. */
  lemma LatestOnePerHost(rows: seq<StatsRow>)
    ensures forall m1, m2 :: 0 <= m1 < m2 < |LatestPerHost(rows)| ==>
      LatestPerHost(rows)[m1].hostname != LatestPerHost(rows)[m2].hostname
  {
    var view, hs := LatestPerHost(rows), Hosts(rows);
    assert forall m :: 0 <= m < |view| ==> view[m].hostname == hs[m];
  }

  /** The view's row for a host is a stored row of that host, and no row of
      the same host has a later timestamp. */
  lemma LatestIsNewest(rows: seq<StatsRow>, m: nat)
    requires m < |LatestPerHost(rows)|
    ensures exists i :: (0 <= i < |rows| && LatestPerHost(rows)[m] == Project(rows[i]) &&
      forall k :: 0 <= k < |rows| && rows[k].hostname == rows[i].hostname ==> rows[k].timestamp <= rows[i].timestamp)
  {
    var hs := Hosts(rows);
    var i := LatestIndex(rows, hs[m]);
    assert LatestPerHost(rows)[m] == Project(rows[i]);
  }
}
