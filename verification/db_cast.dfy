/**
 The DBCast helper: raw SQL expressions that cast an array or a JSON string to
 a JSON column value, and the fixed `Y-m-d H:i:s` timestamp layout.
 */
module DBCast {
  import opened Wrappers
  import opened Slashes
  import opened Decimal

  /** A JSON value. */
  datatype Json =
    | JNull
    | JBool(b: bool)
    | JNumber(n: int)
    | JString(text: string)
    | JArray(items: seq<Json>)
    | JObject(members: seq<(string, Json)>)

  /**
   The language's JSON encoder and decoder, whose workings lie outside this
   model: `decode` gives `None` where `json_decode` gives null for malformed text.
   */
  datatype Codec = Codec(encode: Json -> string, decode: string -> Option<Json>)

  /**
   The argument of `toJson`: an array (given by the JSON value it encodes as;
   the contract below holds for any value, not only arrays and objects), a
   string, or null.
   */
  datatype Argument = ArrayArg(json: Json) | StringArg(text: string) | NullArg

  /** A raw SQL expression: text handed to the query unescaped. */
  datatype Expression = Raw(sql: string)

  const InvalidJsonMessage := "A valid JSON string was not provided."

  const CastOpen := "CAST('"
  const CastClose := "' AS JSON)"

  /** `json_decode` of `s` is not null: `s` is well-formed JSON and not the literal `null`. */
  predicate Decodes(codec: Codec, s: string) {
    codec.decode(s).Some? && codec.decode(s).value != JNull
  }

  function CastExpression(body: string): (e: Expression) {
    Raw(CastOpen + body + CastClose)
  }

  /** The text between `CAST('` and `' AS JSON)`, if the expression has that shape. */
  function CastBody(e: Expression): (r: Option<string>)
    ensures r.Some? <==>
      (|e.sql| >= |CastOpen| + |CastClose|
       && e.sql[..|CastOpen|] == CastOpen && e.sql[|e.sql| - |CastClose|..] == CastClose)
    ensures r.Some? ==> e == CastExpression(r.value)
  {
    var n := |e.sql|;
    if n >= |CastOpen| + |CastClose| && e.sql[..|CastOpen|] == CastOpen && e.sql[n - |CastClose|..] == CastClose then
      var body := e.sql[|CastOpen|..n - |CastClose|];
      assert e.sql == CastOpen + body + CastClose;
      Some(body)
    else None
  }

  lemma CastBodyOfCast(body: string)
    ensures CastBody(CastExpression(body)) == Some(body)
  {
    var sql := CastExpression(body).sql;
    assert sql[..|CastOpen|] == CastOpen;
    assert sql[|sql| - |CastClose|..] == CastClose;
    assert sql[|CastOpen|..|sql| - |CastClose|] == body;
  }

  /**
   `toJson($json)`: an array is encoded and escaped; a string must decode to
   non-null and is embedded as it is; null, and a string that does not
   decode, throw.
   */
  function ToJson(codec: Codec, arg: Argument): (r: Result<Expression, Exception>)
    ensures r.Success? ==> CastBody(r.value).Some?
    ensures r.Failure? ==> r.error == Exception(InvalidJsonMessage)
    ensures arg.ArrayArg? ==>
      && r.Success?
      && CastBody(r.value) == Some(AddSlashes(codec.encode(arg.json)))
      && IsLiteralBody(CastBody(r.value).value)
      && StripSlashes(CastBody(r.value).value) == codec.encode(arg.json)
    ensures arg.StringArg? ==> (r.Success? <==> Decodes(codec, arg.text))
    ensures arg.StringArg? && r.Success? ==> CastBody(r.value) == Some(arg.text)
    ensures arg.NullArg? ==> r.Failure?
  {
    match arg
    case ArrayArg(a) =>
      var body := AddSlashes(codec.encode(a));
      CastBodyOfCast(body);
      AddSlashesIsLiteralBody(codec.encode(a));
      StripAddSlashes(codec.encode(a));
      Success(CastExpression(body))
    case StringArg(s) =>
      if Decodes(codec, s) then
        CastBodyOfCast(s);
        Success(CastExpression(s))
      else Failure(Exception(InvalidJsonMessage))
    case NullArg =>
      Failure(Exception(InvalidJsonMessage))
  }

  /**
   An array survives the cast: reading the SQL literal back and decoding it
   gives the array again, whenever the decoder inverts the encoder on it.
   */
  lemma ArrayRoundTrip(codec: Codec, v: Json)
    requires codec.decode(codec.encode(v)) == Some(v)
    ensures codec.decode(StripSlashes(CastBody(ToJson(codec, ArrayArg(v)).value).value)) == Some(v)
  {
  }

  /** The string `null` parses, yet it is refused like malformed JSON. */
  lemma JsonNullRejected(codec: Codec)
    requires codec.decode("null") == Some(JNull)
    ensures ToJson(codec, StringArg("null")) == Failure(Exception(InvalidJsonMessage))
  {
  }

  /**
   The JSON text `"'"` (a JSON string holding an apostrophe) is accepted and
   embedded as it is, so the apostrophe ends the SQL literal after one character.
   */
  lemma StringArgEndsLiteralEarly(codec: Codec)
    requires codec.decode("\"'\"") == Some(JString("'"))
    ensures ToJson(codec, StringArg("\"'\"")) == Success(Raw("CAST('\"'\"' AS JSON)"))
    ensures !IsLiteralBody(CastBody(ToJson(codec, StringArg("\"'\"")).value).value)
  {
    var s := "\"'\"";
    assert Decodes(codec, s);
    assert ToJson(codec, StringArg(s)) == Success(CastExpression(s));
    var sql := CastOpen + s + CastClose;
    assert |sql| == 19;
    forall i | 0 <= i < 19
      ensures sql[i] == "CAST('\"'\"' AS JSON)"[i]
    {
    }
    assert sql == "CAST('\"'\"' AS JSON)";
    assert s[1..][0] == '\'';
    assert !IsLiteralBody(s[1..]);
  }

  /**
   `toJson` with the string branch escaped like the array branch: every
   accepted argument stays inside its SQL literal and reads back as the JSON
   text it came from.
   */
  function ToJsonEscaped(codec: Codec, arg: Argument): (r: Result<Expression, Exception>)
    ensures r.Success? ==>
      && CastBody(r.value).Some?
      && IsLiteralBody(CastBody(r.value).value)
    ensures r.Failure? ==> r.error == Exception(InvalidJsonMessage)
    ensures arg.ArrayArg? ==> r.Success? && StripSlashes(CastBody(r.value).value) == codec.encode(arg.json)
    ensures arg.StringArg? ==> (r.Success? <==> Decodes(codec, arg.text))
    ensures arg.StringArg? && r.Success? ==> StripSlashes(CastBody(r.value).value) == arg.text
    ensures arg.NullArg? ==> r.Failure?
  {
    match arg
    case ArrayArg(_) => ToJson(codec, arg)
    case StringArg(s) =>
      if Decodes(codec, s) then
        var body := AddSlashes(s);
        CastBodyOfCast(body);
        AddSlashesIsLiteralBody(s);
        StripAddSlashes(s);
        Success(CastExpression(body))
      else Failure(Exception(InvalidJsonMessage))
    case NullArg => Failure(Exception(InvalidJsonMessage))
  }

  /** The corrected cast accepts the text that ended the literal early and embeds it as `\"\'\"`. */
  lemma EscapedKeepsApostropheInside(codec: Codec)
    requires codec.decode("\"'\"") == Some(JString("'"))
    ensures ToJsonEscaped(codec, StringArg("\"'\"")) == Success(CastExpression("\\\"\\'\\\""))
  {
    EscapeQuotedApostrophe();
    assert Decodes(codec, "\"'\"");
  }

  lemma EscapeQuotedApostrophe()
    ensures AddSlashes("\"'\"") == "\\\"\\'\\\""
  {
    var s := "\"'\"";
    assert s[1..] == "'\"" && s[1..][1..] == "\"" && s[1..][1..][1..] == [];
    assert AddSlashes(s[1..][1..]) == ['\\', '"'];
    assert AddSlashes(s[1..]) == ['\\', '\'', '\\', '"'];
  }

  /** The fields `format("Y-m-d H:i:s")` reads from a date-time. */
  datatype DateTime = DateTime(year: int, month: nat, day: nat, hour: nat, minute: nat, second: nat) {
    /** The ranges a date-time object always keeps its fields in. */
    predicate Valid() {
      1 <= month <= 12 && 1 <= day <= 31 && hour < 24 && minute < 60 && second < 60
    }
  }

  /** `Y`: the year with at least four digits, zero-padded, and a minus sign before years BCE. */
  function FormatYear(year: int): (s: string)
    ensures |s| >= 4
    ensures year < 0 <==> s[0] == '-'
    ensures var digits := if year < 0 then s[1..] else s;
      && |digits| >= 4
      && Denotes(digits, if year < 0 then -year else year)
      && (|digits| > 4 ==> digits[0] != '0')
    ensures 0 <= year <= 9999 ==> |s| == 4
  {
    var n := if year < 0 then -year else year;
    PaddedYear(n);
    var s := (if year < 0 then "-" else "") + PadLeft(Digits(n), 4);
    assert year < 0 ==> s[1..] == PadLeft(Digits(n), 4);
    assert year >= 0 ==> s == PadLeft(Digits(n), 4);
    s
  }

  lemma PaddedYear(n: nat)
    ensures |PadLeft(Digits(n), 4)| >= 4 && PadLeft(Digits(n), 4)[0] != '-'
    ensures Denotes(PadLeft(Digits(n), 4), n)
    ensures n < 10000 ==> |PadLeft(Digits(n), 4)| == 4
    ensures |PadLeft(Digits(n), 4)| > 4 ==> PadLeft(Digits(n), 4)[0] != '0'
  {
    PadLeftShape(Digits(n), 4);
    if |Digits(n)| > 4 {
      assert PadLeft(Digits(n), 4) == Digits(n);
      DigitsLeading(n);
    }
    ParsePadLeft(Digits(n), 4);
    ParseDigits(n);
    if n < 10000 {
      assert Pow10(4) == 10000;
      DigitsLength(n, 4);
    }
  }

  /** `m`, `d`, `H`, `i`, `s`: two digits, zero-padded. */
  function TwoDigits(n: nat): (s: string)
    requires n < 100
    ensures |s| == 2 && AllDigits(s) && ParseDecimal(s) == n
  {
    assert Pow10(2) == 100;
    FixedWidth(n, 2);
    PadLeft(Digits(n), 2)
  }

  /**
   `t` is the part of a `Y-m-d H:i:s` timestamp after the year: 15 characters,
   the separators in place, and two digits for each of month, day, hour,
   minute and second of `d`.
   */
  predicate IsDateTail(t: string, d: DateTime) {
    && |t| == 15
    && t[0] == '-' && t[3] == '-' && t[6] == ' ' && t[9] == ':' && t[12] == ':'
    && Denotes(t[1..3], d.month) && Denotes(t[4..6], d.day)
    && Denotes(t[7..9], d.hour) && Denotes(t[10..12], d.minute)
    && Denotes(t[13..15], d.second)
  }

  /** `-m-d H:i:s`: everything after the year. */
  function DateTail(d: DateTime): (t: string)
    requires d.Valid()
    ensures IsDateTail(t, d)
  {
    var mo := TwoDigits(d.month);
    var da := TwoDigits(d.day);
    var h := TwoDigits(d.hour);
    var mi := TwoDigits(d.minute);
    var se := TwoDigits(d.second);
    var t := ['-', mo[0], mo[1], '-', da[0], da[1], ' ', h[0], h[1], ':', mi[0], mi[1], ':', se[0], se[1]];
    assert t[1..3] == mo && t[4..6] == da && t[7..9] == h && t[10..12] == mi && t[13..15] == se;
    t
  }

  /**
   `toTimestamp($dateTime)`: the year as `Y` writes it, followed by the month,
   day, hour, minute and second, each as two digits, with the separators of
   `Y-m-d H:i:s`.
   */
  function ToTimestamp(d: DateTime): (s: string)
    requires d.Valid()
    ensures |s| >= 19
    ensures s[..|s| - 15] == FormatYear(d.year)
    ensures IsDateTail(s[|s| - 15..], d)
  {
    var y := FormatYear(d.year);
    var t := DateTail(d);
    assert (y + t)[..|y|] == y && (y + t)[|y|..] == t;
    y + t
  }

  /** Reads a `Y-m-d H:i:s` timestamp with a four-digit year back into its fields. */
  function ParseTimestamp(s: string): (r: Option<DateTime>) {
    if && |s| == 19
       && s[4] == '-' && s[7] == '-' && s[10] == ' ' && s[13] == ':' && s[16] == ':'
       && AllDigits(s[0..4]) && AllDigits(s[5..7]) && AllDigits(s[8..10])
       && AllDigits(s[11..13]) && AllDigits(s[14..16]) && AllDigits(s[17..19])
    then
      Some(DateTime(ParseDecimal(s[0..4]), ParseDecimal(s[5..7]), ParseDecimal(s[8..10]),
                    ParseDecimal(s[11..13]), ParseDecimal(s[14..16]), ParseDecimal(s[17..19])))
    else None
  }

  /** A year in 0..9999 is written as exactly four digits. */
  lemma FourDigitYear(year: int)
    requires 0 <= year <= 9999
    ensures |FormatYear(year)| == 4 && AllDigits(FormatYear(year))
    ensures ParseDecimal(FormatYear(year)) == year
  {
    assert Pow10(4) == 10000;
    FixedWidth(year, 4);
    assert FormatYear(year) == PadLeft(Digits(year), 4);
  }

  /**
   For a year in 0..9999 the timestamp is 19 characters, with the separators
   of `Y-m-d H:i:s` at fixed places and digits everywhere else.
   */
  lemma TimestampLayout(d: DateTime)
    requires d.Valid() && 0 <= d.year <= 9999
    ensures var s := ToTimestamp(d);
      && |s| == 19
      && s[4] == '-' && s[7] == '-' && s[10] == ' ' && s[13] == ':' && s[16] == ':'
      && forall i :: 0 <= i < 19 && i !in {4, 7, 10, 13, 16} ==> IsDigit(s[i])
  {
    FourDigitYear(d.year);
  }

  /** Reading the fields back out of a timestamp gives the date-time it was made from. */
  lemma TimestampRoundTrip(d: DateTime)
    requires d.Valid() && 0 <= d.year <= 9999
    ensures ParseTimestamp(ToTimestamp(d)) == Some(d)
  {
    FourDigitYear(d.year);
    var s := ToTimestamp(d);
    assert |s| == 19 && s[0..4] == s[..|s| - 15] && s[4..] == s[|s| - 15..];
    TailAfterYear(s, d);
    ParseFields(s, d);
  }

  /** With a four-digit year, the tail's fields sit at fixed places of the whole timestamp. */
  lemma TailAfterYear(s: string, d: DateTime)
    requires |s| == 19 && IsDateTail(s[4..], d)
    ensures s[4] == '-' && s[7] == '-' && s[10] == ' ' && s[13] == ':' && s[16] == ':'
    ensures Denotes(s[5..7], d.month) && Denotes(s[8..10], d.day) && Denotes(s[11..13], d.hour)
    ensures Denotes(s[14..16], d.minute) && Denotes(s[17..19], d.second)
  {
    var t := s[4..];
    assert s[5..7] == t[1..3] && s[8..10] == t[4..6] && s[11..13] == t[7..9];
    assert s[14..16] == t[10..12] && s[17..19] == t[13..15];
  }

  /** A 19-character text with the separators in place and each field's digits parses to those fields. */
  lemma ParseFields(s: string, d: DateTime)
    requires |s| == 19 && d.year >= 0
    requires s[4] == '-' && s[7] == '-' && s[10] == ' ' && s[13] == ':' && s[16] == ':'
    requires Denotes(s[0..4], d.year) && Denotes(s[5..7], d.month) && Denotes(s[8..10], d.day)
    requires Denotes(s[11..13], d.hour) && Denotes(s[14..16], d.minute) && Denotes(s[17..19], d.second)
    ensures ParseTimestamp(s) == Some(d)
  {
  }

  /** 2021-03-04 05:06:07 is written as "2021-03-04 05:06:07". */
  lemma TimestampExample()
    ensures ToTimestamp(DateTime(2021, 3, 4, 5, 6, 7)) == "2021-03-04 05:06:07"
  {
    Year2021();
    Tail0304050607();
    assert "2021" + "-03-04 05:06:07" == "2021-03-04 05:06:07";
  }

  lemma Tail0304050607()
    ensures DateTail(DateTime(2021, 3, 4, 5, 6, 7)) == "-03-04 05:06:07"
  {
    SingleDigitField(3);
    SingleDigitField(4);
    SingleDigitField(5);
    SingleDigitField(6);
    SingleDigitField(7);
  }

  lemma Year2021()
    ensures FormatYear(2021) == "2021"
  {
    assert Digits(2) == "2";
    assert Digits(20) == "20";
    assert Digits(202) == "202";
    assert Digits(2021) == "2021";
  }

  /** A field below ten gets one leading zero. */
  lemma SingleDigitField(n: nat)
    requires n < 10
    ensures TwoDigits(n) == ['0', DigitChar(n)]
  {
    assert PadLeft([DigitChar(n)], 2) == PadLeft(['0', DigitChar(n)], 2);
  }
}
