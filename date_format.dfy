/**
 * The two fixed formats the resolver hands to `datetime.strptime`:
 *
 *   '%Y:%m:%d %H:%M:%S'  (the EXIF / TIFF 6.0 DateTime form)
 *   '%Y-%m-%dT%H:%M:%S'  (the form of a video container's creation tag)
 *
 * Both are modelled on their fixed-width 19-character subset: every numeric
 * field has all its digits, ASCII digits only. What strptime does beyond that
 * subset is listed in README.md.
 */
module DateFormat {
  import opened Wrappers
  import opened Calendar

  datatype Layout =
    | ExifLayout  // '%Y:%m:%d %H:%M:%S'
    | IsoLayout   // '%Y-%m-%dT%H:%M:%S'

  /** Length of a fully padded datetime in either layout. */
  const Width: nat := 19

  predicate IsDigit(c: char)
  {
    '0' <= c <= '9'
  }

  predicate AllDigits(s: string)
  {
    forall i | 0 <= i < |s| :: IsDigit(s[i])
  }

  /**
   * Python's `\s` in a str pattern: the characters for which `str.isspace()`
   * holds. A blank in a strptime format is compiled to `\s+`.
   */
  predicate IsPythonSpace(c: char)
  {
    var n := c as int;
    (9 <= n <= 13) || (28 <= n <= 32) || n == 0x85 || n == 0xA0 || n == 0x1680 ||
    (0x2000 <= n <= 0x200A) || n == 0x2028 || n == 0x2029 || n == 0x202F ||
    n == 0x205F || n == 0x3000
  }

  /** The literal between year, month and day. */
  function DateSeparator(layout: Layout): char
  {
    match layout
    case ExifLayout => ':'
    case IsoLayout => '-'
  }

  /**
   * What the layout accepts between the date and the time: any whitespace
   * character for the blank of the EXIF format, and 'T' in either case for
   * the ISO format (strptime matches with re.IGNORECASE).
   */
  predicate MiddleOk(layout: Layout, c: char)
  {
    match layout
    case ExifLayout => IsPythonSpace(c)
    case IsoLayout => c == 'T' || c == 't'
  }

  /** The character the format string itself has between date and time. */
  function CanonicalMiddle(layout: Layout): (c: char)
    ensures MiddleOk(layout, c)
  {
    match layout
    case ExifLayout => ' '
    case IsoLayout => 'T'
  }

  /** Value of a decimal digit string, most significant digit first. */
  function Value(s: string): nat
    requires AllDigits(s)
  {
    if s == [] then 0
    else Value(s[..|s| - 1]) * 10 + ((s[|s| - 1] as int) - ('0' as int))
  }

  function DigitChar(d: nat): (c: char)
    requires d < 10
    ensures IsDigit(c)
  {
    (('0' as int) + d) as char
  }

  /** `n` written with exactly `width` digits, zero-padded on the left. */
  function Pad(n: nat, width: nat): (s: string)
    ensures |s| == width && AllDigits(s)
  {
    if width == 0 then "" else Pad(n / 10, width - 1) + [DigitChar(n % 10)]
  }

  function Pow10(k: nat): nat
  {
    if k == 0 then 1 else 10 * Pow10(k - 1)
  }

  /** The string has the layout's literals and digits where the format has fields. */
  predicate Shaped(s: string, layout: Layout)
  {
    |s| == Width &&
    AllDigits(s[0..4]) && AllDigits(s[5..7]) && AllDigits(s[8..10]) &&
    AllDigits(s[11..13]) && AllDigits(s[14..16]) && AllDigits(s[17..19]) &&
    s[4] == DateSeparator(layout) && s[7] == DateSeparator(layout) &&
    MiddleOk(layout, s[10]) && s[13] == ':' && s[16] == ':'
  }

  /** The six numeric fields of a shaped string. */
  function Fields(s: string, layout: Layout): DateTime
    requires Shaped(s, layout)
  {
    DateTime(Value(s[0..4]), Value(s[5..7]), Value(s[8..10]),
             Value(s[11..13]), Value(s[14..16]), Value(s[17..19]))
  }

  /**
   * `datetime.strptime(s, format)` restricted to the fixed-width subset:
   * `None` is the ValueError strptime raises, both for a string that does not
   * match the format and for fields out of the calendar's range.
   */
  function Parse(s: string, layout: Layout): (r: Option<DateTime>)
    ensures r.Some? ==> ValidDateTime(r.value) && |s| == Width
  {
    if Shaped(s, layout) && ValidDateTime(Fields(s, layout)) then Some(Fields(s, layout)) else None
  }

  /** `strftime` with the same format: what Parse reads back. */
  function Format(d: DateTime, layout: Layout): (s: string)
    requires ValidDateTime(d)
  {
    Pad(d.year, 4) + [DateSeparator(layout)] + Pad(d.month, 2) + [DateSeparator(layout)] +
    Pad(d.day, 2) + [CanonicalMiddle(layout)] + Pad(d.hour, 2) + [':'] +
    Pad(d.minute, 2) + [':'] + Pad(d.second, 2)
  }

  lemma {:induction false} ValueOfPad(n: nat, width: nat)
    requires n < Pow10(width)
    ensures Value(Pad(n, width)) == n
  {
    if width > 0 {
      var s := Pad(n, width);
      assert s[..|s| - 1] == Pad(n / 10, width - 1);
      ValueOfPad(n / 10, width - 1);
    }
  }

  lemma {:induction false} PadOfValue(s: string)
    requires AllDigits(s)
    ensures Pad(Value(s), |s|) == s
  {
    if s != [] {
      var init := s[..|s| - 1];
      var d := (s[|s| - 1] as int) - ('0' as int);
      assert Value(s) / 10 == Value(init) && Value(s) % 10 == d;
      PadOfValue(init);
      assert s == init + [s[|s| - 1]];
    }
  }

  lemma FormatSlices(d: DateTime, layout: Layout)
    requires ValidDateTime(d)
    ensures var s := Format(d, layout);
      |s| == Width &&
      s[0..4] == Pad(d.year, 4) && s[5..7] == Pad(d.month, 2) && s[8..10] == Pad(d.day, 2) &&
      s[11..13] == Pad(d.hour, 2) && s[14..16] == Pad(d.minute, 2) && s[17..19] == Pad(d.second, 2) &&
      s[4] == DateSeparator(layout) && s[7] == DateSeparator(layout) &&
      s[10] == CanonicalMiddle(layout) && s[13] == ':' && s[16] == ':'
  {
  }

  /** Whatever a valid datetime is formatted as, Parse reads it back. */
  lemma FormatThenParse(d: DateTime, layout: Layout)
    requires ValidDateTime(d)
    ensures Parse(Format(d, layout), layout) == Some(d)
  {
    var s := Format(d, layout);
    FormatSlices(d, layout);
    ValueOfPad(d.year, 4);
    ValueOfPad(d.month, 2);
    ValueOfPad(d.day, 2);
    ValueOfPad(d.hour, 2);
    ValueOfPad(d.minute, 2);
    ValueOfPad(d.second, 2);
    assert Fields(s, layout) == d;
  }

  /**
   * Whatever Parse accepts is the canonical rendering of its result, up to the
   * date/time separator, which the format matches loosely.
   */
  lemma ParseThenFormat(s: string, layout: Layout)
    requires Parse(s, layout).Some?
    ensures Format(Parse(s, layout).value, layout) == s[..10] + [CanonicalMiddle(layout)] + s[11..]
  {
    var d := Parse(s, layout).value;
    var f := Format(d, layout);
    FormatSlices(d, layout);
    PadOfValue(s[0..4]);
    PadOfValue(s[5..7]);
    PadOfValue(s[8..10]);
    PadOfValue(s[11..13]);
    PadOfValue(s[14..16]);
    PadOfValue(s[17..19]);
    var t := s[..10] + [CanonicalMiddle(layout)] + s[11..];
    assert forall i | 0 <= i < Width :: f[i] == t[i] by {
      forall i | 0 <= i < Width ensures f[i] == t[i] {
        if i < 4 { assert f[i] == f[0..4][i]; }
        else if 5 <= i < 7 { assert f[i] == f[5..7][i - 5] && s[i] == s[5..7][i - 5]; }
        else if 8 <= i < 10 { assert f[i] == f[8..10][i - 8] && s[i] == s[8..10][i - 8]; }
        else if 11 <= i < 13 { assert f[i] == f[11..13][i - 11] && s[i] == s[11..13][i - 11]; }
        else if 14 <= i < 16 { assert f[i] == f[14..16][i - 14] && s[i] == s[14..16][i - 14]; }
        else if 17 <= i < 19 { assert f[i] == f[17..19][i - 17] && s[i] == s[17..19][i - 17]; }
      }
    }
  }

  /**
   * Conversely, a string that agrees with the rendering of a valid datetime
   * everywhere but at an accepted date/time separator parses to that datetime.
   */
  lemma {:induction false} RenderingParses(s: string, layout: Layout, d: DateTime)
    requires ValidDateTime(d) && |s| == Width && MiddleOk(layout, s[10])
    requires Format(d, layout) == s[..10] + [CanonicalMiddle(layout)] + s[11..]
    ensures Parse(s, layout) == Some(d)
  {
    var f := Format(d, layout);
    FormatSlices(d, layout);
    FormatThenParse(d, layout);
    assert s[0..4] == f[0..4] && s[5..7] == f[5..7] && s[8..10] == f[8..10];
    assert s[11..13] == f[11..13] && s[14..16] == f[14..16] && s[17..19] == f[17..19];
  }
}
