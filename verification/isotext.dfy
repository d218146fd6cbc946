/** ISO 8601 text for UTC instants: the fixed-width fields both encoders
    write, and the fragment of `datetime.fromisoformat` that reads them
    back. */
module IsoText {
  import opened Wrappers
  import opened Ordering
  import opened Timestamps

  function Pow10(w: nat): (r: nat)
    ensures r >= 1
  {
    if w == 0 then 1 else 10 * Pow10(w - 1)
  }

  predicate IsDigit(c: char)
  {
    '0' <= c <= '9'
  }

  predicate AllDigits(s: string)
  {
    forall i | 0 <= i < |s| :: IsDigit(s[i])
  }

  function Digit(d: int): (c: char)
    requires 0 <= d < 10
    ensures IsDigit(c)
  {
    ('0' as int + d) as char
  }

  /** `n` zero-padded to `w` decimal digits (`%04d`, `%02d`, `%06d`). */
  function Pad(n: nat, w: nat): (s: string)
    requires n < Pow10(w)
    ensures |s| == w
    ensures AllDigits(s)
    decreases w
  {
    if w == 0 then "" else Pad(n / 10, w - 1) + [Digit(n % 10)]
  }

  /** The number a string of decimal digits denotes. */
  function DigitsValue(s: string): nat
    requires AllDigits(s)
    decreases |s|
  {
    if |s| == 0 then 0
    else 10 * DigitsValue(s[..|s| - 1]) + (s[|s| - 1] as int - '0' as int)
  }

  lemma {:induction false} PadValue(n: nat, w: nat)
    requires n < Pow10(w)
    ensures DigitsValue(Pad(n, w)) == n
    decreases w
  {
    if w > 0 {
      var p := Pad(n, w);
      assert p[..|p| - 1] == Pad(n / 10, w - 1);
      PadValue(n / 10, w - 1);
    }
  }

  lemma PadInjective(a: nat, b: nat, w: nat)
    requires a < Pow10(w) && b < Pow10(w)
    ensures Pad(a, w) == Pad(b, w) <==> a == b
  {
    PadValue(a, w);
    PadValue(b, w);
  }

  /** The 19 characters `YYYY-MM-DDTHH:MM:SS` that `strftime` and
      `isoformat` both write first. */
  function SecondsText(dt: Instant): (s: string)
    ensures |s| == 19
  {
    Pad(dt.year, 4) + "-" + Pad(dt.month, 2) + "-" + Pad(dt.day, 2)
      + "T" + Pad(dt.hour, 2) + ":" + Pad(dt.minute, 2) + ":" + Pad(dt.second, 2)
  }

  /** Reads `YYYY-MM-DDTHH:MM:SS` with the given sub-second part; `None`
      where `fromisoformat` raises `ValueError`. */
  function ParseSecondsText(s: string, micro: nat): (r: Option<Instant>)
    requires |s| == 19
    ensures r.Some? ==> r.value.microsecond == micro
  {
    if s[4] == '-' && s[7] == '-' && s[10] == 'T' && s[13] == ':' && s[16] == ':'
       && AllDigits(s[0..4]) && AllDigits(s[5..7]) && AllDigits(s[8..10])
       && AllDigits(s[11..13]) && AllDigits(s[14..16]) && AllDigits(s[17..19])
    then
      var dt := DateTime(
        DigitsValue(s[0..4]), DigitsValue(s[5..7]), DigitsValue(s[8..10]),
        DigitsValue(s[11..13]), DigitsValue(s[14..16]), DigitsValue(s[17..19]), micro);
      if Valid(dt) then Some(dt) else None
    else None
  }

  const UtcOffset := "+00:00"

  /** `datetime.fromisoformat` on the two forms `isoformat()` produces for
      an aware UTC value: `YYYY-MM-DDTHH:MM:SS+00:00` and
      `YYYY-MM-DDTHH:MM:SS.ffffff+00:00`. */
  function FromIsoFormat(s: string): Option<Instant>
  {
    if |s| == 25 && s[19..] == UtcOffset then
      ParseSecondsText(s[..19], 0)
    else if |s| == 32 && s[19] == '.' && AllDigits(s[20..26]) && s[26..] == UtcOffset then
      var micro := DigitsValue(s[20..26]);
      if micro < 1000000 then ParseSecondsText(s[..19], micro) else None
    else None
  }

  /** `s.replace("Z", "+00:00")`: every `Z`, not only the last. */
  function ReplaceZ(s: string): string
    decreases |s|
  {
    if |s| == 0 then ""
    else (if s[0] == 'Z' then UtcOffset else [s[0]]) + ReplaceZ(s[1..])
  }

  lemma {:induction false} ReplaceZAppend(a: string, b: string)
    ensures ReplaceZ(a + b) == ReplaceZ(a) + ReplaceZ(b)
    decreases |a|
  {
    if |a| > 0 {
      assert (a + b)[1..] == a[1..] + b;
      ReplaceZAppend(a[1..], b);
    } else {
      assert a + b == b;
    }
  }

  lemma {:induction false} ReplaceZNoZ(s: string)
    requires forall i | 0 <= i < |s| :: s[i] != 'Z'
    ensures ReplaceZ(s) == s
    decreases |s|
  {
    if |s| > 0 {
      ReplaceZNoZ(s[1..]);
    }
  }

  lemma SecondsTextHasNoZ(dt: Instant)
    ensures forall i | 0 <= i < 19 :: SecondsText(dt)[i] != 'Z'
  {
    var s := SecondsText(dt);
    forall i | 0 <= i < 19
      ensures s[i] != 'Z'
    {
      assert IsDigit(s[i]) || s[i] in "-T:";
    }
  }

  /** The fields of `SecondsText(dt)` sit where the parser reads them. */
  lemma SecondsTextFields(dt: Instant)
    ensures var s := SecondsText(dt);
      && s[0..4] == Pad(dt.year, 4) && s[4] == '-'
      && s[5..7] == Pad(dt.month, 2) && s[7] == '-'
      && s[8..10] == Pad(dt.day, 2) && s[10] == 'T'
      && s[11..13] == Pad(dt.hour, 2) && s[13] == ':'
      && s[14..16] == Pad(dt.minute, 2) && s[16] == ':'
      && s[17..19] == Pad(dt.second, 2)
  {
  }

  /** Reading back the seconds text gives the instant with the requested
      sub-second part. */
  lemma ParseSecondsTextRoundTrip(dt: Instant, micro: nat)
    requires micro < 1000000
    ensures ParseSecondsText(SecondsText(dt), micro) == Some(dt.(microsecond := micro))
  {
    var s := SecondsText(dt);
    SecondsTextFields(dt);
    PadValue(dt.year, 4);
    PadValue(dt.month, 2);
    PadValue(dt.day, 2);
    PadValue(dt.hour, 2);
    PadValue(dt.minute, 2);
    PadValue(dt.second, 2);
  }

  /** `fromisoformat` inverts the whole-second form ... */
  lemma FromIsoFormatSeconds(dt: Instant)
    ensures FromIsoFormat(SecondsText(dt) + UtcOffset) == Some(WholeSecond(dt))
  {
    var s := SecondsText(dt) + UtcOffset;
    assert s[..19] == SecondsText(dt);
    assert s[19..] == UtcOffset;
    ParseSecondsTextRoundTrip(dt, 0);
  }

  /** ... and the form with six fractional digits. */
  lemma FromIsoFormatMicros(dt: Instant)
    ensures FromIsoFormat(SecondsText(dt) + "." + Pad(dt.microsecond, 6) + UtcOffset) == Some(dt)
  {
    var s := SecondsText(dt) + "." + Pad(dt.microsecond, 6) + UtcOffset;
    assert s[..19] == SecondsText(dt);
    assert s[20..26] == Pad(dt.microsecond, 6);
    assert s[26..] == UtcOffset;
    PadValue(dt.microsecond, 6);
    ParseSecondsTextRoundTrip(dt, dt.microsecond);
    assert dt.(microsecond := dt.microsecond) == dt;
  }
}
