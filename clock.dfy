/**
 * The clock arithmetic both pages' `formatDuration` share, and its
 * inverse: reading an "M:SS" or "H:MM:SS" text back into seconds.
 */
module Clock {
  import opened Wrappers
  import opened Text

  /** The hours, minutes and seconds fields of a duration. */
  datatype Fields = Fields(hours: nat, minutes: nat, secs: nat)

  /**
   * Math.floor(seconds / 3600), Math.floor((seconds % 3600) / 60) and
   * Math.floor(seconds % 60) for whole seconds: the fields add back up to
   * the duration, and minutes and seconds stay below 60.
   */
  function DurationFields(seconds: nat): (f: Fields)
    ensures f.hours * 3600 + f.minutes * 60 + f.secs == seconds
    ensures f.minutes < 60 && f.secs < 60
    ensures f.hours > 0 <==> seconds >= 3600
  {
    FieldArithmetic(seconds);
    Fields(seconds / 3600, (seconds % 3600) / 60, seconds % 60)
  }

  /** Seconds within the hour split into whole minutes and the seconds within the minute. */
  lemma FieldArithmetic(seconds: nat)
    ensures (seconds / 3600) * 3600 + ((seconds % 3600) / 60) * 60 + seconds % 60 == seconds
    ensures (seconds % 3600) / 60 < 60
  {
    var h, r := seconds / 3600, seconds % 3600;
    var m, t := r / 60, r % 60;
    assert seconds == 60 * (60 * h + m) + t;
    assert seconds / 60 == 60 * h + m && seconds % 60 == t;
  }

  /** Splits a clock text on ':' and reads back the seconds of "M:SS" or "H:MM:SS". */
  function ParseDuration(text: string): Option<nat> {
    var parts := Split(text, ':');
    if |parts| == 2 then
      match (ParseNat(parts[0]), ParseNat(parts[1]))
      case (Some(m), Some(s)) => Some(m * 60 + s)
      case _ => None
    else if |parts| == 3 then
      match (ParseNat(parts[0]), ParseNat(parts[1]), ParseNat(parts[2]))
      case (Some(h), Some(m), Some(s)) => Some(h * 3600 + m * 60 + s)
      case _ => None
    else None
  }

  /** A digit string holds no ':'. */
  lemma DigitsHaveNoColon(s: string)
    requires AllDigits(s)
    ensures ':' !in s
  {
    forall k | 0 <= k < |s| ensures s[k] != ':' {
      assert IsDigit(s[k]);
    }
  }

  /** The text "M:SS" reads back as M * 60 + SS. */
  lemma {:induction false} ParseShort(m: nat, s: nat)
    requires s < 60
    ensures var text := NatToString(m) + ":" + PadStart2(NatToString(s));
      Split(text, ':') == [NatToString(m), PadStart2(NatToString(s))]
      && ParseDuration(text) == Some(m * 60 + s)
  {
    var a, b := NatToString(m), PadStart2(NatToString(s));
    PaddedPrinted(s);
    ParsePrinted(m);
    DigitsHaveNoColon(a);
    DigitsHaveNoColon(b);
    SplitJoin([a, b], ':');
    assert Join([a, b], [':']) == a + ":" + b by {
      assert Join([a, b][1..], [':']) == b;
    }
  }

  /** The text "H:MM:SS" reads back as H * 3600 + MM * 60 + SS. */
  lemma {:induction false} ParseLong(h: nat, m: nat, s: nat)
    requires m < 60 && s < 60
    ensures var text := NatToString(h) + ":" + PadStart2(NatToString(m)) + ":" + PadStart2(NatToString(s));
      Split(text, ':') == [NatToString(h), PadStart2(NatToString(m)), PadStart2(NatToString(s))]
      && ParseDuration(text) == Some(h * 3600 + m * 60 + s)
  {
    var a, b, c := NatToString(h), PadStart2(NatToString(m)), PadStart2(NatToString(s));
    PaddedPrinted(m);
    PaddedPrinted(s);
    ParsePrinted(h);
    DigitsHaveNoColon(a);
    DigitsHaveNoColon(b);
    DigitsHaveNoColon(c);
    SplitJoin([a, b, c], ':');
    assert Join([a, b, c], [':']) == a + ":" + b + ":" + c by {
      assert [a, b, c][1..] == [b, c];
      assert Join([b, c], [':']) == b + ":" + c by {
        assert Join([b, c][1..], [':']) == c;
      }
    }
  }
}
