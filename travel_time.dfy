/**
 * `_parse_hhmmss_to_seconds`: free-text travel times to a count of seconds.
 * Sentinel text gives no value; an H:M:S pattern anywhere in the text wins;
 * failing that, 1 to 6 digits are left-padded to HHMMSS; anything else is
 * handed to `int(float(s))`, which the model keeps as a parameter.
 */
module TravelTime {
  import opened Wrappers
  import opened Text

  /** Lower-case texts read as "no value". */
  const Sentinels: set<string> := {"nan", "nat", "none"}

  /** The largest value any two-digit H, M and S fields can give. */
  const MaxClockSeconds: nat := 99 * 3600 + 99 * 60 + 99

  predicate IsBlank(s: string)
  {
    s == "" || Lower(s) in Sentinels
  }

  /** The sentinels have three or four letters and start with 'n'. */
  lemma SentinelLength(t: string)
    requires t in Sentinels
    ensures |t| == 3 || |t| == 4
    ensures t[0] == 'n'
  {
  }

  /** One field `\d{1,2}` that must be followed by ':', starting at `i`:
      its value and the index just after the ':'. The one- and two-digit
      readings exclude each other, so regex backtracking has no choice to make. */
  function LeadField(s: string, i: nat): (r: Option<(nat, nat)>)
    ensures r.Some? ==> r.value.0 <= 99 && i + 2 <= r.value.1 <= |s|
  {
    if i + 1 < |s| && IsDigit(s[i]) && s[i + 1] == ':' then Some((DigitValue(s[i]), i + 2))
    else if i + 2 < |s| && IsDigit(s[i]) && IsDigit(s[i + 1]) && s[i + 2] == ':' then
      Some((10 * DigitValue(s[i]) + DigitValue(s[i + 1]), i + 3))
    else None
  }

  /** The last field `\d{1,2}`, read greedily. */
  function LastField(s: string, i: nat): (r: Option<nat>)
    ensures r.Some? ==> r.value <= 99
  {
    if i < |s| && IsDigit(s[i]) then
      if i + 1 < |s| && IsDigit(s[i + 1]) then Some(10 * DigitValue(s[i]) + DigitValue(s[i + 1]))
      else Some(DigitValue(s[i]))
    else None
  }

  /** `(\d{1,2}):(\d{1,2}):(\d{1,2})` matched at position `i`: the three fields. */
  function MatchAt(s: string, i: nat): Option<(nat, nat, nat)>
  {
    match LeadField(s, i)
    case None => None
    case Some((h, j)) =>
      match LeadField(s, j)
      case None => None
      case Some((m, k)) =>
        match LastField(s, k)
        case None => None
        case Some(sec) => Some((h, m, sec))
  }

  /** `re.search`: the first match at or after `i`. */
  function Search(s: string, i: nat): Option<(nat, nat, nat)>
    decreases |s| - i
  {
    if i >= |s| then None
    else if MatchAt(s, i).Some? then MatchAt(s, i)
    else Search(s, i + 1)
  }

  predicate Leftmost(s: string, i: nat)
  {
    i < |s| && MatchAt(s, i).Some? && forall j :: 0 <= j < i ==> MatchAt(s, j).None?
  }

  /** The search returns the match at the leftmost position that has one. */
  lemma {:induction false} SearchFindsLeftmost(s: string, from: nat, i: nat)
    requires from <= i < |s| && MatchAt(s, i).Some?
    requires forall j :: from <= j < i ==> MatchAt(s, j).None?
    ensures Search(s, from) == MatchAt(s, i)
    decreases i - from
  {
    if from < i {
      SearchFindsLeftmost(s, from + 1, i);
    }
  }

  /** The search fails only when no position matches. */
  lemma {:induction false} SearchNone(s: string, from: nat)
    ensures Search(s, from).None? <==> forall j :: from <= j < |s| ==> MatchAt(s, j).None?
    decreases |s| - from
  {
    if from < |s| {
      SearchNone(s, from + 1);
    }
  }

  lemma {:induction false} SearchBounded(s: string, from: nat)
    ensures Search(s, from).Some? ==>
            Search(s, from).value.0 <= 99 && Search(s, from).value.1 <= 99 && Search(s, from).value.2 <= 99
    decreases |s| - from
  {
    if from < |s| && MatchAt(s, from).None? {
      SearchBounded(s, from + 1);
    }
  }

  /** `digits.zfill(6)`. */
  function ZFill6(d: string): (z: string)
    requires |d| <= 6
    ensures |z| == 6 && z[6 - |d|..] == d
    ensures forall i :: 0 <= i < 6 - |d| ==> z[i] == '0'
  {
    seq(6 - |d|, _ => '0') + d
  }

  /** The HHMMSS reading of six digits. */
  function Hhmmss(z: string): (secs: nat)
    requires |z| == 6 && forall i :: 0 <= i < 6 ==> IsDigit(z[i])
    ensures secs <= MaxClockSeconds
  {
    (10 * DigitValue(z[0]) + DigitValue(z[1])) * 3600
    + (10 * DigitValue(z[2]) + DigitValue(z[3])) * 60
    + (10 * DigitValue(z[4]) + DigitValue(z[5]))
  }

  /** How the text was read before the float fallback. */
  datatype Reading = Blank | Clock(seconds: nat) | Unrecognised(text: string)

  function Classify(x: Option<string>): (r: Reading)
    ensures r.Clock? ==> r.seconds <= MaxClockSeconds
    ensures x.None? ==> r == Blank
    ensures x.Some? ==> (r == Blank <==> IsBlank(Strip(x.value)))
    ensures r.Unrecognised? ==> r.text == Strip(x.value)
  {
    match x
    case None => Blank
    case Some(raw) =>
      var s := Strip(raw);
      if IsBlank(s) then Blank
      else
        SearchBounded(s, 0);
        match Search(s, 0)
        case Some((h, m, sec)) => Clock(h * 3600 + m * 60 + sec)
        case None =>
          var d := OnlyDigits(s);
          if 1 <= |d| <= 6 then Clock(Hhmmss(ZFill6(d))) else Unrecognised(s)
  }

  /** `_parse_hhmmss_to_seconds(x)`; `viaFloat` stands for `int(float(s))`
      with a failed conversion as None. */
  function ParseSeconds(x: Option<string>, viaFloat: string -> Option<int>): Option<int>
  {
    match Classify(x)
    case Blank => None
    case Clock(n) => Some(n)
    case Unrecognised(s) => viaFloat(s)
  }

  /** None, empty text and the sentinels in any letter case give no value. */
  lemma ParseBlank(x: Option<string>, viaFloat: string -> Option<int>)
    requires x.None? || IsBlank(Strip(x.value))
    ensures ParseSeconds(x, viaFloat).None?
  {
  }

  /** The leftmost H:M:S match decides the value. */
  lemma ParseLeftmostClock(raw: string, i: nat, viaFloat: string -> Option<int>)
    requires !IsBlank(Strip(raw)) && Leftmost(Strip(raw), i)
    ensures var t := MatchAt(Strip(raw), i).value;
            ParseSeconds(Some(raw), viaFloat) == Some(t.0 * 3600 + t.1 * 60 + t.2)
  {
    var s := Strip(raw);
    SearchFindsLeftmost(s, 0, i);
    var t := MatchAt(s, i).value;
    assert Search(s, 0) == Some(t);
    assert Classify(Some(raw)) == Clock(t.0 * 3600 + t.1 * 60 + t.2);
    ParseOfReading(Some(raw), viaFloat);
  }

  /** The parser answers what the reading says. */
  lemma ParseOfReading(x: Option<string>, viaFloat: string -> Option<int>)
    ensures Classify(x).Blank? ==> ParseSeconds(x, viaFloat).None?
    ensures Classify(x).Clock? ==> ParseSeconds(x, viaFloat) == Some(Classify(x).seconds)
    ensures Classify(x).Unrecognised? ==> ParseSeconds(x, viaFloat) == viaFloat(Classify(x).text)
  {
  }

  /** Without an H:M:S match, 1 to 6 digits are read as zero-padded HHMMSS,
      giving a value between 0 and MaxClockSeconds. */
  lemma ParseDigits(raw: string, viaFloat: string -> Option<int>)
    requires !IsBlank(Strip(raw))
    requires forall j :: 0 <= j < |Strip(raw)| ==> MatchAt(Strip(raw), j).None?
    requires 1 <= |OnlyDigits(Strip(raw))| <= 6
    ensures ParseSeconds(Some(raw), viaFloat) == Some(Hhmmss(ZFill6(OnlyDigits(Strip(raw)))))
    ensures 0 <= ParseSeconds(Some(raw), viaFloat).value <= MaxClockSeconds
  {
    SearchNone(Strip(raw), 0);
  }

  /** Everything else is the float conversion's answer. */
  lemma ParseFallsBack(raw: string, viaFloat: string -> Option<int>)
    ensures (&& !IsBlank(Strip(raw))
             && (forall j :: 0 <= j < |Strip(raw)| ==> MatchAt(Strip(raw), j).None?)
             && !(1 <= |OnlyDigits(Strip(raw))| <= 6)) ==>
              ParseSeconds(Some(raw), viaFloat) == viaFloat(Strip(raw))
  {
    SearchNone(Strip(raw), 0);
  }

  /** Text without a ':' never matches the H:M:S pattern. */
  lemma NoColonNoMatch(s: string)
    requires forall k :: 0 <= k < |s| ==> s[k] != ':'
    ensures forall j :: 0 <= j < |s| ==> MatchAt(s, j).None?
  {
  }

  lemma ExampleDigits(viaFloat: string -> Option<int>)
    ensures ParseSeconds(Some("013045"), viaFloat) == Some(5445)
  {
    var s := "013045";
    ExampleDigitsText(s);
    NoColonNoMatch(s);
    ParseDigits(s, viaFloat);
    ExampleDigitsValue(s);
  }

  lemma ExampleDigitsText(s: string)
    requires s == "013045"
    ensures Strip(s) == s && !IsBlank(s) && OnlyDigits(s) == s
    ensures forall k :: 0 <= k < |s| ==> s[k] != ':'
  {
    ExampleDigitsChars(s);
    assert TrimLeft(s) == s by { assert !IsSpace(s[0]); }
    assert TrimRight(s) == s by { assert !IsSpace(s[5]); }
    assert |Lower(s)| == 6;
    if Lower(s) in Sentinels {
      SentinelLength(Lower(s));
    }
    OnlyDigitsOfDigits(s);
  }

  lemma ExampleDigitsChars(s: string)
    requires s == "013045"
    ensures |s| == 6 && s[0] == '0' && s[5] == '5'
    ensures forall k :: 0 <= k < |s| ==> IsDigit(s[k])
  {
    assert s[0] == '0' && s[1] == '1' && s[2] == '3' && s[3] == '0' && s[4] == '4' && s[5] == '5';
  }

  lemma ExampleDigitsValue(s: string)
    requires s == "013045"
    ensures ZFill6(s) == s && Hhmmss(s) == 5445
  {
    assert ZFill6(s) == seq(0, _ => '0') + s;
    assert DigitValue(s[0]) == 0 && DigitValue(s[1]) == 1 && DigitValue(s[2]) == 3
        && DigitValue(s[3]) == 0 && DigitValue(s[4]) == 4 && DigitValue(s[5]) == 5;
  }

  lemma ExampleClock(viaFloat: string -> Option<int>)
    ensures ParseSeconds(Some("1:2:3"), viaFloat) == Some(3723)
  {
    var s := "1:2:3";
    assert TrimLeft(s) == s && TrimRight(s) == s;
    assert |Lower(s)| == 5;
    assert LeadField(s, 0) == Some((1, 2));
    assert LeadField(s, 2) == Some((2, 4));
    assert LastField(s, 4) == Some(3);
    assert Leftmost(s, 0);
    ParseLeftmostClock(s, 0, viaFloat);
  }

  /** Two-field text falls to the digit path: "1:30" is 00:01:30. */
  lemma ExampleShortClock(viaFloat: string -> Option<int>)
    ensures ParseSeconds(Some("1:30"), viaFloat) == Some(90)
  {
    var s := "1:30";
    ExampleShortText(s);
    ParseDigits(s, viaFloat);
    ExampleShortValue("130");
  }

  lemma ExampleShortText(s: string)
    requires s == "1:30"
    ensures Strip(s) == s && !IsBlank(s) && OnlyDigits(s) == "130"
    ensures forall j :: 0 <= j < |s| ==> MatchAt(s, j).None?
  {
    ExampleShortStrip(s);
    ExampleShortNoMatch(s);
    assert s[0] == '1' && s[1] == ':' && s[2] == '3' && s[3] == '0';
    ShortClockDigits(s);
  }

  lemma ExampleShortStrip(s: string)
    requires s == "1:30"
    ensures Strip(s) == s && !IsBlank(s)
  {
    assert s[0] == '1' && s[3] == '0';
    assert TrimLeft(s) == s by { assert !IsSpace(s[0]); }
    assert TrimRight(s) == s by { assert !IsSpace(s[3]); }
    assert Lower(s)[0] == '1';
    if Lower(s) in Sentinels {
      SentinelLength(Lower(s));
    }
  }

  lemma ExampleShortNoMatch(s: string)
    requires s == "1:30"
    ensures forall j :: 0 <= j < |s| ==> MatchAt(s, j).None?
  {
    forall j | 0 <= j < |s| ensures MatchAt(s, j).None? {
      assert LeadField(s, 2).None? && LeadField(s, 3).None?;
    }
  }

  /** A digit, a colon and two digits lose only the colon. */
  lemma ShortClockDigits(s: string)
    requires |s| == 4 && IsDigit(s[0]) && s[1] == ':' && IsDigit(s[2]) && IsDigit(s[3])
    ensures OnlyDigits(s) == [s[0], s[2], s[3]]
  {
    assert s[1..][1..] == s[2..];
    OnlyDigitsOfDigits(s[2..]);
  }

  lemma ExampleShortValue(d: string)
    requires d == "130"
    ensures ZFill6(d) == "000130" && Hhmmss(ZFill6(d)) == 90
  {
    var z := ZFill6(d);
    assert z == seq(3, _ => '0') + d;
    assert z[0] == '0' && z[1] == '0' && z[2] == '0' && z[3] == '1' && z[4] == '3' && z[5] == '0';
    assert DigitValue(z[3]) == 1 && DigitValue(z[4]) == 3;
  }

  lemma ExampleBlank(viaFloat: string -> Option<int>)
    ensures ParseSeconds(Some(""), viaFloat) == None
    ensures ParseSeconds(Some(" NaT "), viaFloat) == None
  {
    assert Strip("") == "";
    ParseBlank(Some(""), viaFloat);
    var s := " NaT ";
    ExampleNaTText(s);
    ParseBlank(Some(s), viaFloat);
  }

  lemma ExampleNaTText(s: string)
    requires s == " NaT "
    ensures IsBlank(Strip(s))
  {
    assert s[0] == ' ' && s[1] == 'N' && s[2] == 'a' && s[3] == 'T' && s[4] == ' ';
    PaddedStrip(s);
    var t := s[1..4];
    assert Lower(t) == ['n', 'a', 't'];
    assert ['n', 'a', 't'] == "nat";
  }

  /** One space on each side of a word is what `strip` removes. */
  lemma PaddedStrip(s: string)
    requires |s| >= 3 && s[0] == ' ' && s[|s| - 1] == ' ' && !IsSpace(s[1]) && !IsSpace(s[|s| - 2])
    ensures Strip(s) == s[1..|s| - 1]
  {
    assert TrimLeft(s[1..]) == s[1..];
    assert s[1..][..|s| - 2] == s[1..|s| - 1];
    assert TrimRight(s[1..|s| - 1]) == s[1..|s| - 1];
  }
}
