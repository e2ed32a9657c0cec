/**
 * The natural names of the sequencing models: coercion of control labels,
 * `SequencingRun` names `serial-number`, and `ASV` names `ASV` plus a
 * zero-filled number, with the lookups that read them back.
 */
module SeqNames {
  import opened Basics
  import opened PyStr

  /** `Sequencing.CONTROL_CHOICES`, in declaration order. */
  const ControlChoices: seq<string> := ["mock", "water", "blank", "plate", "other"]

  /** The position of the first control choice occurring in `t`, `|choices|`
      if none does. */
  function FirstChoice(t: string, choices: seq<string>): (k: nat)
    ensures k <= |choices|
    ensures k < |choices| ==> Contains(t, choices[k])
    ensures forall i :: 0 <= i < k ==> !Contains(t, choices[i])
  {
    if |choices| == 0 then 0
    else if Contains(t, choices[0]) then 0
    else 1 + FirstChoice(t, choices[1..])
  }

  /** `Sequencing.parse_control(txt)`: blank text gives `''`; otherwise the
      first choice occurring in the lower-cased text, else `other`. */
  function ParseControl(txt: string): (r: string)
    ensures r == "" <==> Strip(txt) == ""
    ensures r == "" || r in ControlChoices
    ensures r != "" ==>
              var k := FirstChoice(Lower(Strip(txt)), ControlChoices);
              && (k < |ControlChoices| ==> r == ControlChoices[k])
              && (k == |ControlChoices| ==> r == "other")
  {
    var choice := Lower(Strip(txt));
    if |choice| > 0 then ChoiceIn(choice) else ""
  }

  /** The first control choice occurring in `t`, else `other`. */
  function ChoiceIn(t: string): (r: string)
    ensures r in ControlChoices && r != ""
    ensures var k := FirstChoice(t, ControlChoices);
            && (k < |ControlChoices| ==> r == ControlChoices[k])
            && (k == |ControlChoices| ==> r == "other")
  {
    var k := FirstChoice(t, ControlChoices);
    if k < |ControlChoices| then
      ChoiceLetters(k);
      ControlChoices[k]
    else "other"
  }

  /** A text whose first character does not occur in `s` does not occur in `s`. */
  lemma {:induction false} NotContainsFirst(s: string, sub: string)
    requires |sub| > 0 && sub[0] !in s
    ensures !Contains(s, sub)
    decreases |s|
  {
    if |s| > 0 {
      NotContainsFirst(s[1..], sub);
    }
  }

  /** Each control choice is found at its own position: it contains itself and
      none of the choices listed before it. */
  lemma ChoiceSelfFirst(i: nat)
    requires i < |ControlChoices|
    ensures FirstChoice(ControlChoices[i], ControlChoices) == i
  {
    var c := ControlChoices;
    ContainsAt(c[i], c[i], 0);
    forall j | 0 <= j < i ensures !Contains(c[i], c[j]) {
      assert c[j][0] !in c[i];
      NotContainsFirst(c[i], c[j]);
    }
  }

  /** Each control choice coerces to itself. */
  lemma ChoiceFixed(i: nat)
    requires i < |ControlChoices|
    ensures ParseControl(ControlChoices[i]) == ControlChoices[i]
  {
    var c := ControlChoices[i];
    ChoiceLetters(i);
    assert !IsSpace(c[0]) && !IsSpace(c[|c| - 1]);
    StripUnchanged(c);
    LowerNoUpper(c);
    ChoiceSelfFirst(i);
  }

  /** The control choices are spelled in lower-case letters. */
  lemma ChoiceLetters(i: nat)
    requires i < |ControlChoices|
    ensures |ControlChoices[i]| > 0
    ensures forall j :: 0 <= j < |ControlChoices[i]| ==> 'a' <= ControlChoices[i][j] <= 'z'
  {
    var c := ControlChoices[i];
    if i == 0 { assert c == "mock"; }
    else if i == 1 { assert c == "water"; }
    else if i == 2 { assert c == "blank"; }
    else if i == 3 { assert c == "plate"; }
    else { assert c == "other"; }
  }

  lemma LowerNoUpper(s: string)
    requires forall i :: 0 <= i < |s| ==> 'a' <= s[i] <= 'z'
    ensures Lower(s) == s
  {
  }

  /** Coercing a coerced value changes nothing. */
  lemma ParseControlIdempotent(txt: string)
    ensures ParseControl(ParseControl(txt)) == ParseControl(txt)
  {
    var r := ParseControl(txt);
    if r != "" {
      var i :| 0 <= i < |ControlChoices| && ControlChoices[i] == r;
      ChoiceFixed(i);
    } else {
      assert Strip(r) == "";
    }
  }

  /** `SequencingRun.natural`: the serial and the number joined by `-`. */
  function RunNatural(serial: string, number: nat): (r: string)
    // the name splits at `-` into the serial and the number's digits, unless
    // the serial holds a `-` of its own
    ensures '-' !in serial ==> Split(r, '-') == [serial, NatToStr(number)]
    ensures '-' in serial ==> |Split(r, '-')| > 2
  {
    var d := NatToStr(number);
    assert '-' !in d by {
      assert forall i :: 0 <= i < |d| ==> IsDigit(d[i]);
    }
    NameSplits(serial, d);
    serial + "-" + d
  }

  /** Joining two parts with a `-` that only the join adds splits back into them. */
  lemma NameSplits(serial: string, d: string)
    requires '-' !in d
    ensures '-' !in serial ==> Split(serial + "-" + d, '-') == [serial, d]
    ensures '-' in serial ==> |Split(serial + "-" + d, '-')| > 2
  {
    if '-' !in serial {
      assert Join([serial, d], '-') == serial + "-" + d;
      SplitJoin([serial, d], '-');
    } else {
      SplitCount(serial + "-" + d, '-');
      CountConcat(serial + "-", d, '-');
      CountConcat(serial, "-", '-');
    }
  }

  /** `SequencingRun.natural_lookup(value)`: exactly one `-`, and an integer
      after it; `None` for the `ValueError` cases. */
  function RunNaturalLookup(value: string): (r: Option<(string, int)>)
    ensures r.Some? ==> |Split(value, '-')| == 2 && r.value.0 == Split(value, '-')[0]
                        && ParseInt(Split(value, '-')[1]) == Some(r.value.1)
    ensures |Split(value, '-')| != 2 ==> r.None?
    ensures |Split(value, '-')| == 2 && ParseInt(Split(value, '-')[1]).Some? ==> r.Some?
  {
    var parts := Split(value, '-');
    if |parts| != 2 then None
    else
      match ParseInt(parts[1])
      case None => None
      case Some(n) => Some((parts[0], n))
  }

  /** A run's name reads back as its serial and number when the serial has no `-`. */
  lemma RunNaturalRoundTrip(serial: string, number: nat)
    requires '-' !in serial
    ensures RunNaturalLookup(RunNatural(serial, number)) == Some((serial, number))
  {
    IntToStrRoundTrip(number);
  }

  /** A serial holding `-` does not survive: its name splits into more than two parts. */
  lemma RunSerialWithDash(serial: string, number: nat)
    requires '-' in serial
    ensures RunNaturalLookup(RunNatural(serial, number)).None?
  {
  }

  /** `ASV.natural`: a text name, or the primary key itself. */
  datatype Natural = Text(s: string) | Pk(pk: nat)

  const AsvPrefix := "ASV"
  const AsvWidth := 5

  /** `ASV.natural`: `ASV` and the zero-filled number when the number is set and
      non-zero, else the primary key. */
  function AsvNatural(number: Option<nat>, pk: nat): (r: Natural)
    ensures r.Pk? <==> number.None? || number.value == 0
    ensures r.Pk? ==> r.pk == pk
    ensures r.Text? ==> StartsWith(r.s, AsvPrefix) && AllDigits(r.s[3..])
    // the number's digits, zero-filled to at least five
    ensures r.Text? ==> |r.s| == 3 + (if |NatToStr(number.value)| >= AsvWidth then |NatToStr(number.value)| else AsvWidth)
                        && DigitsValue(r.s[3..]) == number.value
  {
    if number.Some? && number.value != 0 then
      var d := ZFill(NatToStr(number.value), AsvWidth);
      ZFillDigits(NatToStr(number.value), AsvWidth);
      NatToStrValue(number.value);
      assert (AsvPrefix + d)[3..] == d;
      Text(AsvPrefix + d)
    else Pk(pk)
  }

  /** `ASV.natural_lookup(value)`: `int` of everything after the first three
      characters; the prefix itself is not checked. */
  function AsvNaturalLookup(value: string): (r: Option<int>)
    ensures |value| <= 3 ==> r.None?
    ensures |value| > 3 ==> r == ParseInt(value[3..])
  {
    ParseInt(if |value| >= 3 then value[3..] else "")
  }

  /** Looking up an ASV's name gives back its number. */
  lemma AsvNaturalRoundTrip(number: nat, pk: nat)
    requires number > 0
    ensures AsvNatural(Some(number), pk).Text?
    ensures AsvNaturalLookup(AsvNatural(Some(number), pk).s) == Some(number)
  {
    var d := ZFill(NatToStr(number), AsvWidth);
    ZFillDigits(NatToStr(number), AsvWidth);
    NatToStrValue(number);
    var s := AsvNatural(Some(number), pk).s;
    assert s == AsvPrefix + d;
    assert s[3..] == d;
    ParseDigits(d);
  }

  /** Any three leading characters are accepted: `XYZ42` reads as 42. */
  lemma AsvLookupIgnoresPrefix()
    ensures AsvNaturalLookup("XYZ42") == Some(42)
  {
    var d := "42";
    assert "XYZ42"[3..] == d;
    assert AllDigits(d) by {
      assert IsDigit(d[0]) && IsDigit(d[1]);
    }
    assert DigitsValue(d) == 42 by {
      assert d[..1] == "4" && "4"[..0] == "";
      assert DigitsValue("4") == 4;
    }
    ParseDigits(d);
  }
}
