/**
 The schedule-rule evaluator, `TaskScheduler.should_run_task`.

 A schedule string is lower-cased (never trimmed) and then read as one of
 three forms: `everyday`, `every <dayname>` or `days:<int>,<int>,...`.
 Any other string never fires and raises nothing. The only failure is an
 integer token after `days:` that `int()` rejects; it is raised whatever the
 date is.

 The model reads the string into a `Rule` and then evaluates the rule on a
 date; `task_scheduler.py` does both in one pass, with the same branches.
 */
module Schedule {
  import opened Outcomes
  import opened Strings
  import opened IntLiterals
  import opened Calendar

  const EverydayText: string := "everyday"
  const EveryPrefix: string := "every "
  const DaysPrefix: string := "days:"

  /** A schedule string once read. */
  datatype Rule =
    | Everyday
    /** The text between the first and the second `every `, compared verbatim with the day's name. */
    | Weekly(dayName: string)
    /** The listed days of the month, in the order written. */
    | MonthDays(days: seq<int>)
    /** Any other string: it never fires. */
    | Inert

  /** `int(d.strip())` for one token `d` of a `days:` list. */
  function DayValue(token: string): Result<int> {
    ParseInt(Strip(token))
  }

  /** `[int(d.strip()) for d in tokens]`, raising at the first bad token. */
  function ParseDays(tokens: seq<string>): (r: Result<seq<int>>)
    ensures r.Ok? <==> forall i :: 0 <= i < |tokens| ==> ParseInt(Strip(tokens[i])).Ok?
    ensures r.Ok? ==> |r.value| == |tokens|
    ensures r.Ok? ==> forall i :: 0 <= i < |tokens| ==> ParseInt(Strip(tokens[i])) == Ok(r.value[i])
    ensures r.Err? ==> exists i :: && 0 <= i < |tokens|
                                   && ParseInt(Strip(tokens[i])) == Err(r.error)
                                   && forall j :: 0 <= j < i ==> ParseInt(Strip(tokens[j])).Ok?
    ensures r.Err? ==> r.error.InvalidLiteral?
  {
    var r := MapResult(tokens, DayValue);
    if r.Ok? then r else MapResultFirstError(tokens, DayValue); r
  }

  /** The text of a weekly rule: what `split('every ')[1]` returns. */
  function WeeklySegment(s: string): string
    requires StartsWith(s, EveryPrefix)
  {
    assert OccursAt(s, EveryPrefix, 0);
    Split(s, EveryPrefix)[1]
  }

  /** Reads a schedule string the way `should_run_task` branches on it. */
  function ParseRule(schedule: string): Result<Rule> {
    var s := Lower(schedule);
    if s == EverydayText then Ok(Everyday)
    else if StartsWith(s, EveryPrefix) then Ok(Weekly(WeeklySegment(s)))
    else if StartsWith(s, DaysPrefix) then
      var days :- ParseDays(Split(s[|DaysPrefix|..], ","));
      Ok(MonthDays(days))
    else Ok(Inert)
  }

  /** Whether a rule fires on a date. */
  predicate Fires(rule: Rule, d: Date) {
    match rule
    case Everyday => true
    case Weekly(name) => DayNames[Weekday(d)] == name
    case MonthDays(days) => DayOfMonth(d) in days
    case Inert => false
  }

  /** The tokens of a `days:` list, as `schedule[5:].split(',')` returns them. */
  function DayTokens(s: string): seq<string>
    requires StartsWith(s, DaysPrefix)
  {
    Split(s[|DaysPrefix|..], ",")
  }

  /** What the `days:` branch computes, stated token by token. */
  lemma DaysFormMeaning(s: string, d: Date)
    requires StartsWith(s, DaysPrefix)
    ensures var toks := DayTokens(s);
      && (ParseDays(toks).Err? <==> exists i :: 0 <= i < |toks| && ParseInt(Strip(toks[i])).Err?)
      && (ParseDays(toks).Ok? ==>
            (DayOfMonth(d) in ParseDays(toks).value <==>
               exists i :: 0 <= i < |toks| && ParseInt(Strip(toks[i])) == Ok(DayOfMonth(d))))
  {
    var toks := DayTokens(s);
    var p := ParseDays(toks);
    if p.Ok? {
      if DayOfMonth(d) in p.value {
        var k :| 0 <= k < |p.value| && p.value[k] == DayOfMonth(d);
        assert ParseInt(Strip(toks[k])) == Ok(DayOfMonth(d));
      }
    }
  }

  /** The `days:` branch of the evaluator in terms of the tokens. */
  lemma DaysRuleMeaning(schedule: string, d: Date)
    ensures var s := Lower(schedule);
      !StartsWith(s, EveryPrefix) && StartsWith(s, DaysPrefix) ==>
        var r := ParseRule(schedule);
        && (r.Err? <==> exists i :: 0 <= i < |DayTokens(s)| && ParseInt(Strip(DayTokens(s)[i])).Err?)
        && (r.Ok? ==> (Fires(r.value, d) <==> exists i :: 0 <= i < |DayTokens(s)| && ParseInt(Strip(DayTokens(s)[i])) == Ok(DayOfMonth(d))))
  {
    var s := Lower(schedule);
    if !StartsWith(s, EveryPrefix) && StartsWith(s, DaysPrefix) {
      assert s != EverydayText by {
        assert s[0] == 'd';
      }
      DaysFormMeaning(s, d);
      var p := ParseDays(DayTokens(s));
      assert ParseRule(schedule) == if p.Ok? then Ok(MonthDays(p.value)) else Err(p.error);
    }
  }

  /**
   `should_run_task(schedule, d)`. Stated on the lower-cased string: it
   fires on every date for `everyday`; for a string starting `every ` it
   fires exactly on the day whose name is the weekly segment; for a string
   starting `days:` it raises iff some token is not an integer literal and
   otherwise fires iff the day of the month is the value of some token;
   anything else never fires, and only the `days:` form ever raises.
   */
  function ShouldRunTask(schedule: string, d: Date): (r: Result<bool>)
    ensures Lower(schedule) == EverydayText ==> r == Ok(true)
    ensures var s := Lower(schedule);
      s != EverydayText && StartsWith(s, EveryPrefix) ==>
        r == Ok(DayNames[Weekday(d)] == WeeklySegment(s))
    ensures var s := Lower(schedule);
      !StartsWith(s, EveryPrefix) && StartsWith(s, DaysPrefix) ==>
        && (r.Err? <==> exists i :: 0 <= i < |DayTokens(s)| && ParseInt(Strip(DayTokens(s)[i])).Err?)
        && (r.Ok? ==> (r.value <==> exists i :: 0 <= i < |DayTokens(s)| && ParseInt(Strip(DayTokens(s)[i])) == Ok(DayOfMonth(d))))
    ensures var s := Lower(schedule);
      s != EverydayText && !StartsWith(s, EveryPrefix) && !StartsWith(s, DaysPrefix) ==> r == Ok(false)
    ensures r.Err? ==> StartsWith(Lower(schedule), DaysPrefix) && r.error.InvalidLiteral?
  {
    DaysRuleMeaning(schedule, d);
    var rule :- ParseRule(schedule);
    Ok(Fires(rule, d))
  }

  /**
   The weekly segment is the text after the leading `every ` up to the next
   `every `, or to the end of the string when there is none.
   */
  lemma WeeklySegmentBetween(s: string)
    requires StartsWith(s, EveryPrefix)
    ensures IsLeadingSegment(s[|EveryPrefix|..], EveryPrefix, WeeklySegment(s))
  {
    SecondPartAfterLeadingSeparator(s, EveryPrefix);
  }

  /** `every <day>` fires exactly on that weekday, whatever the case of the letters. */
  lemma WeeklyFiresOnItsDay(schedule: string, k: nat, d: Date)
    requires k < 7 && Lower(schedule) == EveryPrefix + DayNames[k]
    ensures ShouldRunTask(schedule, d) == Ok(Weekday(d) == k)
  {
    var s := Lower(schedule);
    DayNamesFacts();
    assert s[..|EveryPrefix|] == EveryPrefix;
    assert s != EverydayText by { assert s[5] != EverydayText[5]; }
    SplitLeadingSeparator(s, EveryPrefix);
    assert s[|EveryPrefix|..] == DayNames[k];
    MissingCharNotContained(DayNames[k], EveryPrefix, 5);
    SplitWithoutSeparator(DayNames[k], EveryPrefix);
  }

  /** A weekly rule whose segment names no weekday never fires. */
  lemma UnknownDayNeverFires(schedule: string, d: Date)
    requires StartsWith(Lower(schedule), EveryPrefix)
    requires WeeklySegment(Lower(schedule)) !in DayNames
    ensures ShouldRunTask(schedule, d) == Ok(false)
  {
    var s := Lower(schedule);
    assert s != EverydayText by { assert s[5] != EverydayText[5]; }
  }

  /** Whitespace has no upper-case letters. */
  lemma LowerOfSpaces(pad: string)
    requires forall i :: 0 <= i < |pad| ==> IsSpace(pad[i])
    ensures Lower(pad) == pad
  {
    LowerUnchanged(pad);
  }

  /** No `every ` starts inside a day name followed by whitespace. */
  lemma {:induction false} NoEveryInPaddedName(t: string, k: nat, pad: string)
    requires k < 7
    requires forall i :: 0 <= i < |pad| ==> IsSpace(pad[i])
    requires |DayNames[k]| + |pad| <= |t| && t[..|DayNames[k]| + |pad|] == DayNames[k] + pad
    ensures forall j :: 0 <= j < |DayNames[k]| + |pad| ==> !OccursAt(t, EveryPrefix, j)
  {
    DayNamesFacts();
    var name := DayNames[k];
    var m := |name| + |pad|;
    var n := |EveryPrefix|;
    forall j | 0 <= j < m ensures !OccursAt(t, EveryPrefix, j) {
      if j + 1 < m {
        assert t[j + 1] != 'v' by {
          assert t[j + 1] == (name + pad)[j + 1];
          if j + 1 < |name| {
            assert t[j + 1] == name[j + 1];
          } else {
            assert t[j + 1] == pad[j + 1 - |name|];
          }
        }
        if j + n <= |t| { assert t[j..j + n][1] == t[j + 1]; }
      } else {
        assert t[j] != 'e' by {
          assert t[j] == (name + pad)[j];
          if |pad| > 0 {
            assert t[j] == pad[|pad| - 1];
          } else {
            assert t[j] == name[|name| - 1];
          }
        }
        if j + n <= |t| { assert t[j..j + n][0] == t[j]; }
      }
    }
  }

  lemma {:induction false} LowerOfWeeklyText(k: nat, pad: string, rest: string)
    requires k < 7
    requires forall i :: 0 <= i < |pad| ==> IsSpace(pad[i])
    ensures Lower(EveryPrefix + DayNames[k] + pad + EveryPrefix + rest)
         == EveryPrefix + (DayNames[k] + pad + EveryPrefix + Lower(rest))
  {
    DayNamesFacts();
    var name := DayNames[k];
    LowerConcat(EveryPrefix + name + pad + EveryPrefix, rest);
    LowerConcat(EveryPrefix + name + pad, EveryPrefix);
    LowerConcat(EveryPrefix + name, pad);
    LowerConcat(EveryPrefix, name);
    LowerUnchanged(EveryPrefix);
    LowerUnchanged(name);
    LowerOfSpaces(pad);
  }

  /** The weekly segment of `every <day><pad>every <rest>` is `<day><pad>`. */
  lemma {:induction false} SegmentOfWeeklyText(k: nat, pad: string, rest: string)
    requires k < 7
    requires forall i :: 0 <= i < |pad| ==> IsSpace(pad[i])
    ensures StartsWith(EveryPrefix + (DayNames[k] + pad + EveryPrefix + rest), EveryPrefix)
    ensures WeeklySegment(EveryPrefix + (DayNames[k] + pad + EveryPrefix + rest)) == DayNames[k] + pad
  {
    var name := DayNames[k];
    var t := name + pad + EveryPrefix + rest;
    var s := EveryPrefix + t;
    var n := |EveryPrefix|;
    var m := |name| + |pad|;
    assert s[..n] == EveryPrefix;
    assert s[n..] == t;
    assert t[m..m + n] == EveryPrefix;
    assert t[..m] == name + pad;
    NoEveryInPaddedName(t, k, pad);
    SplitLeadingSeparator(s, EveryPrefix);
    SplitFirstPart(t, EveryPrefix, m);
  }

  /**
   Text after a second `every ` is cut off: `every <day><pad>every <rest>`
   fires on that weekday when `pad` is empty and never when `pad` is
   whitespace, as in `every monday every friday`.
   */
  lemma {:induction false} WeeklyStopsAtSecondEvery(k: nat, pad: string, rest: string, d: Date)
    requires k < 7
    requires forall i :: 0 <= i < |pad| ==> IsSpace(pad[i])
    ensures ShouldRunTask(EveryPrefix + DayNames[k] + pad + EveryPrefix + rest, d)
         == Ok(pad == [] && Weekday(d) == k)
  {
    var s := Lower(EveryPrefix + DayNames[k] + pad + EveryPrefix + rest);
    LowerOfWeeklyText(k, pad, rest);
    SegmentOfWeeklyText(k, pad, Lower(rest));
    assert s != EverydayText by { assert s[5] != EverydayText[5]; }
    PaddedDayName(k, pad, Weekday(d));
  }

  /** A day name followed by whitespace is a day name only when nothing follows. */
  lemma PaddedDayName(k: nat, pad: string, w: nat)
    requires k < 7 && w < 7
    requires forall i :: 0 <= i < |pad| ==> IsSpace(pad[i])
    ensures DayNames[w] == DayNames[k] + pad <==> pad == [] && w == k
  {
    var seg := DayNames[k] + pad;
    DayNamesFacts();
    if |pad| > 0 {
      assert seg[|seg| - 1] != 'y';
    } else {
      assert seg == DayNames[k];
    }
  }

  /** The weekly segment of `every <day><pad>` is `<day><pad>`. */
  lemma {:induction false} SegmentOfPaddedName(k: nat, pad: string)
    requires k < 7
    requires forall i :: 0 <= i < |pad| ==> IsSpace(pad[i])
    ensures StartsWith(EveryPrefix + (DayNames[k] + pad), EveryPrefix)
    ensures WeeklySegment(EveryPrefix + (DayNames[k] + pad)) == DayNames[k] + pad
  {
    var t := DayNames[k] + pad;
    var s := EveryPrefix + t;
    assert s[..|EveryPrefix|] == EveryPrefix;
    assert s[|EveryPrefix|..] == t;
    assert t[..|t|] == t;
    NoEveryInPaddedName(t, k, pad);
    assert !Contains(t, EveryPrefix);
    SplitWithoutSeparator(t, EveryPrefix);
    SplitLeadingSeparator(s, EveryPrefix);
  }

  /** Leading whitespace keeps a schedule from matching any of the three forms. */
  lemma LeadingSpaceDefeatsRule(schedule: string, d: Date)
    ensures |schedule| > 0 && IsSpace(schedule[0]) ==> ShouldRunTask(schedule, d) == Ok(false)
  {
    if |schedule| > 0 && IsSpace(schedule[0]) {
      var s := Lower(schedule);
      assert s[0] == schedule[0];
      assert s != EverydayText by { assert s[0] != EverydayText[0]; }
      assert !StartsWith(s, EveryPrefix) by { assert EveryPrefix[0] != s[0]; }
      assert !StartsWith(s, DaysPrefix) by { assert DaysPrefix[0] != s[0]; }
    }
  }

  /** `everyday` followed by whitespace, in any letter case, is inert. */
  lemma TrailingSpaceDefeatsEveryday(schedule: string, pad: string, d: Date)
    requires |pad| > 0
    requires forall i :: 0 <= i < |pad| ==> IsSpace(pad[i])
    ensures Lower(schedule) == EverydayText + pad ==> ShouldRunTask(schedule, d) == Ok(false)
  {
    var s := Lower(schedule);
    if s == EverydayText + pad {
      assert s[5] == 'd' && s[0] == 'e';
      assert s != EverydayText;
      assert !StartsWith(s, EveryPrefix) by { assert s[5] != EveryPrefix[5]; }
      assert !StartsWith(s, DaysPrefix) by { assert s[0] != DaysPrefix[0]; }
    }
  }

  /** `every <day>` followed by whitespace, in any letter case, never fires. */
  lemma TrailingSpaceDefeatsWeekly(schedule: string, k: nat, pad: string, d: Date)
    requires k < 7
    requires |pad| > 0
    requires forall i :: 0 <= i < |pad| ==> IsSpace(pad[i])
    ensures Lower(schedule) == EveryPrefix + DayNames[k] + pad ==> ShouldRunTask(schedule, d) == Ok(false)
  {
    var s := Lower(schedule);
    if s == EveryPrefix + DayNames[k] + pad {
      assert s == EveryPrefix + (DayNames[k] + pad);
      SegmentOfPaddedName(k, pad);
      assert s != EverydayText by { assert s[5] != EverydayText[5]; }
      assert ShouldRunTask(schedule, d) == Ok(DayNames[Weekday(d)] == WeeklySegment(s));
      PaddedDayName(k, pad, Weekday(d));
    }
  }

  /**
   The schedule string is not trimmed: whitespace before any rule, or any
   non-empty run of whitespace after `everyday` or after `every <day>`,
   makes it never fire, and never raise.
   */
  lemma SurroundingSpaceDefeatsRule(schedule: string, k: nat, pad: string, d: Date)
    requires k < 7
    requires |pad| > 0
    requires forall i :: 0 <= i < |pad| ==> IsSpace(pad[i])
    ensures |schedule| > 0 && IsSpace(schedule[0]) ==> ShouldRunTask(schedule, d) == Ok(false)
    ensures Lower(schedule) == EverydayText + pad ==> ShouldRunTask(schedule, d) == Ok(false)
    ensures Lower(schedule) == EveryPrefix + DayNames[k] + pad ==> ShouldRunTask(schedule, d) == Ok(false)
  {
    LeadingSpaceDefeatsRule(schedule, d);
    TrailingSpaceDefeatsEveryday(schedule, pad, d);
    TrailingSpaceDefeatsWeekly(schedule, k, pad, d);
  }

  /** Whether the evaluator raises does not depend on the date, nor does the error. */
  lemma ErrorIgnoresDate(schedule: string, d1: Date, d2: Date)
    ensures ShouldRunTask(schedule, d1).Err? <==> ShouldRunTask(schedule, d2).Err?
    ensures ShouldRunTask(schedule, d1).Err? ==> ShouldRunTask(schedule, d1).error == ShouldRunTask(schedule, d2).error
  {
  }

  /** The evaluator sees the date only through its weekday and its day of the month. */
  lemma ShouldRunTaskSameDay(schedule: string, d1: Date, d2: Date)
    ensures Weekday(d1) == Weekday(d2) && DayOfMonth(d1) == DayOfMonth(d2) ==>
      ShouldRunTask(schedule, d1) == ShouldRunTask(schedule, d2)
  {
  }

  /** The canonical text of a rule: the inverse of `ParseRule`. */
  function RuleText(rule: Rule): string {
    match rule
    case Everyday => EverydayText
    case Weekly(name) => EveryPrefix + name
    case MonthDays(days) => DaysPrefix + Join(IntTexts(days), ",")
    case Inert => ""
  }

  /** `str(n)` of each day. */
  function IntTexts(days: seq<int>): (texts: seq<string>)
    ensures |texts| == |days|
  {
    seq(|days|, i requires 0 <= i < |days| => IntToString(days[i]))
  }

  /**
   The rules a schedule string can spell: a weekly day name written in lower
   case and without a second `every `, and a non-empty `days:` list.
   */
  ghost predicate Spellable(rule: Rule) {
    match rule
    case Weekly(name) => (forall i :: 0 <= i < |name| ==> !IsUpper(name[i])) && !Contains(name, EveryPrefix)
    case MonthDays(days) => |days| > 0
    case _ => true
  }

  /** A token written by `str(n)` reads back as `n`. */
  lemma ParseIntText(n: int)
    ensures ParseInt(Strip(IntToString(n))) == Ok(n)
  {
    IntToStringChars(n);
    ParseIntToString(n);
  }

  /** Tokens that each read as the matching day read as the whole list. */
  lemma {:induction false} ParseDaysOfValues(days: seq<int>, texts: seq<string>)
    requires |texts| == |days|
    requires forall i :: 0 <= i < |days| ==> ParseInt(Strip(texts[i])) == Ok(days[i])
    ensures ParseDays(texts) == Ok(days)
  {
    var r := ParseDays(texts);
    assert r.Ok?;
    forall i | 0 <= i < |days| ensures r.value[i] == days[i] {
      assert ParseInt(Strip(texts[i])) == Ok(r.value[i]);
    }
    assert r.value == days;
  }

  /** The `days:` text of a list reads back as that list. */
  lemma {:induction false} ParseDaysOfTexts(days: seq<int>)
    ensures ParseDays(IntTexts(days)) == Ok(days)
  {
    var texts := IntTexts(days);
    forall i | 0 <= i < |days| ensures ParseInt(Strip(texts[i])) == Ok(days[i]) {
      ParseIntText(days[i]);
    }
    ParseDaysOfValues(days, texts);
  }

  /** A weekly rule's text reads back as that rule. */
  lemma ParseWeeklyText(name: string)
    requires Spellable(Weekly(name))
    ensures ParseRule(RuleText(Weekly(name))) == Ok(Weekly(name))
  {
    var s := EveryPrefix + name;
    LowerUnchanged(s);
    assert s != EverydayText by { assert s[5] != EverydayText[5]; }
    assert s[..|EveryPrefix|] == EveryPrefix;
    SplitLeadingSeparator(s, EveryPrefix);
    assert s[|EveryPrefix|..] == name;
    SplitWithoutSeparator(name, EveryPrefix);
  }

  /** The text of a day list has no upper-case letter. */
  lemma DaysTextHasNoUpper(days: seq<int>)
    ensures forall k :: 0 <= k < |RuleText(MonthDays(days))| ==> !IsUpper(RuleText(MonthDays(days))[k])
  {
    var s := RuleText(MonthDays(days));
    var texts := IntTexts(days);
    var joined := Join(texts, ",");
    forall k | 0 <= k < |joined| ensures !IsUpper(joined[k]) {
      JoinChars(texts, ",", k);
      if joined[k] !in "," {
        var i :| 0 <= i < |texts| && joined[k] in texts[i];
        IntToStringChars(days[i]);
      }
    }
    forall k | 0 <= k < |s| ensures !IsUpper(s[k]) {
      if k >= |DaysPrefix| {
        assert s[k] == joined[k - |DaysPrefix|];
      }
    }
  }

  /** A non-empty day list's text reads back as that list. */
  lemma ParseDaysText(days: seq<int>)
    requires |days| > 0
    ensures ParseRule(RuleText(MonthDays(days))) == Ok(MonthDays(days))
  {
    var s := RuleText(MonthDays(days));
    var texts := IntTexts(days);
    var joined := Join(texts, ",");
    forall i | 0 <= i < |texts| ensures ',' !in texts[i] {
      IntToStringHasNoComma(days[i]);
    }
    DaysTextHasNoUpper(days);
    LowerUnchanged(s);
    assert s != EverydayText by { assert s[0] != EverydayText[0]; }
    assert !StartsWith(s, EveryPrefix) by { assert s[0] != EveryPrefix[0]; }
    assert s[..|DaysPrefix|] == DaysPrefix;
    assert s[|DaysPrefix|..] == joined;
    SplitJoinChar(texts, ',');
    ParseDaysOfTexts(days);
  }

  /** Reading a rule's canonical text gives the rule back. */
  lemma ParseRuleText(rule: Rule)
    requires Spellable(rule)
    ensures ParseRule(RuleText(rule)) == Ok(rule)
  {
    match rule
    case Everyday =>
      LowerUnchanged(EverydayText);
    case Weekly(name) =>
      ParseWeeklyText(name);
    case MonthDays(days) =>
      ParseDaysText(days);
    case Inert =>
  }

  /** `every Monday` fires exactly on Mondays. */
  lemma EveryMondayExample(d: Date)
    ensures ShouldRunTask("every Monday", d) == Ok(Weekday(d) == 0)
  {
    assert Lower("every Monday") == EveryPrefix + DayNames[0];
    WeeklyFiresOnItsDay("every Monday", 0, d);
  }

  lemma DaysListText()
    ensures RuleText(MonthDays([1, 15, 30])) == "days:1,15,30"
  {
    DaysListTexts();
    JoinThree("1", "15", "30", ",");
  }

  /** The texts of the days 1, 15 and 30. */
  lemma DaysListTexts()
    ensures IntTexts([1, 15, 30]) == ["1", "15", "30"]
  {
    assert IntToString(1) == "1";
    assert IntToString(15) == "15" by { assert NatToDigits(15) == NatToDigits(1) + ['5']; }
    assert IntToString(30) == "30" by { assert NatToDigits(30) == NatToDigits(3) + ['0']; }
  }

  /** `days:1,15,30` fires exactly on the 1st, the 15th and the 30th of a month. */
  lemma DaysListExample(d: Date)
    ensures ShouldRunTask("days:1,15,30", d) == Ok(DayOfMonth(d) in {1, 15, 30})
  {
    var rule := MonthDays([1, 15, 30]);
    DaysListText();
    ParseRuleText(rule);
    assert ParseRule("days:1,15,30") == Ok(rule);
    assert Fires(rule, d) == (DayOfMonth(d) in {1, 15, 30});
  }

  /**
   On Monday 2024-01-15 both `every Monday` and `days:1,15,30` fire; on the
   Tuesday after it neither does.
   */
  lemma MidJanuaryExample()
    ensures ShouldRunTask("every Monday", 738900) == Ok(true)
    ensures ShouldRunTask("days:1,15,30", 738900) == Ok(true)
    ensures ShouldRunTask("every Monday", 738901) == Ok(false)
    ensures ShouldRunTask("days:1,15,30", 738901) == Ok(false)
  {
    MidJanuary2024();
    EveryMondayExample(738900);
    EveryMondayExample(738901);
    DaysListExample(738900);
    DaysListExample(738901);
  }

  /** An empty `days:` list holds one empty token, which raises on every date. */
  lemma EmptyDayListRaises(d: Date)
    ensures ShouldRunTask("days:", d) == Err(InvalidLiteral(""))
  {
    LowerUnchanged("days:");
    assert "days:"[5..] == "";
    MissingCharNotContained("", ",", 0);
    SplitWithoutSeparator("", ",");
  }

  /** A trailing comma leaves an empty last token, which raises on every date. */
  lemma TrailingCommaRaises(d: Date)
    ensures ShouldRunTask("days:1,", d).Err?
  {
    var t := "days:1,";
    LowerUnchanged(t);
    assert !StartsWith(t, EveryPrefix) by { assert t[0] != EveryPrefix[0]; }
    assert t[..5] == DaysPrefix;
    assert t[5..] == "1" + [','] + "";
    SplitAtFirstChar("1", ',', "");
    MissingCharNotContained("", ",", 0);
    SplitWithoutSeparator("", ",");
    assert DayTokens(t)[1] == "";
    assert ParseInt(Strip(DayTokens(t)[1])).Err?;
  }
}
