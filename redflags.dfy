/** The red-flag detector `detect_red_flags` (app.py:50-59): three fixed
    checks, each looking for either of two phrases in the lower-cased text;
    the messages of the checks that fire are reported one per line, in the
    order of the checks, and a fixed all-clear message when none fires. */
module RedFlags {
  import opened Text

  /** One check: the flag is raised when either phrase occurs. */
  datatype Rule = Rule(phrase1: string, phrase2: string, message: string)

  const Terminate := "terminate"
  const FireAnytime := "fire anytime"
  const NoSalary := "no salary"
  const WithoutPay := "without pay"
  const NonDisclosure := "non-disclosure"
  const Confidential := "confidential"

  const TerminationMessage := "🚩 Employer can terminate at will"
  const SalaryMessage := "🚩 No salary/compensation issue"
  const ConfidentialityMessage := "🚩 Confidentiality/NDA clause"

  const TerminationRule := Rule(Terminate, FireAnytime, TerminationMessage)
  const SalaryRule := Rule(NoSalary, WithoutPay, SalaryMessage)
  const ConfidentialityRule := Rule(NonDisclosure, Confidential, ConfidentialityMessage)

  /** The checks in the order the source performs them. */
  const Rules: seq<Rule> := [TerminationRule, SalaryRule, ConfidentialityRule]

  const NoFlags := "✅ No obvious red flags detected."

  const Newline := "\n"

  /** `phrase1 in lowered or phrase2 in lowered`. */
  predicate Fires(rule: Rule, lowered: string)
  {
    Contains(lowered, rule.phrase1) || Contains(lowered, rule.phrase2)
  }

  /** The messages of the rules that fire, in rule order. */
  function Flags(rules: seq<Rule>, lowered: string): seq<string>
  {
    if rules == [] then []
    else (if Fires(rules[0], lowered) then [rules[0].message] else [])
         + Flags(rules[1..], lowered)
  }

  function Messages(rules: seq<Rule>): (r: seq<string>)
    ensures |r| == |rules|
    ensures forall i :: 0 <= i < |rules| ==> r[i] == rules[i].message
  {
    seq(|rules|, i requires 0 <= i < |rules| => rules[i].message)
  }

  /** `"\n".join(flags) if flags else NO_FLAGS`. */
  function Report(flags: seq<string>): string
  {
    if flags == [] then NoFlags else Join(Newline, flags)
  }

  /** `xs` is `ys` with some elements dropped, the rest kept in order. */
  predicate Subsequence(xs: seq<string>, ys: seq<string>)
    decreases |ys|
  {
    if xs == [] then true
    else if ys == [] then false
    else if xs[0] == ys[0] then Subsequence(xs[1..], ys[1..])
    else Subsequence(xs, ys[1..])
  }

  predicate NoDuplicates(xs: seq<string>)
  {
    forall a, b :: 0 <= a < b < |xs| ==> xs[a] != xs[b]
  }

  /** `detect_red_flags(text)`. */
  method DetectRedFlags(text: string) returns (r: string)
    ensures r == Report(Flags(Rules, Lower(text)))
  {
    var flags: seq<string> := [];
    var textLower := Lower(text);
    RuleParts();
    if Contains(textLower, Terminate) || Contains(textLower, FireAnytime) {
      flags := flags + [TerminationMessage];
    }
    assert flags == (if Fires(TerminationRule, textLower) then [TerminationMessage] else []);
    ghost var afterFirst := flags;
    if Contains(textLower, NoSalary) || Contains(textLower, WithoutPay) {
      flags := flags + [SalaryMessage];
    }
    assert flags == afterFirst + (if Fires(SalaryRule, textLower) then [SalaryMessage] else []);
    ghost var afterSecond := flags;
    if Contains(textLower, NonDisclosure) || Contains(textLower, Confidential) {
      flags := flags + [ConfidentialityMessage];
    }
    assert flags == afterSecond + (if Fires(ConfidentialityRule, textLower) then [ConfidentialityMessage] else []);
    UnfoldRules(textLower);
    if flags == [] {
      r := NoFlags;
    } else {
      r := Join(Newline, flags);
    }
  }

  lemma RuleParts()
    ensures TerminationRule.phrase1 == Terminate && TerminationRule.phrase2 == FireAnytime
    ensures SalaryRule.phrase1 == NoSalary && SalaryRule.phrase2 == WithoutPay
    ensures ConfidentialityRule.phrase1 == NonDisclosure && ConfidentialityRule.phrase2 == Confidential
  {
  }

  /** The flags of the three rules, spelled out. */
  lemma UnfoldRules(lowered: string)
    ensures Flags(Rules, lowered)
         == (if Fires(TerminationRule, lowered) then [TerminationMessage] else [])
          + (if Fires(SalaryRule, lowered) then [SalaryMessage] else [])
          + (if Fires(ConfidentialityRule, lowered) then [ConfidentialityMessage] else [])
  {
    var rest1, rest2 := [SalaryRule, ConfidentialityRule], [ConfidentialityRule];
    assert Rules[1..] == rest1 && rest1[1..] == rest2 && rest2[1..] == [];
    assert Flags(rest2, lowered)
        == (if Fires(ConfidentialityRule, lowered) then [ConfidentialityMessage] else []) + Flags([], lowered);
  }

  /** A message is reported exactly when some rule carrying it fires. */
  lemma {:induction false} FlagsMembership(rules: seq<Rule>, lowered: string, m: string)
    ensures m in Flags(rules, lowered)
        <==> exists i :: 0 <= i < |rules| && rules[i].message == m && Fires(rules[i], lowered)
    decreases |rules|
  {
    if rules != [] {
      FlagsMembership(rules[1..], lowered, m);
      if m in Flags(rules[1..], lowered) {
        var i :| 0 <= i < |rules[1..]| && rules[1..][i].message == m && Fires(rules[1..][i], lowered);
        assert rules[i + 1] == rules[1..][i];
      }
      if i :| 0 <= i < |rules| && rules[i].message == m && Fires(rules[i], lowered) {
        if i > 0 {
          assert rules[1..][i - 1] == rules[i];
        }
      }
    }
  }

  /** The reported messages keep the order of the rules. */
  lemma {:induction false} FlagsInOrder(rules: seq<Rule>, lowered: string)
    ensures Subsequence(Flags(rules, lowered), Messages(rules))
    decreases |rules|
  {
    if rules != [] {
      FlagsInOrder(rules[1..], lowered);
      assert Messages(rules)[1..] == Messages(rules[1..]);
      if Fires(rules[0], lowered) {
        assert Flags(rules, lowered)[1..] == Flags(rules[1..], lowered);
      } else {
        assert Flags(rules, lowered) == Flags(rules[1..], lowered);
        SubsequenceSkip(Flags(rules[1..], lowered), Messages(rules));
      }
    }
  }

  /** A subsequence of the tail of `ys` is a subsequence of `ys`. */
  lemma {:induction false} SubsequenceSkip(xs: seq<string>, ys: seq<string>)
    requires ys != [] && Subsequence(xs, ys[1..])
    ensures Subsequence(xs, ys)
    decreases |ys|, |xs|
  {
    if xs != [] && xs[0] == ys[0] {
      SubsequenceTail(xs, ys[1..]);
    }
  }

  /** Dropping the first element of a subsequence keeps it one. */
  lemma {:induction false} SubsequenceTail(xs: seq<string>, ys: seq<string>)
    requires xs != [] && Subsequence(xs, ys)
    ensures Subsequence(xs[1..], ys)
    decreases |ys|, |xs|
  {
    if ys != [] {
      if xs[0] == ys[0] {
        SubsequenceSkip(xs[1..], ys);
      } else {
        SubsequenceTail(xs, ys[1..]);
        SubsequenceSkip(xs[1..], ys);
      }
    }
  }

  /** The three messages are distinct, all open with the flag character,
      and none contains a line break. */
  lemma MessagesDistinct()
    ensures TerminationMessage != SalaryMessage
    ensures TerminationMessage != ConfidentialityMessage
    ensures SalaryMessage != ConfidentialityMessage
  {
    assert TerminationMessage[2] == 'E';
    assert SalaryMessage[2] == 'N';
    assert ConfidentialityMessage[2] == 'C';
  }

  lemma MessagesStartWithFlag()
    ensures TerminationMessage != [] && TerminationMessage[0] == '🚩'
    ensures SalaryMessage != [] && SalaryMessage[0] == '🚩'
    ensures ConfidentialityMessage != [] && ConfidentialityMessage[0] == '🚩'
    ensures NoFlags[0] == '✅'
  {
  }

  lemma MessagesOneLine()
    ensures '\n' !in TerminationMessage
    ensures '\n' !in SalaryMessage
    ensures '\n' !in ConfidentialityMessage
  {
  }

  /** Every message of `Rules` appears in the report exactly when its rule
      fires, at most once, and only these messages appear. */
  lemma FlagsOfRules(lowered: string)
    ensures NoDuplicates(Flags(Rules, lowered))
    ensures forall k :: 0 <= k < |Flags(Rules, lowered)| ==> Flags(Rules, lowered)[k] in Messages(Rules)
    ensures forall i :: 0 <= i < |Rules| ==> (Rules[i].message in Flags(Rules, lowered) <==> Fires(Rules[i], lowered))
  {
    UnfoldRules(lowered);
    MessagesDistinct();
    assert Messages(Rules) == [TerminationMessage, SalaryMessage, ConfidentialityMessage];
    forall i | 0 <= i < |Rules|
      ensures Rules[i].message in Flags(Rules, lowered) <==> Fires(Rules[i], lowered)
    {
      FlagsMembership(Rules, lowered, Rules[i].message);
      if Rules[i].message in Flags(Rules, lowered) {
        var j :| 0 <= j < |Rules| && Rules[j].message == Rules[i].message && Fires(Rules[j], lowered);
        assert j == i;
      }
    }
  }

  /** The all-clear message is reported exactly when no rule fires. */
  lemma NoFlagsIff(lowered: string)
    ensures Report(Flags(Rules, lowered)) == NoFlags
        <==> !Fires(TerminationRule, lowered) && !Fires(SalaryRule, lowered) && !Fires(ConfidentialityRule, lowered)
  {
    var flags := Flags(Rules, lowered);
    UnfoldRules(lowered);
    MessagesStartWithFlag();
    if flags != [] {
      assert flags[0] == TerminationMessage || flags[0] == SalaryMessage || flags[0] == ConfidentialityMessage;
      JoinFirst(Newline, flags);
      assert Report(flags)[0] == '🚩';
    }
  }

  lemma JoinFirst(sep: string, xs: seq<string>)
    requires xs != [] && xs[0] != []
    ensures Join(sep, xs) != [] && Join(sep, xs)[0] == xs[0][0]
  {
    if |xs| > 1 {
      assert Join(sep, xs) == xs[0] + (sep + Join(sep, xs[1..]));
    }
  }

  /** When some rule fires, splitting the report at line breaks gives back
      the flags: one message per line. */
  lemma ReportLines(lowered: string)
    requires Flags(Rules, lowered) != []
    ensures Split(Report(Flags(Rules, lowered)), Newline) == Flags(Rules, lowered)
  {
    var flags := Flags(Rules, lowered);
    UnfoldRules(lowered);
    MessagesOneLine();
    assert forall k :: 0 <= k < |flags| ==>
      flags[k] == TerminationMessage || flags[k] == SalaryMessage || flags[k] == ConfidentialityMessage;
    JoinSplit(Newline, flags);
  }

  /** A phrase found in the text in any mix of ASCII case raises its flag:
      `u` is a slice of the text whose lowering is one of the rule's phrases. */
  lemma PhraseInAnyCaseFires(rule: Rule, text: string, u: string)
    requires rule in Rules
    requires Contains(text, u)
    requires Lower(u) == rule.phrase1 || Lower(u) == rule.phrase2
    ensures Fires(rule, Lower(text))
  {
    ContainsLower(text, u);
  }

  /** The checks are case-insensitive and nothing more: a rule fires on the
      lowered text exactly when some slice of the text, in whatever case,
      lowers to one of its phrases. */
  lemma FiresIffPhraseInAnyCase(rule: Rule, text: string)
    ensures Fires(rule, Lower(text)) <==>
      (exists i :: OccursAtIgnoringCase(text, rule.phrase1, i))
      || (exists i :: OccursAtIgnoringCase(text, rule.phrase2, i))
  {
    ContainsLowerIff(text, rule.phrase1);
    ContainsLowerIff(text, rule.phrase2);
  }

  /** The phrases are written in lower case, so a text holding a phrase
      exactly as the rule spells it raises the flag. */
  lemma PhraseAsWrittenFires(rule: Rule, text: string)
    requires rule in Rules
    requires Contains(text, rule.phrase1) || Contains(text, rule.phrase2)
    ensures Fires(rule, Lower(text))
  {
    PhrasesLowerCase();
    if Contains(text, rule.phrase1) {
      ContainsLowerPattern(text, rule.phrase1);
    } else {
      ContainsLowerPattern(text, rule.phrase2);
    }
  }

  /** A phrase in capitals still raises its flag. */
  lemma CapitalTerminateFires()
    ensures Fires(TerminationRule, Lower("TERMINATE"))
  {
    var s, t := "TERMINATE", Terminate;
    forall i | 0 <= i < |s| ensures Lower(s)[i] == t[i] {
    }
    assert StartsWith(s, s);
    PhraseInAnyCaseFires(TerminationRule, s, s);
  }

  lemma PhrasesLowerCase()
    ensures forall rule :: rule in Rules ==> NoUpper(rule.phrase1) && NoUpper(rule.phrase2)
  {
    TerminationPhrasesLowerCase();
    SalaryPhrasesLowerCase();
    ConfidentialityPhrasesLowerCase();
  }

  lemma TerminationPhrasesLowerCase()
    ensures NoUpper(Terminate) && NoUpper(FireAnytime)
  {
  }

  lemma SalaryPhrasesLowerCase()
    ensures NoUpper(NoSalary) && NoUpper(WithoutPay)
  {
  }

  lemma ConfidentialityPhrasesLowerCase()
    ensures NoUpper(NonDisclosure) && NoUpper(Confidential)
  {
  }

  // ---------------------------------------------------------------------
  // Examples.  Literal texts are handled in pieces of at most a few dozen
  // characters, one fact per lemma.
  // ---------------------------------------------------------------------

  /** "fired anytime" is not the phrase "fire anytime": a sentence about
      being fired anytime without pay raises only the salary flag. */
  lemma FiredAnytimeOnlySalaryFlag()
    ensures Report(Flags(Rules, Lower("The employee may be fired anytime without pay.")))
         == SalaryMessage
  {
    var lowered := "the employee may be " + "fired anytime without pay.";
    FiredAnytimeLowered();
    FiredAnytimeNoTerminate();
    FiredAnytimeNoFireAnytime();
    FiredAnytimeWithoutPay();
    FiredAnytimeNoSalaryPhrase();
    FiredAnytimeNoNonDisclosure();
    FiredAnytimeNoConfidential();
    UnfoldRules(lowered);
  }

  lemma FiredAnytimeLowered()
    ensures Lower("The employee may be fired anytime without pay.")
         == "the employee may be " + "fired anytime without pay."
  {
    var x, y := "The employee may be ", "fired anytime without pay.";
    assert "The employee may be fired anytime without pay." == x + y;
    LowerAppend(x, y);
    FiredAnytimeLoweredFront();
    FiredAnytimeBackLower();
    LowerOfLower(y);
  }

  lemma FiredAnytimeBackLower()
    ensures NoUpper("fired anytime without pay.")
  {
  }

  lemma FiredAnytimeLoweredFront()
    ensures Lower("The employee may be ") == "the employee may be "
  {
    var s, t := "The employee may be ", "the employee may be ";
    forall i | 0 <= i < |s| ensures Lower(s)[i] == t[i] {
    }
  }

  lemma FiredAnytimeNoTerminate()
    ensures !Contains("the employee may be " + "fired anytime without pay.", Terminate)
  {
    var t := Terminate;
    assert "the employee may be " == "th" + "e employee may be ";
    assert 't' !in "e employee may be ";
    SkipMismatch("th", "e employee may be ", "fired anytime without pay.", t, 1);
    FiredAnytimeBackNoTerminate();
  }

  lemma FiredAnytimeBackNoTerminate()
    ensures !Contains("fired anytime without pay.", Terminate)
  {
    var t := Terminate;
    assert "fired anytime without pay." == "fired any" + "time without pay.";
    assert t[0] == 't' && 't' !in "fired any";
    SkipFront("fired any", "time without pay.", t);
    FiredAnytimeEndNoTerminate();
  }

  lemma FiredAnytimeEndNoTerminate()
    ensures !Contains("time without pay.", Terminate)
  {
    var t := Terminate;
    assert "time without pay." == "ti" + "me wi" + "thout pay.";
    assert t[..2] == "te";
    SkipMismatch("ti", "me wi", "thout pay.", t, 1);
    FiredAnytimeTailNoTerminate();
  }

  lemma FiredAnytimeTailNoTerminate()
    ensures !Contains("thout pay.", Terminate)
  {
    var t := Terminate;
    assert "thout pay." == "th" + "ou" + "t pay.";
    assert t[..2] == "te";
    SkipMismatch("th", "ou", "t pay.", t, 1);
    ShorterNotContains("t pay.", t);
  }

  lemma FiredAnytimeNoFireAnytime()
    ensures !Contains("the employee may be " + "fired anytime without pay.", FireAnytime)
  {
    var t := FireAnytime;
    assert 'f' !in "the employee may be ";
    SkipFront("the employee may be ", "fired anytime without pay.", t);
    FiredAnytimeBackNoFireAnytime();
  }

  lemma FiredAnytimeBackNoFireAnytime()
    ensures !Contains("fired anytime without pay.", FireAnytime)
  {
    var t := FireAnytime;
    assert "fired anytime without pay." == "fired" + " anytime without pay." + "";
    assert 'f' !in " anytime without pay.";
    SkipMismatch("fired", " anytime without pay.", "", t, 4);
  }

  lemma FiredAnytimeWithoutPay()
    ensures Contains("the employee may be " + "fired anytime without pay.", WithoutPay)
  {
    StartsWithContains("without pay.", WithoutPay);
    assert "fired anytime without pay." == "fired anytime " + "without pay.";
    ContainsAppend("fired anytime ", "without pay.", WithoutPay);
    ContainsAppend("the employee may be ", "fired anytime without pay.", WithoutPay);
  }

  lemma FiredAnytimeNoSalaryPhrase()
    ensures !Contains("the employee may be " + "fired anytime without pay.", NoSalary)
  {
    assert 's' !in "the employee may be ";
    assert 's' !in "fired anytime without pay.";
    MissingCharNotContains("the employee may be " + "fired anytime without pay.", NoSalary, 's');
  }

  lemma FiredAnytimeNoNonDisclosure()
    ensures !Contains("the employee may be " + "fired anytime without pay.", NonDisclosure)
  {
    assert '-' !in "the employee may be ";
    assert '-' !in "fired anytime without pay.";
    MissingCharNotContains("the employee may be " + "fired anytime without pay.", NonDisclosure, '-');
  }

  lemma FiredAnytimeNoConfidential()
    ensures !Contains("the employee may be " + "fired anytime without pay.", Confidential)
  {
    assert 'c' !in "the employee may be ";
    assert 'c' !in "fired anytime without pay.";
    MissingCharNotContains("the employee may be " + "fired anytime without pay.", Confidential, 'c');
  }

  /** A sentence with none of the phrases gets the all-clear message. */
  lemma StandardHoursNoFlags()
    ensures Report(Flags(Rules, Lower("Standard working hours apply."))) == NoFlags
  {
    var lowered := "standard " + "working hours apply.";
    StandardHoursLowered();
    StandardHoursNoTerminate();
    StandardHoursNoFireAnytime();
    StandardHoursNoNoSalary();
    StandardHoursNoWithoutPay();
    StandardHoursNoNonDisclosure();
    StandardHoursNoConfidential();
    NoFlagsIff(lowered);
  }

  lemma StandardHoursLowered()
    ensures Lower("Standard working hours apply.") == "standard " + "working hours apply."
  {
    var x, y := "Standard ", "working hours apply.";
    assert "Standard working hours apply." == x + y;
    LowerAppend(x, y);
    StandardHoursBackLower();
    StandardHoursFrontLower();
  }

  lemma StandardHoursBackLower()
    ensures Lower("working hours apply.") == "working hours apply."
  {
    assert NoUpper("working hours apply.");
    LowerOfLower("working hours apply.");
  }

  lemma StandardHoursFrontLower()
    ensures Lower("Standard ") == "standard "
  {
    var s, t := "Standard ", "standard ";
    forall i | 0 <= i < |s| ensures Lower(s)[i] == t[i] {
    }
  }

  lemma StandardHoursNoTerminate()
    ensures !Contains("standard " + "working hours apply.", Terminate)
  {
    assert 'm' !in "standard " && 'm' !in "working hours apply.";
    MissingCharNotContains("standard " + "working hours apply.", Terminate, 'm');
  }

  lemma StandardHoursNoFireAnytime()
    ensures !Contains("standard " + "working hours apply.", FireAnytime)
  {
    assert 'f' !in "standard " && 'f' !in "working hours apply.";
    MissingCharNotContains("standard " + "working hours apply.", FireAnytime, 'f');
  }

  lemma StandardHoursNoNonDisclosure()
    ensures !Contains("standard " + "working hours apply.", NonDisclosure)
  {
    assert '-' !in "standard " && '-' !in "working hours apply.";
    MissingCharNotContains("standard " + "working hours apply.", NonDisclosure, '-');
  }

  lemma StandardHoursNoConfidential()
    ensures !Contains("standard " + "working hours apply.", Confidential)
  {
    assert 'c' !in "standard " && 'c' !in "working hours apply.";
    MissingCharNotContains("standard " + "working hours apply.", Confidential, 'c');
  }

  lemma StandardHoursNoNoSalary()
    ensures !Contains("standard " + "working hours apply.", NoSalary)
  {
    var t := NoSalary;
    assert "standard " + "working hours apply." == "sta" + ("nd" + "ard " + "working hours apply.");
    SkipFront("sta", "nd" + "ard " + "working hours apply.", t);
    SkipMismatch("nd", "ard ", "working hours apply.", t, 1);
    StandardHoursBackNoNoSalary();
  }

  lemma StandardHoursBackNoNoSalary()
    ensures !Contains("working hours apply.", NoSalary)
  {
    var t := NoSalary;
    assert "working hours apply." == "worki" + "ng hours apply.";
    SkipFront("worki", "ng hours apply.", t);
    StandardHoursEndNoNoSalary();
  }

  lemma StandardHoursEndNoNoSalary()
    ensures !Contains("ng hours apply.", NoSalary)
  {
    var t := NoSalary;
    assert "ng hours apply." == "ng" + " hours apply." + "";
    SkipMismatch("ng", " hours apply.", "", t, 1);
  }

  lemma StandardHoursNoWithoutPay()
    ensures !Contains("standard " + "working hours apply.", WithoutPay)
  {
    var t := WithoutPay;
    assert 'w' !in "standard ";
    SkipFront("standard ", "working hours apply.", t);
    StandardHoursBackNoWithoutPay();
  }

  lemma StandardHoursBackNoWithoutPay()
    ensures !Contains("working hours apply.", WithoutPay)
  {
    var t := WithoutPay;
    assert "working hours apply." == "wo" + "rking hours apply." + "";
    assert 'w' !in "rking hours apply.";
    SkipMismatch("wo", "rking hours apply.", "", t, 1);
  }
}
