/** The terminology normalizer `apply_fallback_replacements` and its table
    `REPLACEMENTS` (app.py:75-132): every entry of an ordered table of
    legal phrase / plain phrase pairs is applied in turn, as a literal
    replace-all, to the text left by the entries before it. */
module Terminology {
  import opened Text

  /** An ordered table of (phrase, plain-language phrase) pairs. */
  type Table = seq<(string, string)>

  /** `REPLACEMENTS` as Python builds it from the dict display at
      app.py:75-127, in iteration order.  The display lists the key
      "from time to time" twice (lines 98 and 113); a dict display keeps the
      position of a key's first occurrence and the value of its last, so
      entry 22 holds "sometimes" and the display's 51 pairs give 50 entries.
      The table is written in five runs of ten entries. */
  const Replacements: Table := Lines76To85 + Lines86To95 + Lines96To105 + Lines106To116 + Lines117To126

  /** Entries 0-9: app.py lines 76-85. */
  const Lines76To85: Table := [Line76, Line77, Line78, Line79, Line80, Line81, Line82, Line83, Line84, Line85]

  const Line76: (string, string) := ("terminate this agreement at any time with immediate effect", "the company can fire the employee anytime")
  const Line77: (string, string) := ("compensation shall be provided as determined by the Company", "salary rules decided by the company")
  const Line78: (string, string) := ("provide services to the Company as directed", "the employee must follow company instructions")
  const Line79: (string, string) := ("comply with all company policies and procedures", "follow company rules")
  const Line80: (string, string) := ("reporting to designated managers", "report to managers")
  const Line81: (string, string) := ("duties and responsibilities as assigned", "tasks assigned by company")
  const Line82: (string, string) := ("any inventions, designs, or other intellectual property", "any ideas or creations")
  const Line83: (string, string) := ("not to disclose any confidential information or trade secrets", "don’t share confidential info")
  const Line84: (string, string) := ("acknowledges that this agreement may be amended by the Company", "the company can update rules anytime")
  const Line85: (string, string) := ("entitled to six days of leave per month", "employee gets 6 leave days per month")

  /** Entries 10-19: app.py lines 86-95. */
  const Lines86To95: Table := [Line86, Line87, Line88, Line89, Line90, Line91, Line92, Line93, Line94, Line95]

  const Line86: (string, string) := ("including but not limited to", "for example")
  const Line87: (string, string) := ("at the sole discretion of the Company", "as decided by the company")
  const Line88: (string, string) := ("subject to applicable laws", "following legal rules")
  const Line89: (string, string) := ("without prior notice", "without warning")
  const Line90: (string, string) := ("reasonable instructions", "normal instructions")
  const Line91: (string, string) := ("unsatisfactory performance", "poor performance")
  const Line92: (string, string) := ("misconduct", "bad behavior")
  const Line93: (string, string) := ("violation of company policies", "breaking company rules")
  const Line94: (string, string) := ("confidential information", "private info")
  const Line95: (string, string) := ("proprietary information", "company secrets")

  /** Entries 20-29: app.py lines 96-105. */
  const Lines96To105: Table := [Line96, Line97, Line98, Line99, Line100, Line101, Line102, Line103, Line104, Line105]

  const Line96: (string, string) := ("trade secrets", "secret info")
  const Line97: (string, string) := ("continued employment constitutes acceptance", "staying employed means agreeing")
  /** The first occurrence of the repeated key, with the value of its second (line 113). */
  const Line98: (string, string) := ("from time to time", "sometimes")
  const Line99: (string, string) := ("at any time", "whenever")
  const Line100: (string, string) := ("assigned by supervisors", "given by managers")
  const Line101: (string, string) := ("project coordination", "managing projects")
  const Line102: (string, string) := ("client communication", "talking to clients")
  const Line103: (string, string) := ("administrative tasks", "office work")
  const Line104: (string, string) := ("report to managers", "update managers")
  const Line105: (string, string) := ("Company reserves the right", "company can")

  /** Entries 30-39: app.py lines 106-116 (line 113 is the repeated key, merged into entry 22). */
  const Lines106To116: Table := [Line106, Line107, Line108, Line109, Line110, Line111, Line112, Line114, Line115, Line116]

  const Line106: (string, string) := ("may vary based on performance evaluations", "can change depending on work")
  const Line107: (string, string) := ("any additional leave requires prior approval", "extra leave needs approval")
  const Line108: (string, string) := ("intellectual property", "ideas")
  const Line109: (string, string) := ("inventions, designs, or other creations", "creations")
  const Line110: (string, string) := ("not engage in activities that conflict", "don’t do conflicting work")
  const Line111: (string, string) := ("business interests", "company business")
  const Line112: (string, string) := ("acknowledges and agrees", "agrees")
  const Line114: (string, string) := ("all duties assigned", "all tasks given")
  const Line115: (string, string) := ("all company policies", "all rules")
  const Line116: (string, string) := ("reasonable directions", "normal instructions")

  /** Entries 40-49: app.py lines 117-126. */
  const Lines117To126: Table := [Line117, Line118, Line119, Line120, Line121, Line122, Line123, Line124, Line125, Line126]

  const Line117: (string, string) := ("may be amended", "can be changed")
  const Line118: (string, string) := ("at the discretion", "as decided")
  const Line119: (string, string) := ("prior approval from management", "approval needed")
  const Line120: (string, string) := ("shall perform", "must do")
  const Line121: (string, string) := ("follow company rules", "obey rules")
  const Line122: (string, string) := ("as directed", "as told")
  const Line123: (string, string) := ("at any time without cause", "anytime without reason")
  const Line124: (string, string) := ("employment constitutes acceptance", "staying means agreeing")
  const Line125: (string, string) := ("subject to Company policies", "following company rules")
  const Line126: (string, string) := ("all proprietary information", "all company secrets")

  /** The text once the entries `table[i..]` have been applied in order,
      each as a literal replace-all on the text left by the one before. */
  function ApplyFrom(table: Table, i: nat, text: string): string
    decreases |table| - i
  {
    if i >= |table| then text
    else ApplyFrom(table, i + 1, ReplaceAll(text, table[i].0, table[i].1))
  }

  /** The whole normalizer: the left fold of replace-all over the table. */
  function Normalize(text: string): string
  {
    ApplyFrom(Replacements, 0, text)
  }

  /** `apply_fallback_replacements(text)`: the loop at app.py:130-131. */
  method ApplyFallbackReplacements(text: string) returns (r: string)
    ensures r == Normalize(text)
  {
    r := text;
    for i := 0 to |Replacements|
      invariant ApplyFrom(Replacements, i, r) == Normalize(text)
    {
      r := ReplaceAll(r, Replacements[i].0, Replacements[i].1);
    }
  }

  /** An entry whose key does not occur in the text leaves it as it is. */
  lemma SkipEntry(table: Table, i: nat, text: string)
    requires i < |table| && !Contains(text, table[i].0)
    ensures ApplyFrom(table, i, text) == ApplyFrom(table, i + 1, text)
  {
    ReplaceAbsent(text, table[i].0, table[i].1);
  }

  /** If no key from entry i on occurs in the text, the rest of the table
      changes nothing. */
  lemma {:induction false} ApplyFromUntouched(table: Table, i: nat, text: string)
    requires forall j {:trigger Contains(text, table[j].0)} :: i <= j < |table| ==> !Contains(text, table[j].0)
    ensures ApplyFrom(table, i, text) == text
    decreases |table| - i
  {
    if i < |table| {
      SkipEntry(table, i, text);
      ApplyFromUntouched(table, i + 1, text);
    }
  }

  /** A text in which no table key occurs comes out unchanged. */
  lemma NormalizeNoKey(text: string)
    requires forall j {:trigger Contains(text, Replacements[j].0)} :: 0 <= j < |Replacements| ==> !Contains(text, Replacements[j].0)
    ensures Normalize(text) == text
  {
    ApplyFromUntouched(Replacements, 0, text);
  }

  /** Once the normalized text holds no table key, normalizing it again
      changes nothing. */
  lemma NormalizeIdempotent(text: string)
    requires forall j {:trigger Contains(Normalize(text), Replacements[j].0)} :: 0 <= j < |Replacements| ==> !Contains(Normalize(text), Replacements[j].0)
    ensures Normalize(Normalize(text)) == Normalize(text)
  {
    NormalizeNoKey(Normalize(text));
  }

  /** Applying a table in two parts is applying the first part and then the
      second to its result. */
  lemma {:induction false} ApplyFromSplit(t1: Table, t2: Table, i: nat, text: string)
    requires i <= |t1|
    ensures ApplyFrom(t1 + t2, i, text) == ApplyFrom(t2, 0, ApplyFrom(t1, i, text))
    decreases |t1| - i
  {
    if i < |t1| {
      assert (t1 + t2)[i] == t1[i];
      ApplyFromSplit(t1, t2, i + 1, ReplaceAll(text, t1[i].0, t1[i].1));
    } else {
      ApplyFromShift(t1, t2, 0, text);
    }
  }

  lemma {:induction false} ApplyFromShift(t1: Table, t2: Table, j: nat, text: string)
    ensures ApplyFrom(t1 + t2, |t1| + j, text) == ApplyFrom(t2, j, text)
    decreases |t2| - j
  {
    if j < |t2| {
      assert (t1 + t2)[|t1| + j] == t2[j];
      ApplyFromShift(t1, t2, j + 1, ReplaceAll(text, t2[j].0, t2[j].1));
    }
  }

  /** The normalizer is the five runs of ten entries applied one after
      the other. */
  lemma NormalizeByParts(text: string)
    ensures Normalize(text)
         == ApplyFrom(Lines117To126, 0, ApplyFrom(Lines106To116, 0,
              ApplyFrom(Lines96To105, 0, ApplyFrom(Lines86To95, 0,
                ApplyFrom(Lines76To85, 0, text)))))
  {
    var p01 := Lines76To85 + Lines86To95;
    var p012 := p01 + Lines96To105;
    var p0123 := p012 + Lines106To116;
    ApplyFromSplit(p0123, Lines117To126, 0, text);
    ApplyFromSplit(p012, Lines106To116, 0, text);
    ApplyFromSplit(p01, Lines96To105, 0, text);
    ApplyFromSplit(Lines76To85, Lines86To95, 0, text);
  }

  /** Entries i up to k whose keys do not occur in the text leave it
      alone. */
  lemma {:induction false} ApplyFromRange(t: Table, i: nat, k: nat, text: string)
    requires i <= k <= |t|
    requires forall j {:trigger Contains(text, t[j].0)} :: i <= j < k ==> !Contains(text, t[j].0)
    ensures ApplyFrom(t, i, text) == ApplyFrom(t, k, text)
    decreases k - i
  {
    if i < k {
      SkipEntry(t, i, text);
      ApplyFromRange(t, i + 1, k, text);
    }
  }

  /** A run of entries in which only entry k's key occurs in the text, and
      just once in the sense of `ReplaceOnce`, puts entry k's value in its
      place and changes nothing else. */
  lemma ReplaceInRun(t: Table, k: nat, front: string, back: string)
    requires k < |t| && t[k].0 != []
    requires t[k].0[0] !in front && !Contains(back, t[k].0)
    requires forall j {:trigger Contains(front + t[k].0 + back, t[j].0)} :: 0 <= j < k ==> !Contains(front + t[k].0 + back, t[j].0)
    requires forall j {:trigger Contains(front + t[k].1 + back, t[j].0)} :: k < j < |t| ==> !Contains(front + t[k].1 + back, t[j].0)
    ensures ApplyFrom(t, 0, front + t[k].0 + back) == front + t[k].1 + back
  {
    ApplyFromRange(t, 0, k, front + t[k].0 + back);
    ReplaceOnce(t, k, k + 1, front, back);
    ApplyFromUntouched(t, k + 1, front + t[k].1 + back);
  }

  /** Entry j's key occurs once, after a front that lacks its first
      character: the entry puts its value in that place. */
  lemma ReplaceOnce(t: Table, j: nat, next: nat, front: string, back: string)
    requires next == j + 1 && j < |t| && t[j].0 != []
    requires t[j].0[0] !in front && !Contains(back, t[j].0)
    ensures ApplyFrom(t, j, front + t[j].0 + back) == ApplyFrom(t, next, front + t[j].1 + back)
  {
    var (key, value) := t[j];
    assert front + key + back == front + (key + back);
    ReplaceSkipFront(front, key + back, key, value);
    ReplaceAtFront(back, key, value);
    ReplaceAbsent(back, key, value);
    assert front + (value + back) == front + value + back;
  }

  /** The dict display lists "from time to time" twice (lines 98 and 113);
      the table holds it once, at entry 22, with the later value. */
  lemma RepeatedKeyCollapsed()
    ensures Replacements[22] == ("from time to time", "sometimes")
    ensures forall j :: 0 <= j < |Replacements| && Replacements[j].0 == "from time to time" ==> j == 22
  {
    RepeatedKeyOnceInLines76To85();
    RepeatedKeyOnceInLines86To95();
    RepeatedKeyOnceInLines96To105();
    RepeatedKeyOnceInLines106To116();
    RepeatedKeyOnceInLines117To126();
    forall j | 0 <= j < |Replacements| && j != 22
      ensures Replacements[j].0 != Line98.0
    {
      if j < 10 {
        assert Replacements[j] == Lines76To85[j];
      } else if j < 20 {
        assert Replacements[j] == Lines86To95[j - 10];
      } else if j < 30 {
        assert Replacements[j] == Lines96To105[j - 20];
      } else if j < 40 {
        assert Replacements[j] == Lines106To116[j - 30];
      } else {
        assert Replacements[j] == Lines117To126[j - 40];
      }
    }
  }

  lemma RepeatedKeyOnceInLines76To85()
    ensures forall j :: 0 <= j < |Lines76To85| ==> (Lines76To85[j].0 != Line98.0)
  {
    forall j | 0 <= j < |Lines76To85|
      ensures Lines76To85[j].0 != Line98.0
    {
      if j == 0 {
        assert |Line76.0| == 58;
      } else if j == 1 {
        assert |Line77.0| == 59;
      } else if j == 2 {
        assert |Line78.0| == 43;
      } else if j == 3 {
        assert |Line79.0| == 47;
      } else if j == 4 {
        assert |Line80.0| == 32;
      } else if j == 5 {
        assert |Line81.0| == 39;
      } else if j == 6 {
        assert |Line82.0| == 55;
      } else if j == 7 {
        assert |Line83.0| == 61;
      } else if j == 8 {
        assert |Line84.0| == 62;
      } else if j == 9 {
        assert |Line85.0| == 39;
      }
    }
  }

  lemma RepeatedKeyOnceInLines86To95()
    ensures forall j :: 0 <= j < |Lines86To95| ==> (Lines86To95[j].0 != Line98.0)
  {
    forall j | 0 <= j < |Lines86To95|
      ensures Lines86To95[j].0 != Line98.0
    {
      if j == 0 {
        assert |Line86.0| == 28;
      } else if j == 1 {
        assert |Line87.0| == 37;
      } else if j == 2 {
        assert |Line88.0| == 26;
      } else if j == 3 {
        assert |Line89.0| == 20;
      } else if j == 4 {
        assert |Line90.0| == 23;
      } else if j == 5 {
        assert |Line91.0| == 26;
      } else if j == 6 {
        assert |Line92.0| == 10;
      } else if j == 7 {
        assert |Line93.0| == 29;
      } else if j == 8 {
        assert |Line94.0| == 24;
      } else if j == 9 {
        assert |Line95.0| == 23;
      }
    }
  }

  lemma RepeatedKeyOnceInLines96To105()
    ensures forall j :: 0 <= j < |Lines96To105| ==> (j != 2 ==> Lines96To105[j].0 != Line98.0)
  {
    forall j | 0 <= j < |Lines96To105|
      ensures j != 2 ==> Lines96To105[j].0 != Line98.0
    {
      if j == 0 {
        assert |Line96.0| == 13;
      } else if j == 1 {
        assert |Line97.0| == 43;
      } else if j == 3 {
        assert |Line99.0| == 11;
      } else if j == 4 {
        assert |Line100.0| == 23;
      } else if j == 5 {
        assert |Line101.0| == 20;
      } else if j == 6 {
        assert |Line102.0| == 20;
      } else if j == 7 {
        assert |Line103.0| == 20;
      } else if j == 8 {
        assert |Line104.0| == 18;
      } else if j == 9 {
        assert |Line105.0| == 26;
      }
    }
  }

  lemma RepeatedKeyOnceInLines106To116()
    ensures forall j :: 0 <= j < |Lines106To116| ==> (Lines106To116[j].0 != Line98.0)
  {
    forall j | 0 <= j < |Lines106To116|
      ensures Lines106To116[j].0 != Line98.0
    {
      if j == 0 {
        assert |Line106.0| == 41;
      } else if j == 1 {
        assert |Line107.0| == 44;
      } else if j == 2 {
        assert |Line108.0| == 21;
      } else if j == 3 {
        assert |Line109.0| == 39;
      } else if j == 4 {
        assert |Line110.0| == 38;
      } else if j == 5 {
        assert |Line111.0| == 18;
      } else if j == 6 {
        assert |Line112.0| == 23;
      } else if j == 7 {
        assert |Line114.0| == 19;
      } else if j == 8 {
        assert |Line115.0| == 20;
      } else if j == 9 {
        assert |Line116.0| == 21;
      }
    }
  }

  lemma RepeatedKeyOnceInLines117To126()
    ensures forall j :: 0 <= j < |Lines117To126| ==> (Lines117To126[j].0 != Line98.0)
  {
    forall j | 0 <= j < |Lines117To126|
      ensures Lines117To126[j].0 != Line98.0
    {
      if j == 0 {
        assert |Line117.0| == 14;
      } else if j == 1 {
        assert Line118.0[16] == 'n';
      } else if j == 2 {
        assert |Line119.0| == 30;
      } else if j == 3 {
        assert |Line120.0| == 13;
      } else if j == 4 {
        assert |Line121.0| == 20;
      } else if j == 5 {
        assert |Line122.0| == 11;
      } else if j == 6 {
        assert |Line123.0| == 25;
      } else if j == 7 {
        assert |Line124.0| == 33;
      } else if j == 8 {
        assert |Line125.0| == 27;
      } else if j == 9 {
        assert |Line126.0| == 27;
      }
    }
  }

  /** Order matters: the entry for "at any time" (line 99) runs before the one for "at any time without cause" (line 123), so the longer phrase becomes "whenever without cause" and never "anytime without reason". */
  lemma AtAnyTimeComesFirst()
    ensures Normalize("at any time without cause") == "whenever without cause"
  {
    AtAnyTimeComesFirstText();
    AtAnyTimeComesFirstInstance();
    AtAnyTimeComesFirstResult();
  }

  lemma AtAnyTimeComesFirstText()
    ensures "at any time without cause" == "" + Line99.0 + " without cause"
  {
  }

  lemma AtAnyTimeComesFirstResult()
    ensures "" + Line99.1 + " without cause" == "whenever without cause"
  {
  }

  lemma AtAnyTimeComesFirstInstance()
    ensures Normalize("" + Line99.0 + " without cause") == "" + Line99.1 + " without cause"
  {
    AtAnyTimeComesFirstContext0();
    AtAnyTimeComesFirstContext1();
    AtAnyTimeComesFirstContext2();
    AtAnyTimeComesFirstContext3();
    AtAnyTimeComesFirstInContext("", " without cause");
  }

  lemma AtAnyTimeComesFirstContext0()
    ensures ',' !in " without cause" && 'b' !in " without cause" && 'd' !in " without cause"
  {
  }

  lemma AtAnyTimeComesFirstContext1()
    ensures 'f' !in " without cause" && 'g' !in " without cause" && 'k' !in " without cause"
  {
  }

  lemma AtAnyTimeComesFirstContext2()
    ensures 'l' !in " without cause" && 'm' !in " without cause" && 'p' !in " without cause"
  {
  }

  lemma AtAnyTimeComesFirstContext3()
    ensures 'r' !in " without cause" && 'y' !in " without cause"
  {
  }

  /** "at any time" becomes "whenever" in any surrounding text that lacks the letters the proof uses to rule out the other keys. */
  lemma AtAnyTimeComesFirstInContext(front: string, back: string)
    requires ',' !in front + back && 'b' !in front + back && 'd' !in front + back && 'f' !in front + back && 'g' !in front + back && 'k' !in front + back && 'l' !in front + back && 'm' !in front + back && 'p' !in front + back && 'r' !in front + back && 'y' !in front + back && 'a' !in front
    ensures Normalize(front + Line99.0 + back) == front + Line99.1 + back
  {
    NormalizeByParts(front + Line99.0 + back);
    AtAnyTimeComesFirstPart0(front, back);
    AtAnyTimeComesFirstPart1(front, back);
    AtAnyTimeComesFirstPart2(front, back);
    AtAnyTimeComesFirstPart3(front, back);
    AtAnyTimeComesFirstPart4(front, back);
  }

  lemma AtAnyTimeComesFirstPart0Keys(s: string)
    requires 'd' !in s && 'f' !in s && 'p' !in s && 'r' !in s
    ensures forall j {:trigger Contains(s, Lines76To85[j].0)} :: 0 <= j < |Lines76To85| ==> !Contains(s, Lines76To85[j].0)
  {
    forall j | 0 <= j < |Lines76To85|
      ensures !Contains(s, Lines76To85[j].0)
    {
      if j == 0 {
        MissingCharNotContains(s, Line76.0, 'f');
      } else if j == 1 {
        MissingCharNotContains(s, Line77.0, 'p');
      } else if j == 2 {
        MissingCharNotContains(s, Line78.0, 'd');
      } else if j == 3 {
        MissingCharNotContains(s, Line79.0, 'r');
      } else if j == 4 {
        MissingCharNotContains(s, Line80.0, 'r');
      } else if j == 5 {
        MissingCharNotContains(s, Line81.0, 'd');
      } else if j == 6 {
        MissingCharNotContains(s, Line82.0, 'r');
      } else if j == 7 {
        MissingCharNotContains(s, Line83.0, 'r');
      } else if j == 8 {
        MissingCharNotContains(s, Line84.0, 'p');
      } else {
        MissingCharNotContains(s, Line85.0, 'r');
      }
    }
  }

  lemma AtAnyTimeComesFirstPart0(front: string, back: string)
    requires 'd' !in front + back && 'f' !in front + back && 'p' !in front + back && 'r' !in front + back
    ensures ApplyFrom(Lines76To85, 0, front + Line99.0 + back) == front + Line99.0 + back
  {
    AtAnyTimeComesFirstPart0Context0(front, back);
    AtAnyTimeComesFirstPart0Context1(front, back);
    AtAnyTimeComesFirstPart0Keys(front + Line99.0 + back);
    ApplyFromUntouched(Lines76To85, 0, front + Line99.0 + back);
  }

  lemma AtAnyTimeComesFirstPart0Context0(front: string, back: string)
    requires 'd' !in front + back && 'f' !in front + back && 'p' !in front + back && 'r' !in front + back
    ensures 'd' !in front + Line99.0 + back && 'f' !in front + Line99.0 + back && 'p' !in front + Line99.0 + back
  {
  }

  lemma AtAnyTimeComesFirstPart0Context1(front: string, back: string)
    requires 'd' !in front + back && 'f' !in front + back && 'p' !in front + back && 'r' !in front + back
    ensures 'r' !in front + Line99.0 + back
  {
  }

  lemma AtAnyTimeComesFirstPart1Keys(s: string)
    requires 'd' !in s && 'l' !in s && 'p' !in s && 'r' !in s
    ensures forall j {:trigger Contains(s, Lines86To95[j].0)} :: 0 <= j < |Lines86To95| ==> !Contains(s, Lines86To95[j].0)
  {
    forall j | 0 <= j < |Lines86To95|
      ensures !Contains(s, Lines86To95[j].0)
    {
      if j == 0 {
        MissingCharNotContains(s, Line86.0, 'd');
      } else if j == 1 {
        MissingCharNotContains(s, Line87.0, 'p');
      } else if j == 2 {
        MissingCharNotContains(s, Line88.0, 'l');
      } else if j == 3 {
        MissingCharNotContains(s, Line89.0, 'r');
      } else if j == 4 {
        MissingCharNotContains(s, Line90.0, 'r');
      } else if j == 5 {
        MissingCharNotContains(s, Line91.0, 'r');
      } else if j == 6 {
        MissingCharNotContains(s, Line92.0, 'd');
      } else if j == 7 {
        MissingCharNotContains(s, Line93.0, 'l');
      } else if j == 8 {
        MissingCharNotContains(s, Line94.0, 'r');
      } else {
        MissingCharNotContains(s, Line95.0, 'r');
      }
    }
  }

  lemma AtAnyTimeComesFirstPart1(front: string, back: string)
    requires 'd' !in front + back && 'l' !in front + back && 'p' !in front + back && 'r' !in front + back
    ensures ApplyFrom(Lines86To95, 0, front + Line99.0 + back) == front + Line99.0 + back
  {
    AtAnyTimeComesFirstPart1Context0(front, back);
    AtAnyTimeComesFirstPart1Context1(front, back);
    AtAnyTimeComesFirstPart1Keys(front + Line99.0 + back);
    ApplyFromUntouched(Lines86To95, 0, front + Line99.0 + back);
  }

  lemma AtAnyTimeComesFirstPart1Context0(front: string, back: string)
    requires 'd' !in front + back && 'l' !in front + back && 'p' !in front + back && 'r' !in front + back
    ensures 'd' !in front + Line99.0 + back && 'l' !in front + Line99.0 + back && 'p' !in front + Line99.0 + back
  {
  }

  lemma AtAnyTimeComesFirstPart1Context1(front: string, back: string)
    requires 'd' !in front + back && 'l' !in front + back && 'p' !in front + back && 'r' !in front + back
    ensures 'r' !in front + Line99.0 + back
  {
  }

  lemma AtAnyTimeComesFirstPart2KeysBefore(s: string)
    requires 'p' !in s && 'r' !in s
    ensures forall j {:trigger Contains(s, Lines96To105[j].0)} :: 0 <= j < 3 ==> !Contains(s, Lines96To105[j].0)
  {
    forall j | 0 <= j < 3
      ensures !Contains(s, Lines96To105[j].0)
    {
      if j == 0 {
        MissingCharNotContains(s, Line96.0, 'r');
      } else if j == 1 {
        MissingCharNotContains(s, Line97.0, 'p');
      } else {
        MissingCharNotContains(s, Line98.0, 'r');
      }
    }
  }

  lemma AtAnyTimeComesFirstPart2KeysAfter(s: string)
    requires 'd' !in s && 'g' !in s && 'k' !in s && 'm' !in s && 'p' !in s
    ensures forall j {:trigger Contains(s, Lines96To105[j].0)} :: 4 <= j < |Lines96To105| ==> !Contains(s, Lines96To105[j].0)
  {
    forall j | 4 <= j < |Lines96To105|
      ensures !Contains(s, Lines96To105[j].0)
    {
      if j == 4 {
        MissingCharNotContains(s, Line100.0, 'p');
      } else if j == 5 {
        MissingCharNotContains(s, Line101.0, 'd');
      } else if j == 6 {
        MissingCharNotContains(s, Line102.0, 'm');
      } else if j == 7 {
        MissingCharNotContains(s, Line103.0, 'k');
      } else if j == 8 {
        MissingCharNotContains(s, Line104.0, 'g');
      } else {
        MissingCharNotContains(s, Line105.0, 'g');
      }
    }
  }

  /** Entry 23 (line 99) is the only one of entries 20-29 whose key occurs. */
  lemma AtAnyTimeComesFirstPart2(front: string, back: string)
    requires 'd' !in front + back && 'g' !in front + back && 'k' !in front + back && 'm' !in front + back && 'p' !in front + back && 'r' !in front + back && 'a' !in front
    ensures ApplyFrom(Lines96To105, 0, front + Line99.0 + back) == front + Line99.1 + back
  {
    AtAnyTimeComesFirstPart2Context0(front, back);
    AtAnyTimeComesFirstPart2Context1(front, back);
    AtAnyTimeComesFirstPart2Context2(front, back);
    AtAnyTimeComesFirstPart2KeysBefore(front + Line99.0 + back);
    AtAnyTimeComesFirstPart2KeysAfter(front + Line99.1 + back);
    MissingCharNotContains(back, Line99.0, 'm');
    ReplaceInRun(Lines96To105, 3, front, back);
  }

  lemma AtAnyTimeComesFirstPart2Context0(front: string, back: string)
    requires 'd' !in front + back && 'g' !in front + back && 'k' !in front + back && 'm' !in front + back && 'p' !in front + back && 'r' !in front + back && 'a' !in front
    ensures 'p' !in front + Line99.0 + back && 'r' !in front + Line99.0 + back && 'd' !in front + Line99.1 + back
  {
  }

  lemma AtAnyTimeComesFirstPart2Context1(front: string, back: string)
    requires 'd' !in front + back && 'g' !in front + back && 'k' !in front + back && 'm' !in front + back && 'p' !in front + back && 'r' !in front + back && 'a' !in front
    ensures 'g' !in front + Line99.1 + back && 'k' !in front + Line99.1 + back && 'm' !in front + Line99.1 + back
  {
  }

  lemma AtAnyTimeComesFirstPart2Context2(front: string, back: string)
    requires 'd' !in front + back && 'g' !in front + back && 'k' !in front + back && 'm' !in front + back && 'p' !in front + back && 'r' !in front + back && 'a' !in front
    ensures 'p' !in front + Line99.1 + back
  {
  }

  lemma AtAnyTimeComesFirstPart3Keys(s: string)
    requires ',' !in s && 'b' !in s && 'd' !in s && 'g' !in s && 'l' !in s && 'y' !in s
    ensures forall j {:trigger Contains(s, Lines106To116[j].0)} :: 0 <= j < |Lines106To116| ==> !Contains(s, Lines106To116[j].0)
  {
    forall j | 0 <= j < |Lines106To116|
      ensures !Contains(s, Lines106To116[j].0)
    {
      if j == 0 {
        MissingCharNotContains(s, Line106.0, 'l');
      } else if j == 1 {
        MissingCharNotContains(s, Line107.0, 'l');
      } else if j == 2 {
        MissingCharNotContains(s, Line108.0, 'y');
      } else if j == 3 {
        MissingCharNotContains(s, Line109.0, ',');
      } else if j == 4 {
        MissingCharNotContains(s, Line110.0, 'l');
      } else if j == 5 {
        MissingCharNotContains(s, Line111.0, 'b');
      } else if j == 6 {
        MissingCharNotContains(s, Line112.0, 'g');
      } else if j == 7 {
        MissingCharNotContains(s, Line114.0, 'd');
      } else if j == 8 {
        MissingCharNotContains(s, Line115.0, 'l');
      } else {
        MissingCharNotContains(s, Line116.0, 'd');
      }
    }
  }

  lemma AtAnyTimeComesFirstPart3(front: string, back: string)
    requires ',' !in front + back && 'b' !in front + back && 'd' !in front + back && 'g' !in front + back && 'l' !in front + back && 'y' !in front + back
    ensures ApplyFrom(Lines106To116, 0, front + Line99.1 + back) == front + Line99.1 + back
  {
    AtAnyTimeComesFirstPart3Context0(front, back);
    AtAnyTimeComesFirstPart3Context1(front, back);
    AtAnyTimeComesFirstPart3Keys(front + Line99.1 + back);
    ApplyFromUntouched(Lines106To116, 0, front + Line99.1 + back);
  }

  lemma AtAnyTimeComesFirstPart3Context0(front: string, back: string)
    requires ',' !in front + back && 'b' !in front + back && 'd' !in front + back && 'g' !in front + back && 'l' !in front + back && 'y' !in front + back
    ensures ',' !in front + Line99.1 + back && 'b' !in front + Line99.1 + back && 'd' !in front + Line99.1 + back
  {
  }

  lemma AtAnyTimeComesFirstPart3Context1(front: string, back: string)
    requires ',' !in front + back && 'b' !in front + back && 'd' !in front + back && 'g' !in front + back && 'l' !in front + back && 'y' !in front + back
    ensures 'g' !in front + Line99.1 + back && 'l' !in front + Line99.1 + back && 'y' !in front + Line99.1 + back
  {
  }

  lemma AtAnyTimeComesFirstPart4Keys(s: string)
    requires 'd' !in s && 'l' !in s && 'm' !in s && 'p' !in s
    ensures forall j {:trigger Contains(s, Lines117To126[j].0)} :: 0 <= j < |Lines117To126| ==> !Contains(s, Lines117To126[j].0)
  {
    forall j | 0 <= j < |Lines117To126|
      ensures !Contains(s, Lines117To126[j].0)
    {
      if j == 0 {
        MissingCharNotContains(s, Line117.0, 'd');
      } else if j == 1 {
        MissingCharNotContains(s, Line118.0, 'd');
      } else if j == 2 {
        MissingCharNotContains(s, Line119.0, 'm');
      } else if j == 3 {
        MissingCharNotContains(s, Line120.0, 'm');
      } else if j == 4 {
        MissingCharNotContains(s, Line121.0, 'l');
      } else if j == 5 {
        MissingCharNotContains(s, Line122.0, 'd');
      } else if j == 6 {
        MissingCharNotContains(s, Line123.0, 'm');
      } else if j == 7 {
        MissingCharNotContains(s, Line124.0, 'p');
      } else if j == 8 {
        MissingCharNotContains(s, Line125.0, 'l');
      } else {
        MissingCharNotContains(s, Line126.0, 'm');
      }
    }
  }

  lemma AtAnyTimeComesFirstPart4(front: string, back: string)
    requires 'd' !in front + back && 'l' !in front + back && 'm' !in front + back && 'p' !in front + back
    ensures ApplyFrom(Lines117To126, 0, front + Line99.1 + back) == front + Line99.1 + back
  {
    AtAnyTimeComesFirstPart4Context0(front, back);
    AtAnyTimeComesFirstPart4Context1(front, back);
    AtAnyTimeComesFirstPart4Keys(front + Line99.1 + back);
    ApplyFromUntouched(Lines117To126, 0, front + Line99.1 + back);
  }

  lemma AtAnyTimeComesFirstPart4Context0(front: string, back: string)
    requires 'd' !in front + back && 'l' !in front + back && 'm' !in front + back && 'p' !in front + back
    ensures 'd' !in front + Line99.1 + back && 'l' !in front + Line99.1 + back && 'm' !in front + Line99.1 + back
  {
  }

  lemma AtAnyTimeComesFirstPart4Context1(front: string, back: string)
    requires 'd' !in front + back && 'l' !in front + back && 'm' !in front + back && 'p' !in front + back
    ensures 'p' !in front + Line99.1 + back
  {
  }

  /** One pass can chain entries: line 80 turns the phrase into "report to managers", which line 104 then turns into "update managers". */
  lemma ReportingChain()
    ensures Normalize("reporting to designated managers") == "update managers"
  {
    ReportingChainText();
    ReportingChainInstance();
    ReportingChainResult();
  }

  lemma ReportingChainText()
    ensures "reporting to designated managers" == "" + Line80.0 + ""
  {
  }

  lemma ReportingChainResult()
    ensures "" + Line104.1 + "" == "update managers"
  {
  }

  lemma ReportingChainInstance()
    ensures Normalize("" + Line80.0 + "") == "" + Line104.1 + ""
  {
    ReportingChainInContext("", "");
  }

  /** The chain of lines 80 and 104, in any surrounding text that lacks the letters the proof uses to rule out the other keys. */
  lemma ReportingChainInContext(front: string, back: string)
    requires 'b' !in front + back && 'c' !in front + back && 'd' !in front + back && 'h' !in front + back && 'i' !in front + back && 'k' !in front + back && 'l' !in front + back && 'o' !in front + back && 'u' !in front + back && 'w' !in front + back && 'y' !in front + back && 'r' !in front && 's' !in back
    ensures Normalize(front + Line80.0 + back) == front + Line104.1 + back
  {
    NormalizeByParts(front + Line80.0 + back);
    ReportingChainPart0(front, back);
    ReportingChainPart1(front, back);
    assert Line80.1 == Line104.0;
    ReportingChainPart2(front, back);
    ReportingChainPart3(front, back);
    ReportingChainPart4(front, back);
  }

  lemma ReportingChainPart0KeysBefore(s: string)
    requires 'c' !in s && 'u' !in s && 'y' !in s
    ensures forall j {:trigger Contains(s, Lines76To85[j].0)} :: 0 <= j < 4 ==> !Contains(s, Lines76To85[j].0)
  {
    forall j | 0 <= j < 4
      ensures !Contains(s, Lines76To85[j].0)
    {
      if j == 0 {
        MissingCharNotContains(s, Line76.0, 'c');
      } else if j == 1 {
        MissingCharNotContains(s, Line77.0, 'y');
      } else if j == 2 {
        MissingCharNotContains(s, Line78.0, 'c');
      } else {
        MissingCharNotContains(s, Line79.0, 'u');
      }
    }
  }

  lemma ReportingChainPart0KeysAfter(s: string)
    requires 'c' !in s && 'd' !in s && 'h' !in s && 'y' !in s
    ensures forall j {:trigger Contains(s, Lines76To85[j].0)} :: 5 <= j < |Lines76To85| ==> !Contains(s, Lines76To85[j].0)
  {
    forall j | 5 <= j < |Lines76To85|
      ensures !Contains(s, Lines76To85[j].0)
    {
      if j == 5 {
        MissingCharNotContains(s, Line81.0, 'd');
      } else if j == 6 {
        MissingCharNotContains(s, Line82.0, 'y');
      } else if j == 7 {
        MissingCharNotContains(s, Line83.0, 'c');
      } else if j == 8 {
        MissingCharNotContains(s, Line84.0, 'y');
      } else {
        MissingCharNotContains(s, Line85.0, 'h');
      }
    }
  }

  /** Entry 4 (line 80) is the only one of entries 0-9 whose key occurs. */
  lemma ReportingChainPart0(front: string, back: string)
    requires 'c' !in front + back && 'd' !in front + back && 'h' !in front + back && 'u' !in front + back && 'y' !in front + back && 'r' !in front && 's' !in back
    ensures ApplyFrom(Lines76To85, 0, front + Line80.0 + back) == front + Line80.1 + back
  {
    ReportingChainPart0Context0(front, back);
    ReportingChainPart0Context1(front, back);
    ReportingChainPart0Context2(front, back);
    ReportingChainPart0KeysBefore(front + Line80.0 + back);
    ReportingChainPart0KeysAfter(front + Line80.1 + back);
    MissingCharNotContains(back, Line80.0, 's');
    ReplaceInRun(Lines76To85, 4, front, back);
  }

  lemma ReportingChainPart0Context0(front: string, back: string)
    requires 'c' !in front + back && 'd' !in front + back && 'h' !in front + back && 'u' !in front + back && 'y' !in front + back && 'r' !in front && 's' !in back
    ensures 'c' !in front + Line80.0 + back && 'u' !in front + Line80.0 + back && 'y' !in front + Line80.0 + back
  {
  }

  lemma ReportingChainPart0Context1(front: string, back: string)
    requires 'c' !in front + back && 'd' !in front + back && 'h' !in front + back && 'u' !in front + back && 'y' !in front + back && 'r' !in front && 's' !in back
    ensures 'c' !in front + Line80.1 + back && 'd' !in front + Line80.1 + back && 'h' !in front + Line80.1 + back
  {
  }

  lemma ReportingChainPart0Context2(front: string, back: string)
    requires 'c' !in front + back && 'd' !in front + back && 'h' !in front + back && 'u' !in front + back && 'y' !in front + back && 'r' !in front && 's' !in back
    ensures 'y' !in front + Line80.1 + back
  {
  }

  lemma ReportingChainPart1Keys(s: string)
    requires 'c' !in s && 'd' !in s && 'i' !in s && 'w' !in s && 'y' !in s
    ensures forall j {:trigger Contains(s, Lines86To95[j].0)} :: 0 <= j < |Lines86To95| ==> !Contains(s, Lines86To95[j].0)
  {
    forall j | 0 <= j < |Lines86To95|
      ensures !Contains(s, Lines86To95[j].0)
    {
      if j == 0 {
        MissingCharNotContains(s, Line86.0, 'd');
      } else if j == 1 {
        MissingCharNotContains(s, Line87.0, 'y');
      } else if j == 2 {
        MissingCharNotContains(s, Line88.0, 'w');
      } else if j == 3 {
        MissingCharNotContains(s, Line89.0, 'c');
      } else if j == 4 {
        MissingCharNotContains(s, Line90.0, 'i');
      } else if j == 5 {
        MissingCharNotContains(s, Line91.0, 'c');
      } else if j == 6 {
        MissingCharNotContains(s, Line92.0, 'c');
      } else if j == 7 {
        MissingCharNotContains(s, Line93.0, 'i');
      } else if j == 8 {
        MissingCharNotContains(s, Line94.0, 'i');
      } else {
        MissingCharNotContains(s, Line95.0, 'i');
      }
    }
  }

  lemma ReportingChainPart1(front: string, back: string)
    requires 'c' !in front + back && 'd' !in front + back && 'i' !in front + back && 'w' !in front + back && 'y' !in front + back
    ensures ApplyFrom(Lines86To95, 0, front + Line80.1 + back) == front + Line80.1 + back
  {
    ReportingChainPart1Context0(front, back);
    ReportingChainPart1Context1(front, back);
    ReportingChainPart1Keys(front + Line80.1 + back);
    ApplyFromUntouched(Lines86To95, 0, front + Line80.1 + back);
  }

  lemma ReportingChainPart1Context0(front: string, back: string)
    requires 'c' !in front + back && 'd' !in front + back && 'i' !in front + back && 'w' !in front + back && 'y' !in front + back
    ensures 'c' !in front + Line80.1 + back && 'd' !in front + Line80.1 + back && 'i' !in front + Line80.1 + back
  {
  }

  lemma ReportingChainPart1Context1(front: string, back: string)
    requires 'c' !in front + back && 'd' !in front + back && 'i' !in front + back && 'w' !in front + back && 'y' !in front + back
    ensures 'w' !in front + Line80.1 + back && 'y' !in front + Line80.1 + back
  {
  }

  lemma ReportingChainPart2KeysBefore(s: string)
    requires 'c' !in s && 'i' !in s && 'k' !in s
    ensures forall j {:trigger Contains(s, Lines96To105[j].0)} :: 0 <= j < 8 ==> !Contains(s, Lines96To105[j].0)
  {
    forall j | 0 <= j < 8
      ensures !Contains(s, Lines96To105[j].0)
    {
      if j == 0 {
        MissingCharNotContains(s, Line96.0, 'c');
      } else if j == 1 {
        MissingCharNotContains(s, Line97.0, 'c');
      } else if j == 2 {
        MissingCharNotContains(s, Line98.0, 'i');
      } else if j == 3 {
        MissingCharNotContains(s, Line99.0, 'i');
      } else if j == 4 {
        MissingCharNotContains(s, Line100.0, 'i');
      } else if j == 5 {
        MissingCharNotContains(s, Line101.0, 'i');
      } else if j == 6 {
        MissingCharNotContains(s, Line102.0, 'i');
      } else {
        MissingCharNotContains(s, Line103.0, 'k');
      }
    }
  }

  lemma ReportingChainPart2KeysAfter(s: string)
    requires 'h' !in s
    ensures forall j {:trigger Contains(s, Lines96To105[j].0)} :: 9 <= j < |Lines96To105| ==> !Contains(s, Lines96To105[j].0)
  {
    forall j | 9 <= j < |Lines96To105|
      ensures !Contains(s, Lines96To105[j].0)
    {
      MissingCharNotContains(s, Line105.0, 'h');
    }
  }

  /** Entry 28 (line 104) is the only one of entries 20-29 whose key occurs. */
  lemma ReportingChainPart2(front: string, back: string)
    requires 'c' !in front + back && 'h' !in front + back && 'i' !in front + back && 'k' !in front + back && 'r' !in front && 's' !in back
    ensures ApplyFrom(Lines96To105, 0, front + Line104.0 + back) == front + Line104.1 + back
  {
    ReportingChainPart2Context0(front, back);
    ReportingChainPart2Context1(front, back);
    ReportingChainPart2KeysBefore(front + Line104.0 + back);
    ReportingChainPart2KeysAfter(front + Line104.1 + back);
    MissingCharNotContains(back, Line104.0, 's');
    ReplaceInRun(Lines96To105, 8, front, back);
  }

  lemma ReportingChainPart2Context0(front: string, back: string)
    requires 'c' !in front + back && 'h' !in front + back && 'i' !in front + back && 'k' !in front + back && 'r' !in front && 's' !in back
    ensures 'c' !in front + Line104.0 + back && 'i' !in front + Line104.0 + back && 'k' !in front + Line104.0 + back
  {
  }

  lemma ReportingChainPart2Context1(front: string, back: string)
    requires 'c' !in front + back && 'h' !in front + back && 'i' !in front + back && 'k' !in front + back && 'r' !in front && 's' !in back
    ensures 'h' !in front + Line104.1 + back
  {
  }

  lemma ReportingChainPart3Keys(s: string)
    requires 'c' !in s && 'i' !in s && 'l' !in s && 'o' !in s && 'y' !in s
    ensures forall j {:trigger Contains(s, Lines106To116[j].0)} :: 0 <= j < |Lines106To116| ==> !Contains(s, Lines106To116[j].0)
  {
    forall j | 0 <= j < |Lines106To116|
      ensures !Contains(s, Lines106To116[j].0)
    {
      if j == 0 {
        MissingCharNotContains(s, Line106.0, 'o');
      } else if j == 1 {
        MissingCharNotContains(s, Line107.0, 'l');
      } else if j == 2 {
        MissingCharNotContains(s, Line108.0, 'y');
      } else if j == 3 {
        MissingCharNotContains(s, Line109.0, 'o');
      } else if j == 4 {
        MissingCharNotContains(s, Line110.0, 'c');
      } else if j == 5 {
        MissingCharNotContains(s, Line111.0, 'i');
      } else if j == 6 {
        MissingCharNotContains(s, Line112.0, 'l');
      } else if j == 7 {
        MissingCharNotContains(s, Line114.0, 'i');
      } else if j == 8 {
        MissingCharNotContains(s, Line115.0, 'i');
      } else {
        MissingCharNotContains(s, Line116.0, 'o');
      }
    }
  }

  lemma ReportingChainPart3(front: string, back: string)
    requires 'c' !in front + back && 'i' !in front + back && 'l' !in front + back && 'o' !in front + back && 'y' !in front + back
    ensures ApplyFrom(Lines106To116, 0, front + Line104.1 + back) == front + Line104.1 + back
  {
    ReportingChainPart3Context0(front, back);
    ReportingChainPart3Context1(front, back);
    ReportingChainPart3Keys(front + Line104.1 + back);
    ApplyFromUntouched(Lines106To116, 0, front + Line104.1 + back);
  }

  lemma ReportingChainPart3Context0(front: string, back: string)
    requires 'c' !in front + back && 'i' !in front + back && 'l' !in front + back && 'o' !in front + back && 'y' !in front + back
    ensures 'c' !in front + Line104.1 + back && 'i' !in front + Line104.1 + back && 'l' !in front + Line104.1 + back
  {
  }

  lemma ReportingChainPart3Context1(front: string, back: string)
    requires 'c' !in front + back && 'i' !in front + back && 'l' !in front + back && 'o' !in front + back && 'y' !in front + back
    ensures 'o' !in front + Line104.1 + back && 'y' !in front + Line104.1 + back
  {
  }

  lemma ReportingChainPart4Keys(s: string)
    requires 'b' !in s && 'c' !in s && 'i' !in s && 'l' !in s && 'o' !in s
    ensures forall j {:trigger Contains(s, Lines117To126[j].0)} :: 0 <= j < |Lines117To126| ==> !Contains(s, Lines117To126[j].0)
  {
    forall j | 0 <= j < |Lines117To126|
      ensures !Contains(s, Lines117To126[j].0)
    {
      if j == 0 {
        MissingCharNotContains(s, Line117.0, 'b');
      } else if j == 1 {
        MissingCharNotContains(s, Line118.0, 'o');
      } else if j == 2 {
        MissingCharNotContains(s, Line119.0, 'o');
      } else if j == 3 {
        MissingCharNotContains(s, Line120.0, 'o');
      } else if j == 4 {
        MissingCharNotContains(s, Line121.0, 'l');
      } else if j == 5 {
        MissingCharNotContains(s, Line122.0, 'c');
      } else if j == 6 {
        MissingCharNotContains(s, Line123.0, 'c');
      } else if j == 7 {
        MissingCharNotContains(s, Line124.0, 'c');
      } else if j == 8 {
        MissingCharNotContains(s, Line125.0, 'i');
      } else {
        MissingCharNotContains(s, Line126.0, 'o');
      }
    }
  }

  lemma ReportingChainPart4(front: string, back: string)
    requires 'b' !in front + back && 'c' !in front + back && 'i' !in front + back && 'l' !in front + back && 'o' !in front + back
    ensures ApplyFrom(Lines117To126, 0, front + Line104.1 + back) == front + Line104.1 + back
  {
    ReportingChainPart4Context0(front, back);
    ReportingChainPart4Context1(front, back);
    ReportingChainPart4Keys(front + Line104.1 + back);
    ApplyFromUntouched(Lines117To126, 0, front + Line104.1 + back);
  }

  lemma ReportingChainPart4Context0(front: string, back: string)
    requires 'b' !in front + back && 'c' !in front + back && 'i' !in front + back && 'l' !in front + back && 'o' !in front + back
    ensures 'b' !in front + Line104.1 + back && 'c' !in front + Line104.1 + back && 'i' !in front + Line104.1 + back
  {
  }

  lemma ReportingChainPart4Context1(front: string, back: string)
    requires 'b' !in front + back && 'c' !in front + back && 'i' !in front + back && 'l' !in front + back && 'o' !in front + back
    ensures 'l' !in front + Line104.1 + back && 'o' !in front + Line104.1 + back
  {
  }

  /** The repeated key "from time to time" gives "sometimes", the value of its later line 113, never "occasionally". */
  lemma RepeatedKeyUsesLastValue()
    ensures Normalize("work from time to time") == "work sometimes"
  {
    RepeatedKeyUsesLastValueText();
    RepeatedKeyUsesLastValueInstance();
    RepeatedKeyUsesLastValueResult();
  }

  lemma RepeatedKeyUsesLastValueText()
    ensures "work from time to time" == "work " + Line98.0 + ""
  {
  }

  lemma RepeatedKeyUsesLastValueResult()
    ensures "work " + Line98.1 + "" == "work sometimes"
  {
  }

  lemma RepeatedKeyUsesLastValueInstance()
    ensures Normalize("work " + Line98.0 + "") == "work " + Line98.1 + ""
  {
    RepeatedKeyUsesLastValueContext0();
    RepeatedKeyUsesLastValueContext1();
    RepeatedKeyUsesLastValueContext2();
    RepeatedKeyUsesLastValueContext3();
    RepeatedKeyUsesLastValueInContext("work ", "");
  }

  lemma RepeatedKeyUsesLastValueContext0()
    ensures 'a' !in "work " && 'c' !in "work " && 'd' !in "work "
  {
  }

  lemma RepeatedKeyUsesLastValueContext1()
    ensures 'f' !in "work " && 'g' !in "work " && 'h' !in "work "
  {
  }

  lemma RepeatedKeyUsesLastValueContext2()
    ensures 'l' !in "work " && 'n' !in "work " && 's' !in "work "
  {
  }

  lemma RepeatedKeyUsesLastValueContext3()
    ensures 'u' !in "work " && 'v' !in "work " && 'y' !in "work "
  {
  }

  /** The repeated key, in any surrounding text that lacks the letters the proof uses to rule out the other keys. */
  lemma RepeatedKeyUsesLastValueInContext(front: string, back: string)
    requires 'a' !in front + back && 'c' !in front + back && 'd' !in front + back && 'f' !in front + back && 'g' !in front + back && 'h' !in front + back && 'l' !in front + back && 'n' !in front + back && 's' !in front + back && 'u' !in front + back && 'v' !in front + back && 'y' !in front + back && 'e' !in back
    ensures Normalize(front + Line98.0 + back) == front + Line98.1 + back
  {
    NormalizeByParts(front + Line98.0 + back);
    RepeatedKeyUsesLastValuePart0(front, back);
    RepeatedKeyUsesLastValuePart1(front, back);
    RepeatedKeyUsesLastValuePart2(front, back);
    RepeatedKeyUsesLastValuePart3(front, back);
    RepeatedKeyUsesLastValuePart4(front, back);
  }

  lemma RepeatedKeyUsesLastValuePart0Keys(s: string)
    requires 'c' !in s && 'd' !in s && 'h' !in s && 's' !in s && 'y' !in s
    ensures forall j {:trigger Contains(s, Lines76To85[j].0)} :: 0 <= j < |Lines76To85| ==> !Contains(s, Lines76To85[j].0)
  {
    forall j | 0 <= j < |Lines76To85|
      ensures !Contains(s, Lines76To85[j].0)
    {
      if j == 0 {
        MissingCharNotContains(s, Line76.0, 'c');
      } else if j == 1 {
        MissingCharNotContains(s, Line77.0, 'y');
      } else if j == 2 {
        MissingCharNotContains(s, Line78.0, 'd');
      } else if j == 3 {
        MissingCharNotContains(s, Line79.0, 's');
      } else if j == 4 {
        MissingCharNotContains(s, Line80.0, 's');
      } else if j == 5 {
        MissingCharNotContains(s, Line81.0, 'd');
      } else if j == 6 {
        MissingCharNotContains(s, Line82.0, 'y');
      } else if j == 7 {
        MissingCharNotContains(s, Line83.0, 's');
      } else if j == 8 {
        MissingCharNotContains(s, Line84.0, 'y');
      } else {
        MissingCharNotContains(s, Line85.0, 'h');
      }
    }
  }

  lemma RepeatedKeyUsesLastValuePart0(front: string, back: string)
    requires 'c' !in front + back && 'd' !in front + back && 'h' !in front + back && 's' !in front + back && 'y' !in front + back
    ensures ApplyFrom(Lines76To85, 0, front + Line98.0 + back) == front + Line98.0 + back
  {
    RepeatedKeyUsesLastValuePart0Context0(front, back);
    RepeatedKeyUsesLastValuePart0Context1(front, back);
    RepeatedKeyUsesLastValuePart0Keys(front + Line98.0 + back);
    ApplyFromUntouched(Lines76To85, 0, front + Line98.0 + back);
  }

  lemma RepeatedKeyUsesLastValuePart0Context0(front: string, back: string)
    requires 'c' !in front + back && 'd' !in front + back && 'h' !in front + back && 's' !in front + back && 'y' !in front + back
    ensures 'c' !in front + Line98.0 + back && 'd' !in front + Line98.0 + back && 'h' !in front + Line98.0 + back
  {
  }

  lemma RepeatedKeyUsesLastValuePart0Context1(front: string, back: string)
    requires 'c' !in front + back && 'd' !in front + back && 'h' !in front + back && 's' !in front + back && 'y' !in front + back
    ensures 's' !in front + Line98.0 + back && 'y' !in front + Line98.0 + back
  {
  }

  lemma RepeatedKeyUsesLastValuePart1Keys(s: string)
    requires 'c' !in s && 'd' !in s && 'n' !in s && 's' !in s && 'y' !in s
    ensures forall j {:trigger Contains(s, Lines86To95[j].0)} :: 0 <= j < |Lines86To95| ==> !Contains(s, Lines86To95[j].0)
  {
    forall j | 0 <= j < |Lines86To95|
      ensures !Contains(s, Lines86To95[j].0)
    {
      if j == 0 {
        MissingCharNotContains(s, Line86.0, 'd');
      } else if j == 1 {
        MissingCharNotContains(s, Line87.0, 'y');
      } else if j == 2 {
        MissingCharNotContains(s, Line88.0, 's');
      } else if j == 3 {
        MissingCharNotContains(s, Line89.0, 'c');
      } else if j == 4 {
        MissingCharNotContains(s, Line90.0, 's');
      } else if j == 5 {
        MissingCharNotContains(s, Line91.0, 'c');
      } else if j == 6 {
        MissingCharNotContains(s, Line92.0, 'c');
      } else if j == 7 {
        MissingCharNotContains(s, Line93.0, 's');
      } else if j == 8 {
        MissingCharNotContains(s, Line94.0, 'n');
      } else {
        MissingCharNotContains(s, Line95.0, 'n');
      }
    }
  }

  lemma RepeatedKeyUsesLastValuePart1(front: string, back: string)
    requires 'c' !in front + back && 'd' !in front + back && 'n' !in front + back && 's' !in front + back && 'y' !in front + back
    ensures ApplyFrom(Lines86To95, 0, front + Line98.0 + back) == front + Line98.0 + back
  {
    RepeatedKeyUsesLastValuePart1Context0(front, back);
    RepeatedKeyUsesLastValuePart1Context1(front, back);
    RepeatedKeyUsesLastValuePart1Keys(front + Line98.0 + back);
    ApplyFromUntouched(Lines86To95, 0, front + Line98.0 + back);
  }

  lemma RepeatedKeyUsesLastValuePart1Context0(front: string, back: string)
    requires 'c' !in front + back && 'd' !in front + back && 'n' !in front + back && 's' !in front + back && 'y' !in front + back
    ensures 'c' !in front + Line98.0 + back && 'd' !in front + Line98.0 + back && 'n' !in front + Line98.0 + back
  {
  }

  lemma RepeatedKeyUsesLastValuePart1Context1(front: string, back: string)
    requires 'c' !in front + back && 'd' !in front + back && 'n' !in front + back && 's' !in front + back && 'y' !in front + back
    ensures 's' !in front + Line98.0 + back && 'y' !in front + Line98.0 + back
  {
  }

  lemma RepeatedKeyUsesLastValuePart2KeysBefore(s: string)
    requires 'c' !in s && 's' !in s
    ensures forall j {:trigger Contains(s, Lines96To105[j].0)} :: 0 <= j < 2 ==> !Contains(s, Lines96To105[j].0)
  {
    forall j | 0 <= j < 2
      ensures !Contains(s, Lines96To105[j].0)
    {
      if j == 0 {
        MissingCharNotContains(s, Line96.0, 's');
      } else {
        MissingCharNotContains(s, Line97.0, 'c');
      }
    }
  }

  lemma RepeatedKeyUsesLastValuePart2KeysAfter(s: string)
    requires 'a' !in s && 'g' !in s && 'h' !in s && 'n' !in s && 'v' !in s && 'y' !in s
    ensures forall j {:trigger Contains(s, Lines96To105[j].0)} :: 3 <= j < |Lines96To105| ==> !Contains(s, Lines96To105[j].0)
  {
    forall j | 3 <= j < |Lines96To105|
      ensures !Contains(s, Lines96To105[j].0)
    {
      if j == 3 {
        MissingCharNotContains(s, Line99.0, 'y');
      } else if j == 4 {
        MissingCharNotContains(s, Line100.0, 'v');
      } else if j == 5 {
        MissingCharNotContains(s, Line101.0, 'n');
      } else if j == 6 {
        MissingCharNotContains(s, Line102.0, 'n');
      } else if j == 7 {
        MissingCharNotContains(s, Line103.0, 'a');
      } else if j == 8 {
        MissingCharNotContains(s, Line104.0, 'g');
      } else {
        MissingCharNotContains(s, Line105.0, 'h');
      }
    }
  }

  /** Entry 22 (line 98) is the only one of entries 20-29 whose key occurs. */
  lemma RepeatedKeyUsesLastValuePart2(front: string, back: string)
    requires 'a' !in front + back && 'c' !in front + back && 'g' !in front + back && 'h' !in front + back && 'n' !in front + back && 's' !in front + back && 'v' !in front + back && 'y' !in front + back && 'f' !in front && 'e' !in back
    ensures ApplyFrom(Lines96To105, 0, front + Line98.0 + back) == front + Line98.1 + back
  {
    RepeatedKeyUsesLastValuePart2Context0(front, back);
    RepeatedKeyUsesLastValuePart2Context1(front, back);
    RepeatedKeyUsesLastValuePart2Context2(front, back);
    RepeatedKeyUsesLastValuePart2KeysBefore(front + Line98.0 + back);
    RepeatedKeyUsesLastValuePart2KeysAfter(front + Line98.1 + back);
    MissingCharNotContains(back, Line98.0, 'e');
    ReplaceInRun(Lines96To105, 2, front, back);
  }

  lemma RepeatedKeyUsesLastValuePart2Context0(front: string, back: string)
    requires 'a' !in front + back && 'c' !in front + back && 'g' !in front + back && 'h' !in front + back && 'n' !in front + back && 's' !in front + back && 'v' !in front + back && 'y' !in front + back && 'f' !in front && 'e' !in back
    ensures 'c' !in front + Line98.0 + back && 's' !in front + Line98.0 + back && 'a' !in front + Line98.1 + back
  {
  }

  lemma RepeatedKeyUsesLastValuePart2Context1(front: string, back: string)
    requires 'a' !in front + back && 'c' !in front + back && 'g' !in front + back && 'h' !in front + back && 'n' !in front + back && 's' !in front + back && 'v' !in front + back && 'y' !in front + back && 'f' !in front && 'e' !in back
    ensures 'g' !in front + Line98.1 + back && 'h' !in front + Line98.1 + back && 'n' !in front + Line98.1 + back
  {
  }

  lemma RepeatedKeyUsesLastValuePart2Context2(front: string, back: string)
    requires 'a' !in front + back && 'c' !in front + back && 'g' !in front + back && 'h' !in front + back && 'n' !in front + back && 's' !in front + back && 'v' !in front + back && 'y' !in front + back && 'f' !in front && 'e' !in back
    ensures 'v' !in front + Line98.1 + back && 'y' !in front + Line98.1 + back
  {
  }

  lemma RepeatedKeyUsesLastValuePart3Keys(s: string)
    requires 'c' !in s && 'd' !in s && 'g' !in s && 'l' !in s && 'n' !in s && 'y' !in s
    ensures forall j {:trigger Contains(s, Lines106To116[j].0)} :: 0 <= j < |Lines106To116| ==> !Contains(s, Lines106To116[j].0)
  {
    forall j | 0 <= j < |Lines106To116|
      ensures !Contains(s, Lines106To116[j].0)
    {
      if j == 0 {
        MissingCharNotContains(s, Line106.0, 'n');
      } else if j == 1 {
        MissingCharNotContains(s, Line107.0, 'l');
      } else if j == 2 {
        MissingCharNotContains(s, Line108.0, 'y');
      } else if j == 3 {
        MissingCharNotContains(s, Line109.0, 'n');
      } else if j == 4 {
        MissingCharNotContains(s, Line110.0, 'c');
      } else if j == 5 {
        MissingCharNotContains(s, Line111.0, 'n');
      } else if j == 6 {
        MissingCharNotContains(s, Line112.0, 'g');
      } else if j == 7 {
        MissingCharNotContains(s, Line114.0, 'd');
      } else if j == 8 {
        MissingCharNotContains(s, Line115.0, 'c');
      } else {
        MissingCharNotContains(s, Line116.0, 'n');
      }
    }
  }

  lemma RepeatedKeyUsesLastValuePart3(front: string, back: string)
    requires 'c' !in front + back && 'd' !in front + back && 'g' !in front + back && 'l' !in front + back && 'n' !in front + back && 'y' !in front + back
    ensures ApplyFrom(Lines106To116, 0, front + Line98.1 + back) == front + Line98.1 + back
  {
    RepeatedKeyUsesLastValuePart3Context0(front, back);
    RepeatedKeyUsesLastValuePart3Context1(front, back);
    RepeatedKeyUsesLastValuePart3Keys(front + Line98.1 + back);
    ApplyFromUntouched(Lines106To116, 0, front + Line98.1 + back);
  }

  lemma RepeatedKeyUsesLastValuePart3Context0(front: string, back: string)
    requires 'c' !in front + back && 'd' !in front + back && 'g' !in front + back && 'l' !in front + back && 'n' !in front + back && 'y' !in front + back
    ensures 'c' !in front + Line98.1 + back && 'd' !in front + Line98.1 + back && 'g' !in front + Line98.1 + back
  {
  }

  lemma RepeatedKeyUsesLastValuePart3Context1(front: string, back: string)
    requires 'c' !in front + back && 'd' !in front + back && 'g' !in front + back && 'l' !in front + back && 'n' !in front + back && 'y' !in front + back
    ensures 'l' !in front + Line98.1 + back && 'n' !in front + Line98.1 + back && 'y' !in front + Line98.1 + back
  {
  }

  lemma RepeatedKeyUsesLastValuePart4Keys(s: string)
    requires 'c' !in s && 'd' !in s && 'f' !in s && 'l' !in s && 'n' !in s && 'u' !in s
    ensures forall j {:trigger Contains(s, Lines117To126[j].0)} :: 0 <= j < |Lines117To126| ==> !Contains(s, Lines117To126[j].0)
  {
    forall j | 0 <= j < |Lines117To126|
      ensures !Contains(s, Lines117To126[j].0)
    {
      if j == 0 {
        MissingCharNotContains(s, Line117.0, 'd');
      } else if j == 1 {
        MissingCharNotContains(s, Line118.0, 'n');
      } else if j == 2 {
        MissingCharNotContains(s, Line119.0, 'n');
      } else if j == 3 {
        MissingCharNotContains(s, Line120.0, 'f');
      } else if j == 4 {
        MissingCharNotContains(s, Line121.0, 'l');
      } else if j == 5 {
        MissingCharNotContains(s, Line122.0, 'd');
      } else if j == 6 {
        MissingCharNotContains(s, Line123.0, 'u');
      } else if j == 7 {
        MissingCharNotContains(s, Line124.0, 'c');
      } else if j == 8 {
        MissingCharNotContains(s, Line125.0, 'c');
      } else {
        MissingCharNotContains(s, Line126.0, 'n');
      }
    }
  }

  lemma RepeatedKeyUsesLastValuePart4(front: string, back: string)
    requires 'c' !in front + back && 'd' !in front + back && 'f' !in front + back && 'l' !in front + back && 'n' !in front + back && 'u' !in front + back
    ensures ApplyFrom(Lines117To126, 0, front + Line98.1 + back) == front + Line98.1 + back
  {
    RepeatedKeyUsesLastValuePart4Context0(front, back);
    RepeatedKeyUsesLastValuePart4Context1(front, back);
    RepeatedKeyUsesLastValuePart4Keys(front + Line98.1 + back);
    ApplyFromUntouched(Lines117To126, 0, front + Line98.1 + back);
  }

  lemma RepeatedKeyUsesLastValuePart4Context0(front: string, back: string)
    requires 'c' !in front + back && 'd' !in front + back && 'f' !in front + back && 'l' !in front + back && 'n' !in front + back && 'u' !in front + back
    ensures 'c' !in front + Line98.1 + back && 'd' !in front + Line98.1 + back && 'f' !in front + Line98.1 + back
  {
  }

  lemma RepeatedKeyUsesLastValuePart4Context1(front: string, back: string)
    requires 'c' !in front + back && 'd' !in front + back && 'f' !in front + back && 'l' !in front + back && 'n' !in front + back && 'u' !in front + back
    ensures 'l' !in front + Line98.1 + back && 'n' !in front + Line98.1 + back && 'u' !in front + Line98.1 + back
  {
  }
}
