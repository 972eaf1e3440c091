/**
 * What the clean-up stages of the add-command parser do to the text itself:
 * the time-word loop removes every time word and creates no whole word, the
 * final clean-up leaves a tidy name alone and creates no whole word, and so
 * the name that a "by" phrase was cut from keeps no word "by". Two commands
 * worked through the whole pipeline close the file.
 */
module ParseLaws {
  import opened Wrappers
  import opened Text
  import opened TaskParsing

  // ---------------------------------------------------------------------------
  // The time-word loop
  // ---------------------------------------------------------------------------

  /** Every time word is a word, or words joined by one space. */
  lemma TimeWordsPlain()
    ensures forall w :: w in TimeWords ==> PlainPhrase(w)
  {
    PhraseTimeWordsPlain();
    DayNamesPlain();
    assert forall w :: w in TimeWords ==> exists n :: 0 <= n < 14 && TimeWords[n] == w;
  }

  /** The time words of two words: "this evening" to "next month". */
  lemma PhraseTimeWordsPlain()
    ensures forall n :: 3 <= n < 7 ==> PlainPhrase(TimeWords[n])
  {
    forall n | 3 <= n < 7
      ensures PlainPhrase(TimeWords[n])
    {
      var w := TimeWords[n];
      assert forall k :: 0 <= k < |w| ==> 'a' <= w[k] <= 'z' || w[k] == ' ';
      assert forall k :: 0 <= k < |w| - 1 && w[k] == ' ' ==> w[k + 1] != ' ';
      LettersPlain(w);
    }
  }

  /** The other time words, and the names of the days, are single words. */
  lemma DayNamesPlain()
    ensures forall n :: 0 <= n < 3 || 7 <= n < 14 ==> PlainPhrase(TimeWords[n])
  {
    forall n | 0 <= n < 3 || 7 <= n < 14
      ensures PlainPhrase(TimeWords[n])
    {
      var w := TimeWords[n];
      assert forall k :: 0 <= k < |w| ==> 'a' <= w[k] <= 'z';
    }
  }

  /** Lower-case words joined by single spaces form a plain phrase. */
  lemma LettersPlain(w: string)
    requires |w| > 0 && w[0] != ' ' && w[|w| - 1] != ' '
    requires forall k :: 0 <= k < |w| ==> 'a' <= w[k] <= 'z' || w[k] == ' '
    requires forall k :: 0 <= k < |w| - 1 && w[k] == ' ' ==> w[k + 1] != ' '
    ensures PlainPhrase(w)
  {
  }

  /** The loop's last step. */
  lemma TimeWordsLast(s: string, ws: seq<string>)
    requires ws != []
    ensures RemoveTimeWords(s, ws) == Remove(Word(ws[|ws| - 1]), RemoveTimeWords(s, ws[..|ws| - 1]))
  {
  }

  /** Text in which none of the words stands as a whole word passes unchanged. */
  lemma {:induction false} TimeWordsUnchanged(s: string, ws: seq<string>)
    requires forall w :: w in ws ==> |w| > 0 && NoWhole(s, w)
    ensures RemoveTimeWords(s, ws) == s
  {
    if ws != [] {
      var w := ws[|ws| - 1];
      assert forall v :: v in ws[..|ws| - 1] ==> v in ws;
      TimeWordsUnchanged(s, ws[..|ws| - 1]);
      TimeWordsLast(s, ws);
      forall j | 0 <= j < |s|
        ensures MatchLen(Word(w), s, j) == 0
      {
        assert !WholeAt(s, j, w);
      }
      RemoveFromNoMatch(Word(w), s, 0);
    }
  }

  /** The loop creates no whole word `v` the text did not have. */
  lemma {:induction false} TimeWordsKeepNoWhole(s: string, ws: seq<string>, v: string)
    requires forall w :: w in ws ==> PlainPhrase(w)
    requires PlainPhrase(v) && NoWhole(s, v)
    ensures NoWhole(RemoveTimeWords(s, ws), v)
  {
    if ws != [] {
      var t := RemoveTimeWords(s, ws[..|ws| - 1]);
      assert forall w :: w in ws[..|ws| - 1] ==> w in ws;
      TimeWordsKeepNoWhole(s, ws[..|ws| - 1], v);
      TimeWordsLast(s, ws);
      RemoveWordNoWhole(ws[|ws| - 1], v, t, 0);
    }
  }

  /** After the loop none of its words stands anywhere as a whole word: each is
      removed in its turn, and the later removals create none. */
  lemma {:induction false} TimeWordsGone(s: string, ws: seq<string>)
    requires forall w :: w in ws ==> PlainPhrase(w)
    ensures forall w :: w in ws ==> NoWhole(RemoveTimeWords(s, ws), w)
  {
    if ws != [] {
      var init, w := ws[..|ws| - 1], ws[|ws| - 1];
      var t := RemoveTimeWords(s, init);
      assert forall v :: v in init ==> v in ws;
      TimeWordsGone(s, init);
      TimeWordsLast(s, ws);
      forall v | v in ws
        ensures NoWhole(RemoveTimeWords(s, ws), v)
      {
        if v != w {
          assert v in init;
        }
        RemoveWordNoWhole(w, v, t, 0);
      }
    }
  }

  // ---------------------------------------------------------------------------
  // The final clean-up
  // ---------------------------------------------------------------------------

  /** `strip` creates no whole word. */
  lemma StripNoWhole(s: string, v: string)
    requires PlainPhrase(v) && NoWhole(s, v)
    ensures NoWhole(Strip(s), v)
  {
    TrimBothNoWhole(s, Whitespace, v);
  }

  /** A name that is already tidy is left as it is. */
  lemma TidyFixed(n: string)
    requires TidyName(n)
    ensures Tidy(n) == n
  {
    CollapseSpaced(n);
    TrimBothKept(n, Chars({' ', ',', '.'}));
  }

  /** The clean-up is idempotent. */
  lemma TidyIdempotent(s: string)
    ensures Tidy(Tidy(s)) == Tidy(s)
  {
    TidyShape(s);
    TidyFixed(Tidy(s));
  }

  /** The clean-up creates no whole single word. */
  lemma TidyNoWhole(s: string, v: string)
    requires SingleWord(v) && PlainPhrase(v) && NoWhole(s, v)
    ensures NoWhole(Tidy(s), v)
  {
    CollapseNoWhole(s, v);
    TrimBothNoWhole(Collapse(s), Chars({' ', ',', '.'}), v);
  }

  // ---------------------------------------------------------------------------
  // The name
  // ---------------------------------------------------------------------------

  /** No time word is left as a whole word once the time words are gone. */
  lemma TimelessHasNoTimeWord(text: string, env: Env)
    ensures forall w :: w in TimeWords ==> NoWhole(Trace(text, env).timeless, w)
  {
    var t := RemoveTimeWords(Trace(text, env).byDue.text, TimeWords);
    TimeWordsPlain();
    TimeWordsGone(Trace(text, env).byDue.text, TimeWords);
    forall w | w in TimeWords
      ensures NoWhole(Strip(t), w)
    {
      StripNoWhole(t, w);
    }
  }

  /** A cleaned name holds none of the single time words ("today", "monday", ...)
      as a whole word. Time words of two words can reappear: the clean-up joins
      "next" and "week" when more than one space stood between them. */
  lemma NameHasNoTimeWord(text: string, env: Env)
    requires Tidy(Trace(text, env).timeless) != []
    ensures forall w :: w in TimeWords && SingleWord(w) ==> NoWhole(Parse(text, env).name, w)
  {
    var st := Trace(text, env);
    TimelessHasNoTimeWord(text, env);
    TimeWordsPlain();
    forall w | w in TimeWords && SingleWord(w)
      ensures NoWhole(Tidy(st.timeless), w)
    {
      TidyNoWhole(st.timeless, w);
    }
    ParsedNameShape(text, env);
  }

  /** When a "by" phrase gave the due date and the clean-up leaves a name, the
      name holds no whole word "by" (for single-line commands): the cut took the
      first one and everything after it, and no later stage makes a new one. */
  lemma NameHasNoBy(text: string, env: Env)
    requires '\n' !in text
    requires Trace(text, env).byDue.due.Some? && Tidy(Trace(text, env).timeless) != []
    ensures forall i: nat :: !ByWordAt(Parse(text, env).name, i)
  {
    var st := Trace(text, env);
    DueTextHasNoBy(text, env);
    ByWordIsWhole(st.byDue.text);
    TimeWordsPlain();
    TimeWordsKeepNoWhole(st.byDue.text, TimeWords, "by");
    StripNoWhole(RemoveTimeWords(st.byDue.text, TimeWords), "by");
    TidyNoWhole(st.timeless, "by");
    ParsedNameShape(text, env);
    ByWordIsWhole(Parse(text, env).name);
  }

  // ---------------------------------------------------------------------------
  // Text that passes through
  // ---------------------------------------------------------------------------

  /** None of the priority keywords occurs in the lower-cased text. */
  predicate NoPriorityWords(lower: string) {
    !HighWanted(lower) && !Contains(lower, "medium priority") && !Contains(lower, "low priority")
  }

  /** Without keywords or a category phrase, the rules leave the text after the
      helper phrases as it is and find nothing. */
  lemma RulesPass(text: string, env: Env)
    requires var h := Trace(text, env).helpersGone;
      NoPriorityWords(Lower(h)) && forall i: nat, k: nat :: !CategoryMatchAt(h, i, k)
    ensures var st := Trace(text, env);
      st.priority == PriorityStep(None, st.helpersGone)
      && st.category == CategoryStep(None, st.helpersGone)
  {
    var h := Trace(text, env).helpersGone;
    assert IsStripped(h);
    StripStripped(h);
  }

  /** When the due-date stage leaves nothing, the clean-up leaves nothing either,
      and the name is the whole stripped command. */
  lemma NameFallsBack(text: string, env: Env)
    requires Trace(text, env).byDue.text == []
    ensures Parse(text, env).name == Strip(text)
  {
    ParsedNameNonEmpty(text, env);
  }

  /** Text that the rules pass, holding no "by", no time word and already tidy, is
      the name as it stands, and the classifiers and the standalone words decide
      the rest. */
  lemma PlainTextPassesThrough(text: string, env: Env)
    requires PlainAfterHelpers(Trace(text, env).helpersGone)
    ensures Parse(text, env) == ParsedTask(Trace(text, env).helpersGone,
      ModelPriority(env.priorityModel, Strip(text)), ModelCategory(env.categoryModel, Strip(text)),
      StandaloneDue(Strip(text), env.now))
  {
    PlainStages(text, env);
    TidyFixed(Trace(text, env).helpersGone);
  }

  /** What the pass-through needs of the text after the helper phrases. */
  ghost predicate PlainAfterHelpers(h: string) {
    NoPriorityWords(Lower(h)) && (forall i: nat, k: nat :: !CategoryMatchAt(h, i, k))
    && (forall i: nat :: !ByAt(Lower(h), i))
    && (forall w :: w in TimeWords ==> NoWhole(h, w))
    && h != [] && TidyName(h)
  }

  /** The stages leave such text as it is and find nothing. */
  lemma PlainStages(text: string, env: Env)
    requires PlainAfterHelpers(Trace(text, env).helpersGone)
    ensures var st := Trace(text, env);
      st.priority.level.None? && st.category.category.None? && st.byDue.due.None?
      && st.timeless == st.helpersGone
  {
    var st := Trace(text, env);
    var h := st.helpersGone;
    RulesPass(text, env);
    ByDueNoBy(h, env);
    TimeWordsPlain();
    TimeWordsUnchanged(h, TimeWords);
    StripStripped(h);
  }

  // ---------------------------------------------------------------------------
  // Two commands
  // ---------------------------------------------------------------------------

  /** Every character of `s`, lower-cased, is one of `cs`. */
  predicate LettersIn(s: string, cs: set<char>) {
    forall m :: 0 <= m < |s| ==> LowerChar(s[m]) in cs
  }

  /** A phrase with a character outside `cs` occurs nowhere in such a text,
      ignoring case or not. */
  lemma LetterMissing(s: string, cs: set<char>, w: string, k: nat)
    requires LettersIn(s, cs) && k < |w| && LowerChar(w[k]) !in cs
    ensures forall q: nat :: !MatchAt(s, q, w)
    ensures !Contains(Lower(s), w)
  {
    forall p: nat | p <= |Lower(s)| && Occurs(Lower(s), p, w)
      ensures false
    {
    }
  }

  /** The letters of "buy milk". */
  lemma BuyMilkLetters()
    ensures LettersIn("buy milk", {'b', 'u', 'y', ' ', 'm', 'i', 'l', 'k'})
  {
  }

  /** "buy milk" passes every stage after the helper phrases. */
  lemma BuyMilkIsPlain()
    ensures PlainAfterHelpers("buy milk")
  {
    BuyMilkNoKeywords();
    BuyMilkNoBy();
    BuyMilkNoTimeWord();
  }

  /** No priority keyword and no "in " occur in "buy milk". */
  lemma BuyMilkNoKeywords()
    ensures NoPriorityWords(Lower("buy milk"))
    ensures forall i: nat, k: nat :: !CategoryMatchAt("buy milk", i, k)
  {
    var h := "buy milk";
    var cs := {'b', 'u', 'y', ' ', 'm', 'i', 'l', 'k'};
    BuyMilkLetters();
    LetterMissing(h, cs, "high priority", 0);
    LetterMissing(h, cs, "urgent", 1);
    LetterMissing(h, cs, "very important", 0);
    LetterMissing(h, cs, "medium priority", 1);
    LetterMissing(h, cs, "low priority", 1);
    LetterMissing(h, cs, "in ", 1);
  }

  /** No time word occurs in "buy milk". */
  lemma BuyMilkNoTimeWord()
    ensures forall w :: w in TimeWords ==> NoWhole("buy milk", w)
  {
    var h := "buy milk";
    var cs := {'b', 'u', 'y', ' ', 'm', 'i', 'l', 'k'};
    BuyMilkLetters();
    forall w | w in TimeWords
      ensures NoWhole(h, w)
    {
      LetterMissing(h, cs, w, if w == "monday" then 1 else 0);
    }
  }

  /** "buy milk" has no "by": its only "b" is followed by "u". */
  lemma BuyMilkNoBy()
    ensures forall i: nat :: !ByAt(Lower("buy milk"), i)
  {
    var h := "buy milk";
    assert Lower(h) == h;
    forall i: nat | i + 2 <= |h|
      ensures !MatchAt(h, i, "by")
    {
      assert i == 0 || i == 1 || i == 2 || i == 3 || i == 4 || i == 5 || i == 6;
      assert LowerChar(h[i]) != LowerChar("by"[0]) || LowerChar(h[i + 1]) != LowerChar("by"[1]);
    }
  }

  /** The helper phrase "remind me to" and its space are all that go first. */
  lemma RemindBuyMilkHelpers()
    ensures RemoveHelpers(Strip("remind me to buy milk"), HelperPhrases) == "buy milk"
  {
    BuyMilkNoLaterHelper();
    RemindMeTo("buy milk");
    RemindBuyMilkJoin();
    StripKept("remind me to buy milk");
  }

  /** The command is the phrase followed by the task. */
  lemma RemindBuyMilkJoin()
    ensures "remind me to " + "buy milk" == "remind me to buy milk"
  {
  }

  /** "buy milk" begins with none of the last four helper phrases. */
  lemma BuyMilkNoLaterHelper()
    ensures forall p :: p in HelperPhrases[10..] ==> !HelperAt("buy milk", p)
  {
    forall p | p in HelperPhrases[10..]
      ensures !HelperAt("buy milk", p)
    {
      assert LowerChar(p[0]) in {'r', 'a', 'c', 'm'} && p[1] != 'i';
    }
  }

  /** "remind me to buy milk" is the task "buy milk": the helper phrase goes and
      nothing else applies. */
  lemma RemindBuyMilk(env: Env)
    ensures Parse("remind me to buy milk", env).name == "buy milk"
  {
    var text := "remind me to buy milk";
    RemindBuyMilkHelpers();
    assert Trace(text, env).helpersGone == "buy milk";
    BuyMilkIsPlain();
    PlainTextPassesThrough(text, env);
  }

  /** A command that is only a relative "by" phrase, such as "by tomorrow": it is
      due when the keyword says, every stage empties the text, and so the name
      falls back to the whole command, "by" included. */
  lemma ByPhraseOnly(n: nat, env: Env)
    requires n < |RelativeKeywords|
    ensures var text := "by " + RelativeKeywords[n];
      Parse(text, env).due == RelativeDue(RelativeKeywords[n], env.now)
      && Parse(text, env).due.Some? && Parse(text, env).name == text
  {
    var text := "by " + RelativeKeywords[n];
    ByKeywordText(n);
    HelpersUnchanged(text, HelperPhrases);
    StripKept(text);
    assert Trace(text, env).helpersGone == text;
    ByKeywordNoRules(n);
    RulesPass(text, env);
    ByKeywordDue(n, env);
    NameFallsBack(text, env);
  }

  /** The letters of the relative phrases. */
  const PhraseLetters: set<char> :=
    {'b', 'y', ' ', 't', 'o', 'd', 'a', 'm', 'r', 'w', 'n', 'i', 'g', 'h', 's', 'e', 'v', 'f', 'x', 'k'}

  /** What the stages need to know of "by <keyword>": it is stripped and lower
      case, begins with "b", and is written with the letters above. */
  lemma ByKeywordText(n: nat)
    requires n < |RelativeKeywords|
    ensures var text := "by " + RelativeKeywords[n];
      IsStripped(text) && Lower(text) == text && LettersIn(text, PhraseLetters)
      && (forall p :: p in HelperPhrases ==> !HelperAt(text, p))
  {
    var text := "by " + RelativeKeywords[n];
    KeywordLetters(n);
    assert forall m :: 0 <= m < |text| ==> LowerChar(text[m]) == text[m];
    forall p | p in HelperPhrases
      ensures !HelperAt(text, p)
    {
      assert LowerChar(p[0]) in {'i', 'p', 'c', 'r', 'a', 'm'};
    }
  }

  /** Each keyword is lower case, and written with the letters above. */
  lemma KeywordLetters(n: nat)
    requires n < |RelativeKeywords|
    ensures var kw := RelativeKeywords[n];
      |kw| > 0 && 'a' <= kw[0] <= 'z' && 'a' <= kw[|kw| - 1] <= 'z'
      && forall m :: 0 <= m < |kw| ==> kw[m] in PhraseLetters && !('A' <= kw[m] <= 'Z')
  {
  }

  /** No priority keyword and no category phrase occur in "by <keyword>". */
  lemma ByKeywordNoRules(n: nat)
    requires n < |RelativeKeywords|
    ensures var text := "by " + RelativeKeywords[n];
      NoPriorityWords(Lower(text)) && forall i: nat, k: nat :: !CategoryMatchAt(text, i, k)
  {
    var text := "by " + RelativeKeywords[n];
    ByKeywordText(n);
    LetterMissing(text, PhraseLetters, "high priority", 5);
    LetterMissing(text, PhraseLetters, "urgent", 0);
    LetterMissing(text, PhraseLetters, "very important", 7);
    LetterMissing(text, PhraseLetters, "medium priority", 7);
    LetterMissing(text, PhraseLetters, "low priority", 0);
    LetterMissing(text, PhraseLetters, " category", 1);
  }

  /** The due-date stage reads the keyword and removes the whole phrase. */
  lemma ByKeywordDue(n: nat, env: Env)
    requires n < |RelativeKeywords|
    ensures ByDue("by " + RelativeKeywords[n], env) == DueStep(RelativeDue(RelativeKeywords[n], env.now), [])
  {
    var text := "by " + RelativeKeywords[n];
    ByKeywordFirst(n);
    ByKeywordRemoved(n);
    ByDueRelativeText(text, env, 0, n);
  }

  /** "by <keyword>" matches the pattern for its own keyword, over the whole text. */
  lemma ByKeywordMatch(n: nat)
    requires n < |RelativeKeywords|
    ensures var text := "by " + RelativeKeywords[n];
      MatchLen(ByPhrase(RelativeKeywords[n]), text, 0) == |text|
  {
    var text := "by " + RelativeKeywords[n];
    KeywordLetters(n);
    SkipSpacesRun(text, 2, 3);
    assert MatchAt(text, 3, RelativeKeywords[n]) by {
      assert forall m :: 0 <= m < |RelativeKeywords[n]| ==> text[3 + m] == RelativeKeywords[n][m];
    }
  }

  /** "by <keyword>" is the first relative phrase: the keywords listed earlier
      differ from it within their length. */
  lemma ByKeywordFirst(n: nat)
    requires n < |RelativeKeywords|
    ensures FirstRelative(Lower("by " + RelativeKeywords[n]), 0, n)
  {
    var text := "by " + RelativeKeywords[n];
    ByKeywordText(n);
    ByKeywordMatch(n);
    forall n': nat | n' < n
      ensures !KeywordAt(text, 0, n')
    {
      KeywordsDiffer(n', n);
      SkipSpacesRun(text, 2, 3);
      assert !MatchAt(text, 3, RelativeKeywords[n']) by {
        var k := KeywordDifference(n', n);
        assert text[3 + k] == RelativeKeywords[n][k];
      }
    }
  }

  /** Where two keywords first differ. */
  function KeywordDifference(a: nat, b: nat): nat {
    if b == 5 then 0 else if a < 3 && b < 3 then 2 else if a < 3 then 1 else 5
  }

  /** Two different keywords differ at that position, which both have. */
  lemma KeywordsDiffer(a: nat, b: nat)
    requires a < b < |RelativeKeywords|
    ensures var k := KeywordDifference(a, b);
      k < |RelativeKeywords[a]| && k < |RelativeKeywords[b]|
      && RelativeKeywords[a][k] != RelativeKeywords[b][k]
      && !('A' <= RelativeKeywords[a][k] <= 'Z') && !('A' <= RelativeKeywords[b][k] <= 'Z')
  {
  }

  /** Removing the phrase leaves nothing, and so do the strip and the cut. */
  lemma ByKeywordRemoved(n: nat)
    requires n < |RelativeKeywords|
    ensures Strip(CutBy(Strip(Remove(ByPhrase(RelativeKeywords[n]), "by " + RelativeKeywords[n])))) == []
  {
    var text := "by " + RelativeKeywords[n];
    ByKeywordMatch(n);
    RemoveFromSkip(ByPhrase(RelativeKeywords[n]), text, 0, |text|);
  }
}
