/**
 * The "add task" command parser: a free-text utterance such as
 * "add submit report with high priority by monday in school category"
 * becomes a task name, a priority level 1..3, a category and an optional
 * due date.
 *
 * Each stage of the pipeline is a function from the text it receives to the
 * text it hands on (`Trace` runs them all and `Parse` assembles the result);
 * `ParseAddTaskCommand` is the step-by-step procedure, proved to compute
 * `Parse`. The lemmas at the end state what the pipeline promises.
 */
module TaskParsing {
  import opened Wrappers
  import opened Text

  // ---------------------------------------------------------------------------
  // Environment: the clock and the opaque helpers the parser consults
  // ---------------------------------------------------------------------------

  /** Local wall-clock instants, in microseconds. */
  const Second: int := 1_000_000
  const Hour: int := 3600 * Second
  const Day: int := 24 * Hour

  /** What the parser reads from outside its own text:
      - `priorityModel`, `categoryModel`: the optional classifiers; `None` when
        none was loaded, and a prediction of `None` stands for one that raised;
      - `fuzzyDate`: the fuzzy date reader, `None` when it raises;
      - `now`: the local time at which the command is parsed. */
  datatype Env = Env(
    priorityModel: Option<string -> Option<string>>,
    categoryModel: Option<string -> Option<string>>,
    fuzzyDate: string -> Option<int>,
    now: int)

  /** The parser's answer. */
  datatype ParsedTask = ParsedTask(name: string, priority: int, category: string, due: Option<int>)

  /** Textual priority labels and their levels. */
  const PriorityMap: map<string, int> := map["low" := 1, "medium" := 2, "high" := 3]

  // ---------------------------------------------------------------------------
  // Stage 1: leading helper phrases
  // ---------------------------------------------------------------------------

  /** The helper phrases, each tried once, in this order. */
  const HelperPhrases: seq<string> := [
    "i need to add", "i need to", "i have to", "please add", "please",
    "can you add", "could you add", "can you", "could you",
    "remind me to", "remind me", "add", "create", "make"]

  /** `^phrase\s+` matches `s` (ignoring case). */
  predicate HelperAt(s: string, phrase: string) {
    MatchAt(s, 0, phrase) && |phrase| < |s| && IsSpace(s[|phrase|])
  }

  /** One helper phrase: when the text starts with the phrase (ignoring case) and
      whitespace, the phrase and all that whitespace go; the rest is stripped. */
  function DropHelper(s: string, phrase: string): (r: string)
    ensures IsStripped(r)
    ensures |r| <= |s| && multiset(r) <= multiset(s)
    ensures HelperAt(s, phrase) ==> |r| < |s| - |phrase|
    ensures !HelperAt(s, phrase) && IsStripped(s) ==> r == s
  {
    StripStripped(s);
    if HelperAt(s, phrase) then
      var e := SkipSpaces(s, |phrase|);
      StripSuffix(s, e);
      StripStripped(s[e..]);
      Strip(s[e..])
    else Strip(s)
  }

  /** On stripped text a helper phrase goes from the front only. */
  lemma DropHelperSuffix(s: string, phrase: string)
    requires IsStripped(s)
    ensures var r := DropHelper(s, phrase); r == s[|s| - |r|..]
  {
    if HelperAt(s, phrase) {
      StripSuffixOfStripped(s, SkipSpaces(s, |phrase|));
    } else {
      StripStripped(s);
    }
  }

  /** The helper-phrase loop run over the phrases `ps`, in order. */
  function RemoveHelpers(s: string, ps: seq<string>): (r: string)
    ensures |ps| > 0 ==> IsStripped(r)
    ensures |r| <= |s| && multiset(r) <= multiset(s)
  {
    if ps == [] then s
    else DropHelper(RemoveHelpers(s, ps[..|ps| - 1]), ps[|ps| - 1])
  }

  // ---------------------------------------------------------------------------
  // Stage 2: priority keywords
  // ---------------------------------------------------------------------------

  /** The level a keyword rule found, if any, and the text without its keywords. */
  datatype PriorityStep = PriorityStep(level: Option<int>, text: string)

  /** Keywords for level 3, any of which wins over the other levels. */
  predicate HighWanted(lower: string) {
    Contains(lower, "high priority") || Contains(lower, "urgent") || Contains(lower, "very important")
  }

  /** The phrases each level's rule removes, in the order it removes them. */
  const HighPhrases: seq<string> := ["with high priority", "high priority", "urgent", "very important"]
  const MediumPhrases: seq<string> := ["with medium priority", "medium priority"]
  const LowPhrases: seq<string> := ["with low priority", "low priority"]

  /** The phrases `ps` removed in turn, each as a literal, ignoring case. */
  function RemovePhrases(s: string, ps: seq<string>): (r: string)
    ensures |r| <= |s| && multiset(r) <= multiset(s)
  {
    if ps == [] then s
    else Remove(Literal(ps[|ps| - 1]), RemovePhrases(s, ps[..|ps| - 1]))
  }

  /** The keyword rules, in precedence order, each removing its own phrases
      (ignoring case); the text is stripped afterwards in every case. */
  function PriorityRule(s: string): (r: PriorityStep)
    ensures IsStripped(r.text)
    ensures |r.text| <= |s| && multiset(r.text) <= multiset(s)
    ensures r.level.Some? ==> 1 <= r.level.value <= 3
    ensures r.level.None? ==> r.text == Strip(s)
  {
    StripStripped(s);
    var lower := Lower(s);
    if HighWanted(lower) then
      var t := RemovePhrases(s, HighPhrases);
      StripStripped(t);
      PriorityStep(Some(3), Strip(t))
    else if Contains(lower, "medium priority") then
      var t := RemovePhrases(s, MediumPhrases);
      StripStripped(t);
      PriorityStep(Some(2), Strip(t))
    else if Contains(lower, "low priority") then
      var t := RemovePhrases(s, LowPhrases);
      StripStripped(t);
      PriorityStep(Some(1), Strip(t))
    else
      PriorityStep(None, Strip(s))
  }

  /** What each rule finds and leaves: its level, and the text without its
      level's phrases, stripped. */
  lemma PriorityRuleText(s: string)
    ensures HighWanted(Lower(s)) ==>
      PriorityRule(s) == PriorityStep(Some(3), Strip(RemovePhrases(s, HighPhrases)))
    ensures !HighWanted(Lower(s)) && Contains(Lower(s), "medium priority") ==>
      PriorityRule(s) == PriorityStep(Some(2), Strip(RemovePhrases(s, MediumPhrases)))
    ensures !HighWanted(Lower(s)) && !Contains(Lower(s), "medium priority") && Contains(Lower(s), "low priority") ==>
      PriorityRule(s) == PriorityStep(Some(1), Strip(RemovePhrases(s, LowPhrases)))
  {
  }

  /** Text in which none of the phrases occurs (ignoring case) passes unchanged. */
  lemma {:induction false} PhrasesUnchanged(s: string, ps: seq<string>)
    requires forall p :: p in ps ==> |p| > 0 && forall q: nat :: !MatchAt(s, q, p)
    ensures RemovePhrases(s, ps) == s
  {
    if ps != [] {
      var p := ps[|ps| - 1];
      assert forall w :: w in ps[..|ps| - 1] ==> w in ps;
      PhrasesUnchanged(s, ps[..|ps| - 1]);
      forall j | 0 <= j < |s|
        ensures MatchLen(Literal(p), s, j) == 0
      {
        assert !MatchAt(s, j, p);
      }
      RemoveFromNoMatch(Literal(p), s, 0);
    }
  }

  // ---------------------------------------------------------------------------
  // Stage 3: "in X category"
  // ---------------------------------------------------------------------------

  /** The class `[\w\s]` of the category group. */
  predicate GroupChar(c: char) {
    IsWordChar(c) || IsSpace(c)
  }

  /** `in ([\w\s]+?) category` matches at `i` with a group of `k` characters,
      `s[i + 3 .. i + 3 + k]`. */
  predicate CategoryMatchAt(s: string, i: nat, k: nat) {
    1 <= k && MatchAt(s, i, "in ") && i + 3 + k <= |s|
    && (forall m :: i + 3 <= m < i + 3 + k ==> GroupChar(s[m]))
    && MatchAt(s, i + 3 + k, " category")
  }

  /** The lazy group: the shortest group of at least `k` characters, given that
      the first `k - 1` are in the class. */
  function LazyGroup(s: string, i: nat, k: nat): (g: Option<nat>)
    requires 1 <= k && MatchAt(s, i, "in ")
    requires forall m :: i + 3 <= m < i + 2 + k ==> m < |s| && GroupChar(s[m])
    ensures g.Some? ==> k <= g.value && CategoryMatchAt(s, i, g.value)
    ensures g.Some? ==> forall k' :: k <= k' < g.value ==> !CategoryMatchAt(s, i, k')
    ensures g.None? ==> forall k' :: k <= k' ==> !CategoryMatchAt(s, i, k')
    decreases |s| - k
  {
    if |s| < i + 3 + k || !GroupChar(s[i + 2 + k]) then None
    else if MatchAt(s, i + 3 + k, " category") then Some(k)
    else LazyGroup(s, i, k + 1)
  }

  /** `re.search` for the category phrase from position `i`: the leftmost start,
      and there the shortest group. */
  function CategorySearch(s: string, i: nat): (m: Option<(nat, nat)>)
    ensures m.Some? ==> i <= m.value.0 && CategoryMatchAt(s, m.value.0, m.value.1)
    ensures m.Some? ==> forall k :: 1 <= k < m.value.1 ==> !CategoryMatchAt(s, m.value.0, k)
    ensures m.Some? ==> forall j, k :: i <= j < m.value.0 ==> !CategoryMatchAt(s, j, k)
    ensures m.None? ==> forall j, k :: i <= j ==> !CategoryMatchAt(s, j, k)
    decreases |s| - i
  {
    if |s| <= i then None
    else if MatchAt(s, i, "in ") && LazyGroup(s, i, 1).Some? then Some((i, LazyGroup(s, i, 1).value))
    else CategorySearch(s, i + 1)
  }

  /** The category a rule found, if any, and the text without the phrase. */
  datatype CategoryStep = CategoryStep(category: Option<string>, text: string)

  /** The category is the stripped group of the first match; every occurrence of
      "in <group> category" (ignoring case) is then removed and the text stripped. */
  function CategoryRule(s: string): (r: CategoryStep)
    ensures IsStripped(r.text)
    ensures |r.text| <= |s| && multiset(r.text) <= multiset(s)
    ensures r.category.Some? <==> exists i, k :: CategoryMatchAt(s, i, k)
    ensures r.category.Some? ==> IsStripped(r.category.value)
    ensures r.category.Some? ==> forall m :: 0 <= m < |r.category.value| ==> GroupChar(r.category.value[m])
    ensures r.category.None? ==> r.text == Strip(s)
  {
    CategoryStep(CategoryFound(s), CategoryCut(s))
  }

  /** The stripped group of the first category phrase, if there is one. */
  function CategoryFound(s: string): (c: Option<string>)
    ensures c.None? <==> CategorySearch(s, 0).None?
    ensures c.Some? ==> IsStripped(c.value)
    ensures c.Some? ==> forall m :: 0 <= m < |c.value| ==> GroupChar(c.value[m])
  {
    match CategorySearch(s, 0)
    case None => None
    case Some((i, k)) => Some(CategoryName(s, i, k))
  }

  /** The text with every occurrence of the first phrase removed, stripped. */
  function CategoryCut(s: string): (t: string)
    ensures IsStripped(t)
    ensures |t| <= |s| && multiset(t) <= multiset(s)
    ensures CategorySearch(s, 0).None? ==> t == Strip(s)
  {
    StripStripped(s);
    match CategorySearch(s, 0)
    case None => Strip(s)
    case Some((i, k)) =>
      var t := Strip(Remove(Literal(CategoryPhrase(s, i, k)), s));
      StripStripped(t);
      Strip(t)
  }

  /** The phrase the rule removes: "in ", the group as the text writes it, and
      " category", as one literal. */
  function CategoryPhrase(s: string, i: nat, k: nat): (p: string)
    requires i + 3 + k <= |s|
    ensures |p| == k + 12 && p[3..3 + k] == s[i + 3..i + 3 + k]
  {
    "in " + s[i + 3..i + 3 + k] + " category"
  }

  /** The stripped group of a category match: letters, digits, underscores and
      whitespace, with no whitespace at either end. */
  function CategoryName(s: string, i: nat, k: nat): (c: string)
    requires CategoryMatchAt(s, i, k)
    ensures IsStripped(c)
    ensures forall m :: 0 <= m < |c| ==> GroupChar(c[m])
  {
    var g := s[i + 3..i + 3 + k];
    assert forall m :: 0 <= m < |g| ==> GroupChar(g[m]);
    StripStripped(g);
    StripKeeps(g);
    Strip(g)
  }

  // ---------------------------------------------------------------------------
  // Stage 4: the due date
  // ---------------------------------------------------------------------------

  /** The relative keywords, in the order the alternation tries them. */
  const RelativeKeywords: seq<string> := ["today", "tomorrow", "tonight", "this evening", "this afternoon", "next week"]

  /** `\bby\s+KW\b` matches at `i` for the keyword numbered `n`. */
  predicate KeywordAt(s: string, i: nat, n: nat) {
    n < |RelativeKeywords| && MatchLen(ByPhrase(RelativeKeywords[n]), s, i) > 0
  }

  /** The alternation at one position: the first keyword from number `n` on that matches. */
  function FirstKeyword(s: string, i: nat, n: nat): (r: Option<nat>)
    ensures r.Some? ==> n <= r.value && KeywordAt(s, i, r.value)
    ensures r.Some? ==> forall n' :: n <= n' < r.value ==> !KeywordAt(s, i, n')
    ensures r.None? ==> forall n' :: n <= n' ==> !KeywordAt(s, i, n')
    decreases |RelativeKeywords| - n
  {
    if |RelativeKeywords| <= n then None
    else if KeywordAt(s, i, n) then Some(n)
    else FirstKeyword(s, i, n + 1)
  }

  /** `re.search` for a relative phrase from position `i`: the leftmost position
      and the keyword the alternation takes there. */
  function RelativeSearch(s: string, i: nat): (m: Option<(nat, nat)>)
    ensures m.Some? ==> i <= m.value.0 && KeywordAt(s, m.value.0, m.value.1)
    ensures m.Some? ==> forall n: nat :: n < m.value.1 ==> !KeywordAt(s, m.value.0, n)
    ensures m.Some? ==> forall j, n :: i <= j < m.value.0 ==> !KeywordAt(s, j, n)
    ensures m.None? ==> forall j, n :: i <= j ==> !KeywordAt(s, j, n)
    decreases |s| - i
  {
    if |s| <= i then None
    else match FirstKeyword(s, i, 0)
      case Some(n) => Some((i, n))
      case None => RelativeSearch(s, i + 1)
  }

  /** The due date a relative keyword gives, relative to `now`. Every listed
      keyword gives one: today is now, tomorrow is a day later, next week seven
      days later, tonight and this evening are 20:00 and this afternoon 15:00 of
      the same day. */
  function RelativeDue(kw: string, now: int): (d: Option<int>)
    ensures d.Some? <==> kw in RelativeKeywords
    ensures kw == "today" ==> d == Some(now)
    ensures kw == "tomorrow" ==> d == Some(now + Day)
    ensures kw == "next week" ==> d == Some(now + 7 * Day)
    ensures kw in {"tonight", "this evening", "this afternoon"} ==>
              d.Some? && d.value / Day == now / Day
              && d.value % Day == (if kw == "this afternoon" then 15 else 20) * Hour
  {
    if kw == "today" then Some(now)
    else if kw == "tomorrow" then Some(now + Day)
    else if kw == "tonight" || kw == "this evening" then Some(now - now % Day + 20 * Hour)
    else if kw == "this afternoon" then Some(now - now % Day + 15 * Hour)
    else if kw == "next week" then Some(now + 7 * Day)
    else None
  }

  /** `\bby` at `i`. */
  predicate ByAt(s: string, i: nat) {
    Boundary(s, i) && MatchAt(s, i, "by")
  }

  /** `(.+)$` tried from start `j` downwards to `lo`, as backtracking of the greedy
      `\s+` before it tries them: the group runs to the end of the line, and that
      must be where `$` holds. */
  function DateTail(s: string, lo: nat, j: nat): (g: Option<(nat, nat)>)
    requires 1 <= lo && j <= |s|
    ensures g.Some? ==> lo <= g.value.0 <= j && g.value.0 < g.value.1 <= |s|
    ensures g.Some? ==> DollarAt(s, g.value.1) && forall m :: g.value.0 <= m < g.value.1 ==> s[m] != '\n'
    decreases j
  {
    if j < lo then None
    else
      var q := LineEnd(s, j);
      if j < q && DollarAt(s, q) then Some((j, q)) else DateTail(s, lo, j - 1)
  }

  /** `\bby\s+(.+)$` matches at `i`: the span of the group. */
  function DateAt(s: string, i: nat): (g: Option<(nat, nat)>)
    ensures g.Some? ==> ByAt(s, i) && i + 2 < g.value.0 < g.value.1 <= |s|
    ensures g.Some? ==> forall m :: i + 2 <= m < g.value.0 ==> IsSpace(s[m])
    ensures g.Some? ==> DollarAt(s, g.value.1)
  {
    if ByAt(s, i) then
      var e := SkipSpaces(s, i + 2);
      if i + 2 < e then DateTail(s, i + 3, e) else None
    else None
  }

  /** `re.search` for the general "by" phrase from position `i`: the leftmost
      position where "by", whitespace and a date text reaching the end of the
      text (or of its last line) match. */
  function DateSearch(s: string, i: nat): (c: Option<nat>)
    ensures c.Some? ==> i <= c.value && DateAt(s, c.value).Some?
    ensures c.Some? ==> forall j :: i <= j < c.value ==> DateAt(s, j).None?
    ensures c.None? ==> forall j :: i <= j ==> DateAt(s, j).None?
    decreases |s| - i
  {
    if |s| < i then None
    else if DateAt(s, i).Some? then Some(i)
    else DateSearch(s, i + 1)
  }

  /** `\bby\b` at `i`: "by" as a whole word. */
  predicate ByWordAt(s: string, i: nat) {
    ByAt(s, i) && Boundary(s, i + 2)
  }

  /** The same, in the terms of whole-word matching. */
  lemma ByWordIsWhole(s: string)
    ensures PlainPhrase("by") && SingleWord("by")
    ensures (forall i: nat :: !ByWordAt(s, i)) <==> NoWhole(s, "by")
  {
    assert forall i: nat :: ByWordAt(s, i) == WholeAt(s, i, "by");
  }

  /** `\bby\b.*$` matches at `i`. */
  predicate CutAt(s: string, i: nat) {
    ByWordAt(s, i) && DollarAt(s, LineEnd(s, i + 2))
  }

  /** The leftmost position from `i` where the cut pattern matches. */
  function CutSearch(s: string, i: nat): (c: Option<nat>)
    ensures c.Some? ==> i <= c.value && CutAt(s, c.value)
    ensures c.Some? ==> forall j :: i <= j < c.value ==> !CutAt(s, j)
    ensures c.None? ==> forall j :: i <= j ==> !CutAt(s, j)
    decreases |s| - i
  {
    if |s| < i then None
    else if CutAt(s, i) then Some(i)
    else CutSearch(s, i + 1)
  }

  /** No character of `s` is a line feed when none of `t` is and `s` holds no
      character more often than `t`. */
  lemma NoLineFeedIn(s: string, t: string)
    requires multiset(s) <= multiset(t) && '\n' !in t
    ensures '\n' !in s
  {
    assert multiset(s)['\n'] <= multiset(t)['\n'] == 0;
  }

  /** The due-phrase cut: everything from the first whole word "by" (ignoring case)
      to the end of its line goes, when that line is the last one.
      On single-line text the cut leaves a prefix with no word "by" in it. */
  function CutBy(s: string): (r: string)
    ensures |r| <= |s| && multiset(r) <= multiset(s)
    ensures (forall i :: !CutAt(s, i)) ==> r == s
    ensures '\n' !in s ==> r == s[..|r|] && forall i :: !ByWordAt(r, i)
  {
    match CutSearch(s, 0)
    case None =>
      if '\n' in s then s
      else
        SingleLineCuts(s);
        s
    case Some(i) =>
      var q := LineEnd(s, i + 2);
      assert s == s[..i] + s[i..q] + s[q..];
      if '\n' in s then s[..i] + s[q..]
      else
        assert q == |s| && s[..i] + s[q..] == s[..i];
        CutPrefixHasNoBy(s, i);
        s[..i] + s[q..]
  }

  /** On text without line feeds the cut matches at every whole word "by". */
  lemma SingleLineCuts(s: string)
    requires '\n' !in s
    ensures forall i: nat :: ByWordAt(s, i) ==> CutAt(s, i)
  {
    forall i: nat | ByWordAt(s, i)
      ensures CutAt(s, i)
    {
      LineEndSingle(s, i + 2);
    }
  }

  /** The text before the leftmost cut holds no whole word "by": one there would
      itself be a cut on single-line text, or would run into the word at `i`. */
  lemma CutPrefixHasNoBy(s: string, i: nat)
    requires '\n' !in s
    requires CutAt(s, i) && forall j: nat :: j < i ==> !CutAt(s, j)
    ensures forall p: nat :: !ByWordAt(s[..i], p)
  {
    assert LowerChar(s[i + 0]) == LowerChar("by"[0]);
    assert i == 0 || !IsWordChar(s[i - 1]);
    forall p: nat | ByWordAt(s[..i], p)
      ensures false
    {
      assert s[..i][p] == s[p] && s[..i][p + 1] == s[p + 1];
      if p + 2 < i {
        assert s[..i][p + 2] == s[p + 2];
        assert MatchAt(s, p, "by");
        assert Boundary(s, p) && Boundary(s, p + 2);
        LineEndSingle(s, p + 2);
        assert CutAt(s, p);
      }
    }
  }

  /** What the due-date stage leaves: the due date found from a "by" phrase, if
      any, and the text. */
  datatype DueStep = DueStep(due: Option<int>, text: string)

  /** The relative "by" phrase, then (when it found nothing) the general "by"
      phrase read by the fuzzy date reader, then the cut from "by" onwards when
      either gave a date. Searches run on the lower-cased text, removals on the
      text itself, ignoring case. */
  function ByDue(s: string, env: Env): (r: DueStep)
    ensures |r.text| <= |s| && multiset(r.text) <= multiset(s)
    ensures r.due.None? ==> r.text == s
    ensures (exists i, n :: KeywordAt(Lower(s), i, n)) ==> r.due.Some?
    ensures r.due.Some? && '\n' !in s ==> forall i :: !ByWordAt(r.text, i)
  {
    var lower := Lower(s);
    var rel := RelativeSearch(lower, 0);
    var (due1, t1) :=
      match rel
      case Some((_, n)) => (RelativeDue(RelativeKeywords[n], env.now), Strip(Remove(ByPhrase(RelativeKeywords[n]), s)))
      case None => (None, s);
    var due2 :=
      if due1.Some? then due1
      else match DateSearch(Lower(t1), 0)
        case Some(j) =>
          var (a, q) := DateAt(Lower(t1), j).value;
          env.fuzzyDate(Strip(Lower(t1)[a..q]))
        case None => None;
    if due2.Some? then
      var t := Strip(CutBy(t1));
      if '\n' in s then DueStep(due2, t)
      else
        NoLineFeedIn(t1, s);
        NoByWordInStripped(CutBy(t1));
        DueStep(due2, t)
    else DueStep(None, t1)
  }

  /** Stripping creates no whole word "by": the whitespace cut off on either
      side is a word boundary already. */
  lemma NoByWordInStripped(s: string)
    requires forall i :: !ByWordAt(s, i)
    ensures forall p :: !ByWordAt(Strip(s), p)
  {
    forall p
      ensures !ByWordAt(Strip(s), p)
    {
      StrippedByWord(s, p);
    }
  }

  /** A whole word "by" of the stripped text is one of the text itself. */
  lemma StrippedByWord(s: string, p: nat)
    ensures ByWordAt(Strip(s), p) ==> ByWordAt(s, Lead(s, Whitespace) + p)
  {
    var t := Strip(s);
    var a := Lead(s, Whitespace);
    assert forall m :: 0 <= m < |t| ==> t[m] == s[a + m];
    if ByWordAt(t, p) {
      assert ByWordAt(s, a + p);
    }
  }

  /** The lower-cased text starts with `w`, or has `w` right after a space. */
  predicate Mentions(s: string, w: string) {
    Contains(Lower(s), " " + w) || Occurs(Lower(s), 0, w)
  }

  /** The standalone words "tomorrow" and "today" anywhere in the whole command. */
  function StandaloneDue(original: string, now: int): (d: Option<int>)
    ensures d.Some? <==> Mentions(original, "tomorrow") || Mentions(original, "today")
    ensures Mentions(original, "tomorrow") ==> d == Some(now + Day)
    ensures !Mentions(original, "tomorrow") && Mentions(original, "today") ==> d == Some(now)
  {
    if Mentions(original, "tomorrow") then Some(now + Day)
    else if Mentions(original, "today") then Some(now)
    else None
  }

  // ---------------------------------------------------------------------------
  // Stage 4c: time words; stage 6: the final clean-up
  // ---------------------------------------------------------------------------

  /** The time words removed as whole words, in this order. */
  const TimeWords: seq<string> := [
    "tomorrow", "today", "tonight", "this evening", "this afternoon", "next week",
    "next month", "monday", "tuesday", "wednesday", "thursday", "friday", "saturday", "sunday"]

  /** The time-word loop run over the words `ws`, in order. */
  function RemoveTimeWords(s: string, ws: seq<string>): (r: string)
    ensures |r| <= |s| && multiset(r) <= multiset(s)
  {
    if ws == [] then s
    else Remove(Word(ws[|ws| - 1]), RemoveTimeWords(s, ws[..|ws| - 1]))
  }

  /** The final clean-up: each run of whitespace becomes one space, then spaces,
      commas and periods are trimmed from both ends. The result has single plain
      spaces between words, and neither end is whitespace, a comma or a period. */
  function Tidy(s: string): (r: string)
    ensures |r| <= |s|
    ensures NoSpaceRun(r) && OnlyPlainSpaces(r)
    ensures r != [] ==> !IsSpace(r[0]) && r[0] !in {',', '.'}
    ensures r != [] ==> !IsSpace(r[|r| - 1]) && r[|r| - 1] !in {',', '.'}
  {
    var c := Collapse(s);
    var r := TrimBoth(c, Chars({' ', ',', '.'}));
    TidyEnds(c, r);
    r
  }

  lemma TidyEnds(c: string, r: string)
    requires r == TrimBoth(c, Chars({' ', ',', '.'})) && NoSpaceRun(c) && OnlyPlainSpaces(c)
    ensures NoSpaceRun(r) && OnlyPlainSpaces(r)
    ensures r != [] ==> !IsSpace(r[0]) && r[0] !in {',', '.'}
    ensures r != [] ==> !IsSpace(r[|r| - 1]) && r[|r| - 1] !in {',', '.'}
  {
    var drop := Chars({' ', ',', '.'});
    SliceSpacing(c, Lead(c, drop), Lead(c, drop) + |r|);
    assert r != [] ==> !Drops(drop, r[0]) && !Drops(drop, r[|r| - 1]);
  }

  // ---------------------------------------------------------------------------
  // The pipeline
  // ---------------------------------------------------------------------------

  /** The text after each stage, and what the rule stages found. */
  datatype Stages = Stages(
    original: string,        // the stripped command
    helpersGone: string,     // after the helper phrases
    priority: PriorityStep,  // the priority rule
    category: CategoryStep,  // the category rule
    byDue: DueStep,          // the "by" due-date phrases
    timeless: string)        // after the time words, stripped

  function Trace(text: string, env: Env): (st: Stages)
    ensures |st.timeless| <= |st.byDue.text| <= |st.category.text| <= |st.priority.text|
              <= |st.helpersGone| <= |st.original| <= |text|
    ensures multiset(st.category.text) <= multiset(text)
  {
    var original := Strip(text);
    var helpersGone := RemoveHelpers(original, HelperPhrases);
    var priority := PriorityRule(helpersGone);
    var category := CategoryRule(priority.text);
    var byDue := ByDue(category.text, env);
    var timeless := Strip(RemoveTimeWords(byDue.text, TimeWords));
    Stages(original, helpersGone, priority, category, byDue, timeless)
  }

  /** The classifier's priority when no rule fired: its guess, lower-cased, looked
      up in the priority map, and level 1 when there is no model, the model
      raises or the guess is unknown. */
  function ModelPriority(model: Option<string -> Option<string>>, original: string): (p: int)
    ensures 1 <= p <= 3
    ensures model.None? ==> p == 1
    ensures model.Some? && model.value(original).None? ==> p == 1
    ensures model.Some? && model.value(original).Some? ==>
              var guess := Lower(model.value(original).value);
              p == if guess in PriorityMap then PriorityMap[guess] else 1
  {
    match model
    case None => 1
    case Some(predict) =>
      (match predict(original)
       case Some(guess) => if Lower(guess) in PriorityMap then PriorityMap[Lower(guess)] else 1
       case None => 1)
  }

  /** The classifier's category when no rule fired: its guess as it is, and
      "general" when there is no model or the model raises. */
  function ModelCategory(model: Option<string -> Option<string>>, original: string): (c: string)
    ensures model.None? ==> c == "general"
    ensures model.Some? && model.value(original).Some? ==> c == model.value(original).value
    ensures model.Some? && model.value(original).None? ==> c == "general"
  {
    match model
    case None => "general"
    case Some(predict) =>
      (match predict(original)
       case Some(guess) => guess
       case None => "general")
  }

  /** `parse_add_task_command(text)`: the tidied name, or the stripped command when
      the clean-up leaves nothing; the rule's priority and category, or else the
      classifiers'; the "by" phrase's due date, or else the standalone words'. */
  function Parse(text: string, env: Env): (p: ParsedTask)
    ensures 1 <= p.priority <= 3
  {
    var st := Trace(text, env);
    var name := Tidy(st.timeless);
    assert st.priority == PriorityRule(st.helpersGone);
    ParsedTask(
      if name == [] then Strip(st.original) else name,
      match st.priority.level
      case Some(p) => p
      case None => ModelPriority(env.priorityModel, st.original),
      match st.category.category
      case Some(c) => c
      case None => ModelCategory(env.categoryModel, st.original),
      if st.byDue.due.Some? then st.byDue.due else StandaloneDue(st.original, env.now))
  }

  /** The helper-phrase loop: each phrase in turn is dropped from the front. */
  method DropHelperPhrases(original: string) returns (clean: string)
    ensures clean == RemoveHelpers(original, HelperPhrases)
  {
    clean := original;
    for i := 0 to |HelperPhrases|
      invariant clean == RemoveHelpers(original, HelperPhrases[..i])
    {
      assert HelperPhrases[..i + 1][..i] == HelperPhrases[..i];
      clean := DropHelper(clean, HelperPhrases[i]);
    }
    assert HelperPhrases[..|HelperPhrases|] == HelperPhrases;
  }

  /** The time-word loop: each word in turn is removed wherever it stands alone. */
  method DropTimeWords(s: string) returns (clean: string)
    ensures clean == RemoveTimeWords(s, TimeWords)
  {
    clean := s;
    for i := 0 to |TimeWords|
      invariant clean == RemoveTimeWords(s, TimeWords[..i])
    {
      assert TimeWords[..i + 1][..i] == TimeWords[..i];
      clean := Remove(Word(TimeWords[i]), clean);
    }
    assert TimeWords[..|TimeWords|] == TimeWords;
  }

  /** The "by" stages as a procedure: the relative phrase, the general phrase
      when no date was found yet, and the cut when either found one. */
  method DueFromBy(s: string, env: Env) returns (due: Option<int>, clean: string)
    ensures DueStep(due, clean) == ByDue(s, env)
  {
    due := None;
    clean := s;
    match RelativeSearch(Lower(clean), 0) {
      case Some((_, n)) =>
        due := RelativeDue(RelativeKeywords[n], env.now);
        clean := Strip(Remove(ByPhrase(RelativeKeywords[n]), clean));
      case None =>
    }
    if due.None? {
      match DateSearch(Lower(clean), 0) {
        case Some(j) =>
          var (a, q) := DateAt(Lower(clean), j).value;
          due := env.fuzzyDate(Strip(Lower(clean)[a..q]));
        case None =>
      }
    }
    if due.Some? {
      clean := Strip(CutBy(clean));
    }
  }

  /** The parser as a procedure: the local text is rewritten stage by stage, the
      two phrase lists are walked by loops, and the rule flags decide whether the
      classifiers are asked. */
  method ParseAddTaskCommand(text: string, env: Env) returns (parsed: ParsedTask)
    ensures parsed == Parse(text, env)
  {
    var original := Strip(text);
    var clean := DropHelperPhrases(original);

    var priority := 1;
    var category := "general";

    var prio := PriorityRule(clean);
    var priorityFromRules := prio.level.Some?;
    if priorityFromRules {
      priority := prio.level.value;
    }
    clean := prio.text;

    var cat := CategoryRule(clean);
    var categoryFromRules := cat.category.Some?;
    if categoryFromRules {
      category := cat.category.value;
    }
    clean := cat.text;

    var due;
    due, clean := DueFromBy(clean, env);
    if due.None? {
      due := StandaloneDue(original, env.now);
    }

    clean := DropTimeWords(clean);
    clean := Strip(clean);

    if !priorityFromRules {
      priority := ModelPriority(env.priorityModel, original);
    }
    if !categoryFromRules {
      category := ModelCategory(env.categoryModel, original);
    }

    clean := Tidy(clean);
    if clean == [] {
      clean := Strip(original);
    }
    parsed := ParsedTask(clean, priority, category, due);
  }

  // ---------------------------------------------------------------------------
  // What the parser promises
  // ---------------------------------------------------------------------------

  /** The name is empty exactly when the command is blank; when the clean-up
      leaves nothing, the name is the whole stripped command. */
  lemma ParsedNameNonEmpty(text: string, env: Env)
    ensures |Parse(text, env).name| > 0 <==> |Strip(text)| > 0
    ensures Tidy(Trace(text, env).timeless) == [] ==> Parse(text, env).name == Strip(text)
  {
    var st := Trace(text, env);
    var cleaned := Tidy(st.timeless);
    assert Parse(text, env).name == if cleaned == [] then Strip(st.original) else cleaned;
    StripStripped(text);
  }

  /** A name the clean-up produced. */
  predicate TidyName(n: string) {
    NoSpaceRun(n) && OnlyPlainSpaces(n)
    && (n != [] ==> !IsSpace(n[0]) && n[0] !in {',', '.'})
    && (n != [] ==> !IsSpace(n[|n| - 1]) && n[|n| - 1] !in {',', '.'})
  }

  /** The name is the cleaned text when anything is left of it: words separated
      by single spaces, and neither a space, a comma nor a period at either end;
      otherwise it is the stripped command. */
  lemma ParsedNameShape(text: string, env: Env)
    ensures var cleaned := Tidy(Trace(text, env).timeless);
      cleaned != [] ==> Parse(text, env).name == cleaned && TidyName(cleaned)
    ensures Parse(text, env).name == Tidy(Trace(text, env).timeless) || Parse(text, env).name == Strip(text)
  {
    var st := Trace(text, env);
    var cleaned := Tidy(st.timeless);
    assert Parse(text, env).name == if cleaned == [] then Strip(st.original) else cleaned;
    StripStripped(text);
    TidyShape(st.timeless);
  }

  /** The clean-up always produces a tidy name. */
  lemma TidyShape(s: string)
    ensures TidyName(Tidy(s))
  {
  }

  /** The priority is 1, 2 or 3. The keyword rules, looked for in the text left
      after the helper phrases, take precedence in the order high, medium, low;
      without a rule the classifier decides, and without a classifier it is 1. */
  lemma ParsedPriority(text: string, env: Env)
    ensures 1 <= Parse(text, env).priority <= 3
    ensures var lower := Lower(Trace(text, env).helpersGone);
      HighWanted(lower) ==> Parse(text, env).priority == 3
    ensures var lower := Lower(Trace(text, env).helpersGone);
      !HighWanted(lower) && Contains(lower, "medium priority") ==> Parse(text, env).priority == 2
    ensures var lower := Lower(Trace(text, env).helpersGone);
      !HighWanted(lower) && !Contains(lower, "medium priority") && Contains(lower, "low priority")
      ==> Parse(text, env).priority == 1
    ensures var lower := Lower(Trace(text, env).helpersGone);
      !HighWanted(lower) && !Contains(lower, "medium priority") && !Contains(lower, "low priority")
      ==> Parse(text, env).priority == ModelPriority(env.priorityModel, Strip(text))
  {
    var st := Trace(text, env);
    assert st.priority == PriorityRule(st.helpersGone);
    assert Parse(text, env).priority ==
      match st.priority.level
      case Some(p) => p
      case None => ModelPriority(env.priorityModel, st.original);
  }

  /** The first category phrase: no match starts earlier, and no shorter group
      matches at its start. */
  ghost predicate FirstCategoryMatch(s: string, i: nat, k: nat) {
    CategoryMatchAt(s, i, k)
    && (forall j: nat, k': nat :: j < i ==> !CategoryMatchAt(s, j, k'))
    && (forall k': nat :: k' < k ==> !CategoryMatchAt(s, i, k'))
  }

  /** The search finds the first category phrase, and only it. */
  lemma CategorySearchFirst(s: string, i: nat, k: nat)
    requires FirstCategoryMatch(s, i, k)
    ensures CategorySearch(s, 0) == Some((i, k))
  {
  }

  /** The rule takes the first category phrase's stripped group. */
  lemma CategoryRuleFirst(s: string, i: nat, k: nat)
    requires FirstCategoryMatch(s, i, k)
    ensures CategoryRule(s).category == Some(Strip(s[i + 3..i + 3 + k]))
  {
    CategorySearchFirst(s, i, k);
    CategoryFoundAt(s, i, k);
    CategoryNameIs(s, i, k);
  }

  lemma CategoryFoundAt(s: string, i: nat, k: nat)
    requires CategorySearch(s, 0) == Some((i, k))
    ensures CategoryMatchAt(s, i, k) && CategoryFound(s) == Some(CategoryName(s, i, k))
  {
  }

  lemma CategoryNameIs(s: string, i: nat, k: nat)
    requires CategoryMatchAt(s, i, k)
    ensures CategoryName(s, i, k) == Strip(s[i + 3..i + 3 + k])
  {
  }

  /** The text the rule leaves: every occurrence of the first match's phrase
      removed, and the rest stripped. */
  lemma CategoryCutText(s: string, i: nat, k: nat)
    requires CategorySearch(s, 0) == Some((i, k))
    ensures CategoryCut(s) == Strip(Remove(Literal(CategoryPhrase(s, i, k)), s))
  {
    StripStripped(Remove(Literal(CategoryPhrase(s, i, k)), s));
  }

  /** The phrase of a match occurs where the match is, and wherever it occurs
      (ignoring case) the category pattern matches with a group as long. */
  lemma CategoryPhraseAt(s: string, i: nat, k: nat, j: nat)
    requires CategoryMatchAt(s, i, k)
    ensures MatchAt(s, i, CategoryPhrase(s, i, k))
    ensures MatchAt(s, j, CategoryPhrase(s, i, k)) ==> CategoryMatchAt(s, j, k)
  {
    var p := CategoryPhrase(s, i, k);
    assert forall m :: 0 <= m < 3 ==> p[m] == "in "[m];
    assert forall m :: 0 <= m < 9 ==> p[3 + k + m] == " category"[m];
    assert forall m :: 3 <= m < 3 + k ==> p[m] == s[i + m];
    if MatchAt(s, j, p) {
      forall m | j + 3 <= m < j + 3 + k
        ensures GroupChar(s[m])
      {
        assert LowerChar(s[m]) == LowerChar(p[m - j]);
        assert GroupChar(s[i + m - j]);
      }
      assert MatchAt(s, j + 3 + k, " category") by {
        forall m | 0 <= m < 9
          ensures LowerChar(s[j + 3 + k + m]) == LowerChar(" category"[m])
        {
          assert LowerChar(s[j + 3 + k + m]) == LowerChar(p[3 + k + m]);
        }
      }
    }
  }

  /** The first category phrase `p` is matched in full at `i`, and nowhere before:
      by `RemoveFirst`, the rule's removal keeps the text before `i` as it is, drops
      the phrase, and goes on after it. */
  lemma FirstPhraseAt(s: string, i: nat, k: nat, p: string)
    requires FirstCategoryMatch(s, i, k) && p == CategoryPhrase(s, i, k)
    ensures i < |s| && MatchLen(Literal(p), s, i) == |p| > 0 && NoMatchBefore(Literal(p), s, i)
  {
    CategoryPhraseAt(s, i, k, i);
    NoEarlierPhrase(s, i, k);
    LiteralLen(p, s, i);
  }

  /** Before the first match the phrase occurs nowhere: it would be a match. */
  lemma NoEarlierPhrase(s: string, i: nat, k: nat)
    requires FirstCategoryMatch(s, i, k)
    ensures forall j :: 0 <= j < i ==> MatchLen(Literal(CategoryPhrase(s, i, k)), s, j) == 0
  {
    forall j | 0 <= j < i
      ensures MatchLen(Literal(CategoryPhrase(s, i, k)), s, j) == 0
    {
      CategoryPhraseAt(s, i, k, j);
    }
  }

  /** The category is the stripped group of the first "in X category" phrase of
      the text left after the priority rule. */
  lemma ParsedCategoryFound(text: string, env: Env, i: nat, k: nat)
    requires FirstCategoryMatch(Trace(text, env).priority.text, i, k)
    ensures var s := Trace(text, env).priority.text;
      Parse(text, env).category == Strip(s[i + 3..i + 3 + k])
  {
    var st := Trace(text, env);
    assert st.category == CategoryRule(st.priority.text);
    CategoryRuleFirst(st.priority.text, i, k);
  }

  /** Without a category phrase the classifier decides, and without a classifier
      the category is "general". */
  lemma ParsedCategoryDefault(text: string, env: Env)
    ensures var s := Trace(text, env).priority.text;
      (forall i: nat, k: nat :: !CategoryMatchAt(s, i, k)) ==> Parse(text, env).category == ModelCategory(env.categoryModel, Strip(text))
    ensures var s := Trace(text, env).priority.text;
      (forall i: nat, k: nat :: !CategoryMatchAt(s, i, k)) && env.categoryModel.None? ==> Parse(text, env).category == "general"
  {
    var st := Trace(text, env);
    var s := st.priority.text;
    assert st.category == CategoryRule(s);
    assert Parse(text, env).category ==
      match st.category.category
      case Some(c) => c
      case None => ModelCategory(env.categoryModel, st.original);
  }

  /** The first relative phrase: no phrase starts earlier, and no keyword listed
      before it matches at its start. */
  ghost predicate FirstRelative(s: string, i: nat, n: nat) {
    KeywordAt(s, i, n)
    && (forall j: nat, n': nat :: j < i ==> !KeywordAt(s, j, n'))
    && (forall n': nat :: n' < n ==> !KeywordAt(s, i, n'))
  }

  /** The search finds the first relative phrase, and only it. */
  lemma RelativeSearchFirst(s: string, i: nat, n: nat)
    requires FirstRelative(s, i, n)
    ensures RelativeSearch(s, 0) == Some((i, n))
  {
  }

  /** The first relative phrase gives the due date its keyword names. */
  lemma ByDueFirstRelative(s: string, env: Env, i: nat, n: nat)
    requires FirstRelative(Lower(s), i, n)
    ensures ByDue(s, env).due == RelativeDue(RelativeKeywords[n], env.now)
  {
    RelativeSearchFirst(Lower(s), i, n);
  }

  /** With a relative phrase, the stage removes every "by <keyword>" for the
      keyword found, strips, and then cuts from the first "by" on. */
  lemma ByDueRelativeText(s: string, env: Env, i: nat, n: nat)
    requires FirstRelative(Lower(s), i, n)
    ensures var kw := RelativeKeywords[n];
      ByDue(s, env) == DueStep(RelativeDue(kw, env.now), Strip(CutBy(Strip(Remove(ByPhrase(kw), s)))))
  {
    RelativeSearchFirst(Lower(s), i, n);
  }

  /** The first general "by" phrase: no match starts earlier. */
  ghost predicate FirstDate(s: string, j: nat) {
    DateAt(s, j).Some? && forall j': nat :: j' < j ==> DateAt(s, j').None?
  }

  /** Without a relative phrase, the date reader gets the stripped group of the
      first general "by" phrase; when it reads a date, the text is cut from the
      first "by" on, and otherwise it is left as it is. */
  lemma ByDueDateText(s: string, env: Env, j: nat)
    requires RelativeSearch(Lower(s), 0).None? && FirstDate(Lower(s), j)
    ensures var (a, q) := DateAt(Lower(s), j).value;
      var d := env.fuzzyDate(Strip(Lower(s)[a..q]));
      ByDue(s, env) == if d.Some? then DueStep(d, Strip(CutBy(s))) else DueStep(None, s)
  {
    assert DateSearch(Lower(s), 0) == Some(j);
    StripStripped(s);
  }

  /** Text without "by" at a word start has no due date and is left alone. */
  lemma ByDueNoBy(s: string, env: Env)
    requires forall i: nat :: !ByAt(Lower(s), i)
    ensures ByDue(s, env) == DueStep(None, s)
  {
    var lower := Lower(s);
    if RelativeSearch(lower, 0).Some? {
      var (i, n) := RelativeSearch(lower, 0).value;
      KeywordAtBy(lower, i, n);
      assert false;
    }
    assert DateSearch(lower, 0).None?;
  }

  /** A relative phrase starts with "by" at a word start. */
  lemma KeywordAtBy(s: string, i: nat, n: nat)
    requires KeywordAt(s, i, n)
    ensures ByAt(s, i)
  {
  }

  /** "by" followed by a relative keyword always gives a due date; when no "by"
      phrase gave one, the standalone words of the whole command decide (a day
      from now for "tomorrow", by the contract of `StandaloneDue`). */
  lemma ParsedDue(text: string, env: Env)
    ensures var lower := Lower(Trace(text, env).category.text);
      (exists i, n :: KeywordAt(lower, i, n)) ==> Parse(text, env).due.Some?
    ensures Trace(text, env).byDue.due.None? ==> Parse(text, env).due == StandaloneDue(Strip(text), env.now)
  {
    var st := Trace(text, env);
    assert st.byDue == ByDue(st.category.text, env);
  }

  /** The due date is the one the first relative phrase names: today is now,
      tomorrow a day later, tonight 20:00 today, and so on. */
  lemma ParsedRelativeDue(text: string, env: Env, i: nat, n: nat)
    requires FirstRelative(Lower(Trace(text, env).category.text), i, n)
    ensures Parse(text, env).due == RelativeDue(RelativeKeywords[n], env.now)
    ensures Parse(text, env).due.Some?
  {
    var st := Trace(text, env);
    assert st.byDue == ByDue(st.category.text, env);
    ByDueFirstRelative(st.category.text, env, i, n);
  }

  /** When a "by" phrase gave the due date, nothing from a whole word "by" onwards
      is left in the text (for single-line commands). */
  lemma DueTextHasNoBy(text: string, env: Env)
    requires '\n' !in text
    ensures var st := Trace(text, env);
      st.byDue.due.Some? ==> forall i: nat :: !ByWordAt(st.byDue.text, i)
  {
    var st := Trace(text, env);
    assert st.byDue == ByDue(st.category.text, env);
    NoLineFeedIn(st.category.text, text);
  }

  /** The due-date stage reads only the clock and the date reader. */
  lemma ByDueIgnoresModels(s: string, env: Env, env': Env)
    requires env.fuzzyDate == env'.fuzzyDate && env.now == env'.now
    ensures ByDue(s, env) == ByDue(s, env')
  {
  }

  /** The stages read nothing of the classifiers. */
  lemma TraceIgnoresModels(text: string, env: Env, env': Env)
    requires env.fuzzyDate == env'.fuzzyDate && env.now == env'.now
    ensures Trace(text, env) == Trace(text, env')
  {
    var st := Trace(text, env);
    ByDueIgnoresModels(st.category.text, env, env');
  }

  /** The classifiers are consulted only when their rule found nothing: with a
      rule's answer, any other classifier gives the same result. */
  lemma ModelsOnlyWithoutRule(text: string, env: Env, other: Option<string -> Option<string>>)
    ensures Trace(text, env).priority.level.Some? ==>
      Parse(text, env.(priorityModel := other)).priority == Parse(text, env).priority
    ensures Trace(text, env).category.category.Some? ==>
      Parse(text, env.(categoryModel := other)).category == Parse(text, env).category
  {
    TraceIgnoresModels(text, env, env.(priorityModel := other));
    TraceIgnoresModels(text, env, env.(categoryModel := other));
  }

  /** `r` is what is left of `s` after a prefix was cut off. */
  predicate SuffixOf(r: string, s: string) {
    |r| <= |s| && r == s[|s| - |r|..]
  }

  /** The helper phrases only ever remove a prefix of the stripped command. */
  lemma {:induction false} HelpersRemovePrefix(s: string, ps: seq<string>)
    requires IsStripped(s)
    ensures var r := RemoveHelpers(s, ps);
      IsStripped(r) && SuffixOf(r, s)
  {
    if ps == [] {
      assert s[|s| - |s|..] == s;
    } else {
      var t := RemoveHelpers(s, ps[..|ps| - 1]);
      HelpersRemovePrefix(s, ps[..|ps| - 1]);
      HelpersLast(s, ps);
      DropHelperSuffixOf(s, t, ps[|ps| - 1]);
    }
  }

  /** Dropping a phrase from a suffix of `s` leaves a suffix of `s`. */
  lemma DropHelperSuffixOf(s: string, t: string, phrase: string)
    requires IsStripped(t) && SuffixOf(t, s)
    ensures var r := DropHelper(t, phrase); IsStripped(r) && SuffixOf(r, s)
  {
    DropHelperSuffix(t, phrase);
    SuffixOfSuffix(s, t, DropHelper(t, phrase));
  }

  /** The loop's last step. */
  lemma HelpersLast(s: string, ps: seq<string>)
    requires ps != []
    ensures RemoveHelpers(s, ps) == DropHelper(RemoveHelpers(s, ps[..|ps| - 1]), ps[|ps| - 1])
  {
  }

  /** Text that starts with none of the phrases passes through unchanged. */
  lemma {:induction false} HelpersUnchanged(s: string, ps: seq<string>)
    requires IsStripped(s)
    requires forall p :: p in ps ==> !HelperAt(s, p)
    ensures RemoveHelpers(s, ps) == s
  {
    if ps != [] {
      HelpersUnchanged(s, ps[..|ps| - 1]);
    }
  }

  /** Running the phrases `a` and then `b` is running `a + b`. */
  lemma {:induction false} HelpersConcat(s: string, a: seq<string>, b: seq<string>)
    ensures RemoveHelpers(s, a + b) == RemoveHelpers(RemoveHelpers(s, a), b)
  {
    if b == [] {
      assert a + b == a;
    } else {
      assert (a + b)[..|a + b| - 1] == a + b[..|b| - 1];
      HelpersConcat(s, a, b[..|b| - 1]);
    }
  }

  /** Phrase number `n` applied after the earlier ones. */
  lemma {:induction false} HelpersStep(s: string, t: string, ps: seq<string>, n: nat)
    requires n < |ps|
    requires RemoveHelpers(s, ps[..n]) == s && DropHelper(s, ps[n]) == t
    ensures RemoveHelpers(s, ps[..n + 1]) == t
  {
    var upTo := ps[..n + 1];
    assert upTo[..n] == ps[..n] && upTo[n] == ps[n];
  }

  /** When the phrases before number `n` leave the text alone, phrase `n` leaves
      `t`, and `t` starts with none of the later phrases, the loop leaves `t`. */
  lemma {:induction false} HelpersOneFits(s: string, t: string, ps: seq<string>, n: nat)
    requires n < |ps| && IsStripped(t)
    requires RemoveHelpers(s, ps[..n]) == s && DropHelper(s, ps[n]) == t
    requires forall p :: p in ps[n + 1..] ==> !HelperAt(t, p)
    ensures RemoveHelpers(s, ps) == t
  {
    HelpersStep(s, t, ps, n);
    HelpersUnchanged(t, ps[n + 1..]);
    assert ps[..n + 1] + ps[n + 1..] == ps;
    HelpersConcat(s, ps[..n + 1], ps[n + 1..]);
  }

  /** A command starting with "remind me to " fits none of the first nine phrases. */
  lemma FirstNineMiss(task: string)
    requires task != [] && IsStripped(task)
    ensures var s := "remind me to " + task; RemoveHelpers(s, HelperPhrases[..9]) == s
  {
    var s := "remind me to " + task;
    assert s[0] == 'r' && s[|s| - 1] == task[|task| - 1];
    forall p | p in HelperPhrases[..9]
      ensures !HelperAt(s, p)
    {
      assert LowerChar(p[0]) in {'i', 'p', 'c'};
    }
    HelpersUnchanged(s, HelperPhrases[..9]);
  }

  /** The tenth phrase is "remind me to" (kept apart: stated inline, the phrase
      list is evaluated together with the loop and the proof grows large). */
  lemma PhraseNine()
    ensures HelperPhrases[9] == "remind me to"
  {
  }

  /** "remind me to" and the spaces after it are dropped from the front. */
  lemma RemindStep(task: string)
    requires task != [] && IsStripped(task)
    ensures DropHelper("remind me to " + task, "remind me to") == task
  {
    var s := "remind me to " + task;
    assert s[|s| - 1] == task[|task| - 1];
    assert HelperAt(s, "remind me to") && SkipSpaces(s, 12) == 13 && s[13..] == task;
    StripStripped(task);
  }

  /** "remind me to " followed by a task (say "buy milk") leaves the task: the
      first nine phrases do not fit, "remind me to" and the space go, and the
      task itself begins with none of the remaining phrases. */
  lemma RemindMeTo(task: string)
    requires task != [] && IsStripped(task)
    requires forall p :: p in HelperPhrases[10..] ==> !HelperAt(task, p)
    ensures RemoveHelpers("remind me to " + task, HelperPhrases) == task
  {
    FirstNineMiss(task);
    PhraseNine();
    RemindStep(task);
    HelpersOneFits("remind me to " + task, task, HelperPhrases, 9);
  }
}
