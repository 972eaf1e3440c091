/**
 * ASCII text primitives for the add-command parser and the task table:
 * Python's whitespace and regex word characters, `str.lower`, case-insensitive
 * matching, `str.strip`, and the regular-expression substitution `re.sub(p, "", s)`
 * for the three shapes of pattern the parser uses.
 */
module Text {
  import opened Wrappers

  /** Python's `str.isspace` (and the regex class `\s`) on ASCII: tab, line feed,
      vertical tab, form feed, carriage return, the four separators 28..31, space. */
  predicate IsSpace(c: char) {
    var n := c as int;
    n == 32 || 9 <= n <= 13 || 28 <= n <= 31
  }

  /** The regex class `\w` on ASCII. */
  predicate IsWordChar(c: char) {
    'a' <= c <= 'z' || 'A' <= c <= 'Z' || '0' <= c <= '9' || c == '_'
  }

  /** `str.lower` on one ASCII character. */
  function LowerChar(c: char): char {
    if 'A' <= c <= 'Z' then (c as int + 32) as char else c
  }

  /** `str.lower` on ASCII text. */
  function Lower(s: string): (r: string)
    ensures |r| == |s|
    ensures forall k :: 0 <= k < |s| ==> r[k] == LowerChar(s[k])
  {
    seq(|s|, k requires 0 <= k < |s| => LowerChar(s[k]))
  }

  /** `w` occurs at position `i` of `s`, ignoring ASCII case (a literal under IGNORECASE). */
  predicate MatchAt(s: string, i: nat, w: string) {
    i + |w| <= |s| && forall k :: 0 <= k < |w| ==> LowerChar(s[i + k]) == LowerChar(w[k])
  }

  /** `w` occurs at position `p` of `s`, exactly. */
  predicate Occurs(s: string, p: nat, w: string) {
    p + |w| <= |s| && s[p..p + |w|] == w
  }

  /** Python's `w in s`. */
  predicate Contains(s: string, w: string) {
    exists p: nat :: p <= |s| && Occurs(s, p, w)
  }

  /** The regex assertion `\b` at position `p`: a word character on exactly one side. */
  predicate Boundary(s: string, p: nat) {
    (0 < p <= |s| && IsWordChar(s[p - 1])) != (p < |s| && IsWordChar(s[p]))
  }

  /** The end of the run of whitespace that starts at `j` (greedy `\s*`). */
  function SkipSpaces(s: string, j: nat): (e: nat)
    requires j <= |s|
    ensures j <= e <= |s|
    ensures forall m :: j <= m < e ==> IsSpace(s[m])
    ensures e == |s| || !IsSpace(s[e])
    decreases |s| - j
  {
    if j < |s| && IsSpace(s[j]) then SkipSpaces(s, j + 1) else j
  }

  /** The first line feed at or after `j`, or the end of the text: where a greedy
      `.*` that starts at `j` stops, since `.` does not match a line feed. */
  function LineEnd(s: string, j: nat): (e: nat)
    requires j <= |s|
    ensures j <= e <= |s|
    ensures forall m :: j <= m < e ==> s[m] != '\n'
    ensures e == |s| || s[e] == '\n'
    decreases |s| - j
  {
    if j < |s| && s[j] != '\n' then LineEnd(s, j + 1) else j
  }

  /** On text without line feeds every line runs to the end. */
  lemma {:induction false} LineEndSingle(s: string, j: nat)
    requires j <= |s| && '\n' !in s
    ensures LineEnd(s, j) == |s|
    decreases |s| - j
  {
    if j < |s| {
      assert s[j] in s;
      LineEndSingle(s, j + 1);
    }
  }

  /** The regex assertion `$` (without MULTILINE): the end of the text, or just
      before a line feed that ends it. */
  predicate DollarAt(s: string, e: nat) {
    e == |s| || (e + 1 == |s| && s[e] == '\n')
  }

  /** `\bv\b` matches at `q` (ignoring case): `v` stands there as a whole word. */
  predicate WholeAt(s: string, q: nat, v: string) {
    Boundary(s, q) && MatchAt(s, q, v) && Boundary(s, q + |v|)
  }

  /** `v` stands nowhere in `s` as a whole word. */
  ghost predicate NoWhole(s: string, v: string) {
    forall q: nat :: !WholeAt(s, q, v)
  }

  /** A word, or words joined by single non-word characters ("next week"). */
  predicate PlainPhrase(v: string) {
    |v| > 0 && IsWordChar(v[0]) && IsWordChar(v[|v| - 1])
    && forall k :: 0 <= k < |v| - 1 ==> IsWordChar(v[k]) || IsWordChar(v[k + 1])
  }

  /** A single word: word characters only. */
  predicate SingleWord(v: string) {
    |v| > 0 && forall k :: 0 <= k < |v| ==> IsWordChar(v[k])
  }

  /** The three shapes of pattern the parser hands to `re.sub(..., flags=IGNORECASE)`. */
  datatype Pattern =
    | Literal(text: string)      // the escaped text itself
    | Word(text: string)         // r"\b" + text + r"\b", text starting and ending with a letter
    | ByPhrase(keyword: string)  // r"\bby\s+" + keyword + r"\b", keyword starting with a letter

  /** Length of the match of `p` at position `i` of `s`, 0 when there is none. For
      ByPhrase, `\s+` can only take the whole run of whitespace, since the keyword
      starts with a letter. */
  function MatchLen(p: Pattern, s: string, i: nat): (n: nat)
    ensures n == 0 || i + n <= |s|
  {
    match p
    case Literal(w) =>
      if |w| > 0 && MatchAt(s, i, w) then |w| else 0
    case Word(w) =>
      if |w| > 0 && WholeAt(s, i, w) then |w| else 0
    case ByPhrase(kw) =>
      if Boundary(s, i) && MatchAt(s, i, "by") then
        var j := SkipSpaces(s, i + 2);
        if j > i + 2 && |kw| > 0 && MatchAt(s, j, kw) && Boundary(s, j + |kw|) then j + |kw| - i else 0
      else 0
  }

  /** `re.sub(p, "", s)` applied to the part of `s` from position `i`: a match found
      at the current position is dropped and the scan resumes after it, otherwise the
      character is kept. Assertions look at the whole of `s`, as the regex engine does. */
  function RemoveFrom(p: Pattern, s: string, i: nat): (r: string)
    requires i <= |s|
    ensures |r| <= |s| - i
    decreases |s| - i
  {
    if i == |s| then []
    else
      var n := MatchLen(p, s, i);
      if n > 0 then RemoveFrom(p, s, i + n)
      else [s[i]] + RemoveFrom(p, s, i + 1)
  }

  /** The substitution only drops characters: it adds none. */
  lemma {:induction false} RemoveFromMultiset(p: Pattern, s: string, i: nat)
    requires i <= |s|
    ensures multiset(RemoveFrom(p, s, i)) <= multiset(s[i..])
    decreases |s| - i
  {
    if i < |s| {
      RemoveFromMultiset(p, s, NextStart(p, s, i));
      MultisetStep(p, s, i);
    }
  }

  /** Where the scan goes on from `i`: after the match, or after the character. */
  function NextStart(p: Pattern, s: string, i: nat): (j: nat)
    requires i < |s|
    ensures i < j <= |s|
  {
    if MatchLen(p, s, i) > 0 then i + MatchLen(p, s, i) else i + 1
  }

  /** One step of the scan takes nothing that was not in the text. */
  lemma MultisetStep(p: Pattern, s: string, i: nat)
    requires i < |s|
    requires multiset(RemoveFrom(p, s, NextStart(p, s, i))) <= multiset(s[NextStart(p, s, i)..])
    ensures multiset(RemoveFrom(p, s, i)) <= multiset(s[i..])
  {
    if MatchLen(p, s, i) > 0 {
      MultisetSkip(p, s, i);
    } else {
      MultisetKeep(p, s, i);
    }
  }

  /** A match at `i` is dropped. */
  lemma MultisetSkip(p: Pattern, s: string, i: nat)
    requires i < |s| && MatchLen(p, s, i) > 0
    requires multiset(RemoveFrom(p, s, NextStart(p, s, i))) <= multiset(s[NextStart(p, s, i)..])
    ensures multiset(RemoveFrom(p, s, i)) <= multiset(s[i..])
  {
    var j := NextStart(p, s, i);
    RemoveFromNext(p, s, i);
    MultisetSuffix(s, i, j, RemoveFrom(p, s, j));
  }

  /** Where a match starts, the scan goes on past it. */
  lemma RemoveFromNext(p: Pattern, s: string, i: nat)
    requires i < |s| && MatchLen(p, s, i) > 0
    ensures RemoveFrom(p, s, i) == RemoveFrom(p, s, NextStart(p, s, i))
  {
    RemoveFromSkip(p, s, i, MatchLen(p, s, i));
  }

  /** The character at `i`, where nothing matches, is kept. */
  lemma MultisetKeep(p: Pattern, s: string, i: nat)
    requires i < |s| && MatchLen(p, s, i) == 0
    requires multiset(RemoveFrom(p, s, NextStart(p, s, i))) <= multiset(s[NextStart(p, s, i)..])
    ensures multiset(RemoveFrom(p, s, i)) <= multiset(s[i..])
  {
    assert NextStart(p, s, i) == i + 1;
    RemoveFromKeep(p, s, i);
    MultisetCons(s, i, RemoveFrom(p, s, i + 1));
  }

  /** What is drawn from `s[e..]` is drawn from `s[i..]`. */
  lemma MultisetSuffix(s: string, i: nat, e: nat, r: string)
    requires i <= e <= |s| && multiset(r) <= multiset(s[e..])
    ensures multiset(r) <= multiset(s[i..])
  {
    assert s[i..] == s[i..e] + s[e..];
  }

  /** Putting back the character at `i`. */
  lemma MultisetCons(s: string, i: nat, r: string)
    requires i < |s| && multiset(r) <= multiset(s[i + 1..])
    ensures multiset([s[i]] + r) <= multiset(s[i..])
  {
    assert s[i..] == [s[i]] + s[i + 1..];
  }

  /** `re.sub(p, "", s)`. */
  function Remove(p: Pattern, s: string): (r: string)
    ensures |r| <= |s|
    ensures multiset(r) <= multiset(s)
  {
    RemoveFromMultiset(p, s, 0);
    assert s[0..] == s;
    RemoveFrom(p, s, 0)
  }

  /** Where no match starts, `re.sub` gives back the text unchanged. */
  lemma {:induction false} RemoveFromNoMatch(p: Pattern, s: string, i: nat)
    requires i <= |s|
    requires forall j :: i <= j < |s| ==> MatchLen(p, s, j) == 0
    ensures RemoveFrom(p, s, i) == s[i..]
    decreases |s| - i
  {
    if i < |s| {
      RemoveFromNoMatch(p, s, i + 1);
      assert s[i..] == [s[i]] + s[i + 1..];
    }
  }

  /** The first position at or after `i` where `p` matches, if any. */
  function NextMatch(p: Pattern, s: string, i: nat): (j: Option<nat>)
    requires i <= |s|
    ensures j.Some? ==> i <= j.value < |s| && MatchLen(p, s, j.value) > 0
    ensures j.Some? ==> forall k :: i <= k < j.value ==> MatchLen(p, s, k) == 0
    ensures j.None? ==> forall k :: i <= k < |s| ==> MatchLen(p, s, k) == 0
    decreases |s| - i
  {
    if i == |s| then None
    else if MatchLen(p, s, i) > 0 then Some(i)
    else NextMatch(p, s, i + 1)
  }

  /** The substitution keeps the text up to the next match, drops the match, and
      carries on after it. Together with `RemoveFromNoMatch` this determines the
      result: the text between matches, in order. */
  lemma {:induction false} RemoveFromStep(p: Pattern, s: string, i: nat, j: nat, n: nat)
    requires i <= j < |s| && MatchLen(p, s, j) == n > 0
    requires forall k :: i <= k < j ==> MatchLen(p, s, k) == 0
    ensures RemoveFrom(p, s, i) == s[i..j] + RemoveFrom(p, s, j + n)
    decreases j - i
  {
    if i < j {
      RemoveFromKeep(p, s, i);
      RemoveFromStep(p, s, i + 1, j, n);
      ConsSlice(s, i, j, RemoveFrom(p, s, j + n));
    } else {
      RemoveFromSkip(p, s, j, n);
    }
  }

  /** The step above, taken at the next match. */
  lemma RemoveFromNextMatch(p: Pattern, s: string, i: nat, j: nat)
    requires i <= |s| && NextMatch(p, s, i) == Some(j)
    ensures RemoveFrom(p, s, i) == s[i..j] + RemoveFrom(p, s, j + MatchLen(p, s, j))
  {
    RemoveFromStep(p, s, i, j, MatchLen(p, s, j));
  }

  /** `p` matches nowhere before position `j`. */
  ghost predicate NoMatchBefore(p: Pattern, s: string, j: nat) {
    forall k :: 0 <= k < j ==> MatchLen(p, s, k) == 0
  }

  /** `re.sub` keeps the text before the first match, of `n` characters, and
      drops the match. */
  lemma RemoveFirst(p: Pattern, s: string, j: nat, n: nat)
    requires j < |s| && MatchLen(p, s, j) == n > 0 && NoMatchBefore(p, s, j)
    ensures Remove(p, s) == s[..j] + RemoveFrom(p, s, j + n)
  {
    RemoveFromStep(p, s, 0, j, n);
    FromStart(s, j, RemoveFrom(p, s, j + n));
  }

  /** A literal that occurs is matched in full. */
  lemma LiteralLen(w: string, s: string, j: nat)
    requires |w| > 0 && MatchAt(s, j, w)
    ensures j < |s| && MatchLen(Literal(w), s, j) == |w|
  {
  }

  /** The prefix up to `j`, written either way. */
  lemma FromStart(s: string, j: nat, rest: string)
    requires j <= |s|
    ensures s[0..j] + rest == s[..j] + rest
  {
  }

  /** Putting a character back in front of the slice after it. */
  lemma ConsSlice(s: string, i: nat, j: nat, rest: string)
    requires i < j <= |s|
    ensures [s[i]] + (s[i + 1..j] + rest) == s[i..j] + rest
  {
    assert s[i..j] == [s[i]] + s[i + 1..j];
  }

  /** Where nothing matches, the character is kept. */
  lemma RemoveFromKeep(p: Pattern, s: string, i: nat)
    requires i < |s| && MatchLen(p, s, i) == 0
    ensures RemoveFrom(p, s, i) == [s[i]] + RemoveFrom(p, s, i + 1)
  {
  }

  /** Where a match starts, it is dropped. */
  lemma RemoveFromSkip(p: Pattern, s: string, i: nat, n: nat)
    requires i < |s| && MatchLen(p, s, i) == n > 0
    ensures RemoveFrom(p, s, i) == RemoveFrom(p, s, i + n)
  {
  }

  /** Case folding keeps word characters apart from the rest. */
  lemma LowerWordChar(c: char)
    ensures IsWordChar(LowerChar(c)) == IsWordChar(c)
  {
  }

  /** A character matching a word character of a pattern is a word character. */
  lemma MatchedWordChar(s: string, q: nat, v: string, k: nat)
    requires MatchAt(s, q, v) && k < |v|
    ensures IsWordChar(s[q + k]) == IsWordChar(v[k])
  {
    LowerWordChar(s[q + k]);
    LowerWordChar(v[k]);
  }

  /** A whole word inside a slice is one in the text, provided the slice is not cut
      out of the middle of a word at either end. */
  lemma SliceWhole(s: string, a: nat, b: nat, q: nat, v: string)
    requires a <= b <= |s| && PlainPhrase(v) && WholeAt(s[a..b], q, v)
    requires a == 0 || a == b || !IsWordChar(s[a - 1]) || !IsWordChar(s[a])
    requires b == |s| || a == b || !IsWordChar(s[b]) || !IsWordChar(s[b - 1])
    ensures WholeAt(s, a + q, v)
  {
    var t := s[a..b];
    forall k | 0 <= k < |v|
      ensures LowerChar(s[a + q + k]) == LowerChar(v[k])
    {
      assert t[q + k] == s[a + q + k];
    }
    MatchedWordChar(t, q, v, 0);
    MatchedWordChar(t, q, v, |v| - 1);
    if q > 0 {
      assert t[q - 1] == s[a + q - 1];
    }
    if q + |v| < |t| {
      assert t[q + |v|] == s[a + q + |v|];
    }
  }

  /** A slice that is not cut out of the middle of a word has no whole word the
      text lacks. */
  lemma SliceNoWhole(s: string, a: nat, b: nat, v: string)
    requires a <= b <= |s| && PlainPhrase(v) && NoWhole(s, v)
    requires a == 0 || a == b || !IsWordChar(s[a - 1]) || !IsWordChar(s[a])
    requires b == |s| || a == b || !IsWordChar(s[b]) || !IsWordChar(s[b - 1])
    ensures NoWhole(s[a..b], v)
  {
    forall q: nat | WholeAt(s[a..b], q, v)
      ensures false
    {
      SliceWhole(s, a, b, q, v);
    }
  }

  /** Joining two texts creates no whole word when the join is not inside one:
      non-word characters on both sides, or (for a single word) on either side. */
  lemma ConcatNoWhole(a: string, b: string, v: string)
    requires PlainPhrase(v) && NoWhole(a, v) && NoWhole(b, v)
    requires a == [] || b == [] || (!IsWordChar(a[|a| - 1]) && !IsWordChar(b[0]))
             || (SingleWord(v) && (!IsWordChar(a[|a| - 1]) || !IsWordChar(b[0])))
    ensures NoWhole(a + b, v)
  {
    var s := a + b;
    forall q: nat | WholeAt(s, q, v)
      ensures false
    {
      MatchedWordChar(s, q, v, 0);
      MatchedWordChar(s, q, v, |v| - 1);
      if q + |v| <= |a| {
        assert WholeAt(a, q, v) by {
          forall k | 0 <= k < |v|
            ensures LowerChar(a[q + k]) == LowerChar(v[k])
          {
            assert a[q + k] == s[q + k];
          }
          if q > 0 { assert a[q - 1] == s[q - 1]; }
          if q + |v| < |a| { assert a[q + |v|] == s[q + |v|]; }
        }
      } else if |a| <= q {
        assert WholeAt(b, q - |a|, v) by {
          forall k | 0 <= k < |v|
            ensures LowerChar(b[q - |a| + k]) == LowerChar(v[k])
          {
            assert b[q - |a| + k] == s[q + k];
          }
          if q > |a| { assert b[q - |a| - 1] == s[q - 1]; }
          if q - |a| + |v| < |b| { assert b[q - |a| + |v|] == s[q + |v|]; }
        }
      } else {
        MatchedWordChar(s, q, v, |a| - 1 - q);
        MatchedWordChar(s, q, v, |a| - q);
      }
    }
  }

  /** The text between two matches of a whole word `w` holds no whole `v`, when
      every whole `v` from `i` on is an occurrence of `w`. */
  lemma PieceNoWhole(w: string, v: string, s: string, i: nat, j: nat)
    requires PlainPhrase(w) && PlainPhrase(v) && i <= j <= |s|
    requires forall k :: i <= k < j ==> !WholeAt(s, k, w)
    requires i == 0 || i == j || !IsWordChar(s[i])
    requires j == |s| || i == j || !IsWordChar(s[j - 1])
    requires forall k: nat :: i <= k && WholeAt(s, k, v) ==> WholeAt(s, k, w)
    ensures NoWhole(s[i..j], v)
  {
    forall q: nat | WholeAt(s[i..j], q, v)
      ensures false
    {
      SliceWhole(s, i, j, q, v);
    }
  }

  /** Where the pattern `\bw\b` does not match, `w` does not stand as a whole word. */
  lemma NoMatchNoWhole(w: string, s: string, i: nat, j: nat)
    requires forall k :: i <= k < j ==> MatchLen(Word(w), s, k) == 0
    requires |w| > 0
    ensures forall k :: i <= k < j ==> !WholeAt(s, k, w)
  {
    forall k | i <= k < j
      ensures !WholeAt(s, k, w)
    {
      assert MatchLen(Word(w), s, k) == 0;
    }
  }

  /** Right after a whole word the text goes on with a non-word character, which
      the substitution keeps. */
  lemma AfterWord(w: string, s: string, e: nat)
    requires PlainPhrase(w) && 0 < e <= |s| && IsWordChar(s[e - 1]) && Boundary(s, e)
    ensures var r := RemoveFrom(Word(w), s, e); r == [] || !IsWordChar(r[0])
  {
    if e < |s| {
      LowerWordChar(s[e]);
      LowerWordChar(w[0]);
      assert MatchLen(Word(w), s, e) == 0;
      RemoveFromKeep(Word(w), s, e);
    }
  }

  /** Removing a whole word creates no whole word `v`: the removed word stood between
      non-word characters, so the pieces joined meet at non-word characters. Every
      whole `v` the text has from `i` on must be an occurrence of the removed word. */
  lemma {:induction false} RemoveWordNoWhole(w: string, v: string, s: string, i: nat)
    requires PlainPhrase(w) && PlainPhrase(v) && i <= |s|
    requires i == 0 || i == |s| || !IsWordChar(s[i])
    requires forall k: nat :: i <= k && WholeAt(s, k, v) ==> WholeAt(s, k, w)
    ensures NoWhole(RemoveFrom(Word(w), s, i), v)
    decreases |s| - i
  {
    match NextMatch(Word(w), s, i)
    case None =>
      RemoveWordLast(w, v, s, i);
      RemoveFromNoMatch(Word(w), s, i);
    case Some(j) =>
      var e := j + MatchLen(Word(w), s, j);
      MatchEnds(w, s, j);
      RemoveWordNoWhole(w, v, s, e);
      RemoveWordJoin(w, v, s, i, j);
  }

  /** One step of the scan: the piece before the next match joined to what the
      scan leaves after it. */
  lemma RemoveWordJoin(w: string, v: string, s: string, i: nat, j: nat)
    requires PlainPhrase(w) && PlainPhrase(v) && i <= |s|
    requires i == 0 || i == |s| || !IsWordChar(s[i])
    requires forall k: nat :: i <= k && WholeAt(s, k, v) ==> WholeAt(s, k, w)
    requires NextMatch(Word(w), s, i) == Some(j)
    requires NoWhole(RemoveFrom(Word(w), s, j + MatchLen(Word(w), s, j)), v)
    ensures NoWhole(RemoveFrom(Word(w), s, i), v)
  {
    RemoveFromNextMatch(Word(w), s, i, j);
    RemoveWordPieceAt(w, v, s, i, j);
  }

  /** The piece before the match at `j`, joined to what the scan leaves after it. */
  lemma RemoveWordPieceAt(w: string, v: string, s: string, i: nat, j: nat)
    requires PlainPhrase(w) && PlainPhrase(v) && i <= |s|
    requires i == 0 || i == |s| || !IsWordChar(s[i])
    requires forall k: nat :: i <= k && WholeAt(s, k, v) ==> WholeAt(s, k, w)
    requires NextMatch(Word(w), s, i) == Some(j)
    requires NoWhole(RemoveFrom(Word(w), s, j + MatchLen(Word(w), s, j)), v)
    ensures NoWhole(s[i..j] + RemoveFrom(Word(w), s, j + MatchLen(Word(w), s, j)), v)
  {
    var e := j + MatchLen(Word(w), s, j);
    MatchEnds(w, s, j);
    AfterWord(w, s, e);
    RemoveWordPiece(w, v, s, i, j, RemoveFrom(Word(w), s, e));
  }

  /** The last piece: no match from `i` on. */
  lemma RemoveWordLast(w: string, v: string, s: string, i: nat)
    requires PlainPhrase(w) && PlainPhrase(v) && i <= |s|
    requires i == 0 || i == |s| || !IsWordChar(s[i])
    requires forall k: nat :: i <= k && WholeAt(s, k, v) ==> WholeAt(s, k, w)
    requires NextMatch(Word(w), s, i).None?
    ensures NoWhole(s[i..], v)
  {
    NoMatchNoWhole(w, s, i, |s|);
    PieceNoWhole(w, v, s, i, |s|);
    ToEndNoWhole(s, i, v);
  }

  /** The slice to the end, written either way. */
  lemma ToEndNoWhole(s: string, i: nat, v: string)
    requires i <= |s| && NoWhole(s[i..|s|], v)
    ensures NoWhole(s[i..], v)
  {
    assert s[i..|s|] == s[i..];
  }

  /** The piece up to the next match at `j`, followed by what the scan leaves after
      the match. */
  lemma RemoveWordPiece(w: string, v: string, s: string, i: nat, j: nat, rest: string)
    requires PlainPhrase(w) && PlainPhrase(v) && i <= |s|
    requires i == 0 || i == |s| || !IsWordChar(s[i])
    requires forall k: nat :: i <= k && WholeAt(s, k, v) ==> WholeAt(s, k, w)
    requires NextMatch(Word(w), s, i) == Some(j)
    requires j == 0 || !IsWordChar(s[j - 1])
    requires NoWhole(rest, v) && (rest == [] || !IsWordChar(rest[0]))
    ensures NoWhole(s[i..j] + rest, v)
  {
    NoMatchNoWhole(w, s, i, j);
    PieceNoWhole(w, v, s, i, j);
    JoinPieces(s, i, j, rest, v);
  }

  /** A piece that ends in a non-word character joined to one that starts with one. */
  lemma JoinPieces(s: string, i: nat, j: nat, rest: string, v: string)
    requires PlainPhrase(v) && i <= j <= |s|
    requires i == j || !IsWordChar(s[j - 1])
    requires rest == [] || !IsWordChar(rest[0])
    requires NoWhole(s[i..j], v) && NoWhole(rest, v)
    ensures NoWhole(s[i..j] + rest, v)
  {
    ConcatNoWhole(s[i..j], rest, v);
  }

  /** A whole-word match stands between non-word characters (or the ends). */
  lemma MatchEnds(w: string, s: string, j: nat)
    requires PlainPhrase(w) && j < |s| && MatchLen(Word(w), s, j) > 0
    ensures j == 0 || !IsWordChar(s[j - 1])
    ensures var e := j + MatchLen(Word(w), s, j);
      e <= |s| && IsWordChar(s[e - 1]) && Boundary(s, e) && (e == |s| || !IsWordChar(s[e]))
  {
    MatchedWordChar(s, j, w, 0);
    MatchedWordChar(s, j, w, |w| - 1);
  }

  /** The end of the run of non-whitespace characters that starts at `j`. */
  function SkipNonSpaces(s: string, j: nat): (e: nat)
    requires j <= |s|
    ensures j <= e <= |s|
    ensures forall m :: j <= m < e ==> !IsSpace(s[m])
    ensures e == |s| || IsSpace(s[e])
    decreases |s| - j
  {
    if j < |s| && !IsSpace(s[j]) then SkipNonSpaces(s, j + 1) else j
  }

  /** A whitespace run that ends at `e` is what `SkipSpaces` skips. */
  lemma {:induction false} SkipSpacesRun(s: string, j: nat, e: nat)
    requires j <= e <= |s|
    requires forall m :: j <= m < e ==> IsSpace(s[m])
    requires e == |s| || !IsSpace(s[e])
    ensures SkipSpaces(s, j) == e
    decreases e - j
  {
    if j < e {
      SkipSpacesRun(s, j + 1, e);
    }
  }

  /** The characters `strip` removes: whitespace for `s.strip()`, the given ones for
      `s.strip(chars)`. */
  datatype StripSet = Whitespace | Chars(chars: set<char>)

  predicate Drops(d: StripSet, c: char) {
    match d
    case Whitespace => IsSpace(c)
    case Chars(cs) => c in cs
  }

  /** The first position at or after `i` whose character `drop` keeps, or |s|. */
  function KeepFrom(s: string, drop: StripSet, i: nat): (a: nat)
    requires i <= |s|
    ensures i <= a <= |s|
    ensures forall k :: i <= k < a ==> Drops(drop, s[k])
    ensures a == |s| || !Drops(drop, s[a])
    decreases |s| - i
  {
    if i < |s| && Drops(drop, s[i]) then KeepFrom(s, drop, i + 1) else i
  }

  /** The end of the last character before `j` that `drop` keeps, or 0. */
  function KeepUntil(s: string, drop: StripSet, j: nat): (b: nat)
    requires j <= |s|
    ensures b <= j
    ensures forall k :: b <= k < j ==> Drops(drop, s[k])
    ensures b == 0 || !Drops(drop, s[b - 1])
    decreases j
  {
    if j > 0 && Drops(drop, s[j - 1]) then KeepUntil(s, drop, j - 1) else j
  }

  /** How many leading characters `strip` removes. */
  function Lead(s: string, drop: StripSet): nat {
    KeepFrom(s, drop, 0)
  }

  /** Python's `s.strip(chars)`: the longest slice of `s` that neither starts nor ends
      with a dropped character; everything cut off on either side is dropped. */
  function TrimBoth(s: string, drop: StripSet): (r: string)
    ensures Lead(s, drop) + |r| <= |s| && r == s[Lead(s, drop)..Lead(s, drop) + |r|]
    ensures forall k :: 0 <= k < Lead(s, drop) ==> Drops(drop, s[k])
    ensures forall k :: Lead(s, drop) + |r| <= k < |s| ==> Drops(drop, s[k])
    ensures r == [] || (!Drops(drop, r[0]) && !Drops(drop, r[|r| - 1]))
  {
    var a := KeepFrom(s, drop, 0);
    var b := KeepUntil(s, drop, |s|);
    if a < b then s[a..b] else []
  }

  /** A slice holds no character more often than the whole text does. */
  lemma SliceMultiset(s: string, a: nat, b: nat)
    requires a <= b <= |s|
    ensures multiset(s[a..b]) <= multiset(s)
  {
    assert s == s[..a] + s[a..b] + s[b..];
  }

  /** Python's `s.strip()`. */
  function Strip(s: string): (r: string)
    ensures |r| <= |s|
    ensures multiset(r) <= multiset(s)
  {
    var r := TrimBoth(s, Whitespace);
    SliceMultiset(s, Lead(s, Whitespace), Lead(s, Whitespace) + |r|);
    r
  }

  /** Text that does not end in whitespace loses only a prefix to `strip`. */
  lemma StripKeepsEnd(s: string)
    requires s == [] || !IsSpace(s[|s| - 1])
    ensures Strip(s) == s[Lead(s, Whitespace)..]
  {
    if s != [] {
      assert KeepUntil(s, Whitespace, |s|) == |s|;
    }
  }

  /** Stripping a suffix keeps no character more often than the whole text. */
  lemma StripSuffix(s: string, e: nat)
    requires e <= |s|
    ensures |Strip(s[e..])| <= |s| - e
    ensures multiset(Strip(s[e..])) <= multiset(s)
  {
    SliceMultiset(s, e, |s|);
    assert s[e..|s|] == s[e..];
  }

  /** Stripping a suffix of stripped text gives a suffix of the text. */
  lemma StripSuffixOfStripped(s: string, e: nat)
    requires e <= |s| && IsStripped(s)
    ensures |Strip(s[e..])| <= |s| && Strip(s[e..]) == s[|s| - |Strip(s[e..])|..]
  {
    var t := s[e..];
    var a := Lead(t, Whitespace);
    StripKeepsEnd(t);
    assert Strip(t) == t[a..];
    assert t[a..] == s[e + a..];
  }

  /** Every character `strip` keeps is one of the text's own. */
  lemma StripKeeps(s: string)
    ensures forall m :: 0 <= m < |Strip(s)| ==> Strip(s)[m] in s
  {
    var r := Strip(s);
    var a := Lead(s, Whitespace);
    assert forall m :: 0 <= m < |r| ==> r[m] == s[a + m];
  }

  /** Text that `strip` leaves as it is. */
  predicate IsStripped(s: string) {
    s == [] || (!IsSpace(s[0]) && !IsSpace(s[|s| - 1]))
  }

  /** `strip` leaves stripped text unchanged, and so it is idempotent. */
  lemma StripStripped(s: string)
    ensures IsStripped(Strip(s))
    ensures IsStripped(s) ==> Strip(s) == s
    ensures Strip(Strip(s)) == Strip(s)
  {
    if IsStripped(s) && s != [] {
      assert KeepFrom(s, Whitespace, 0) == 0;
      assert KeepUntil(s, Whitespace, |s|) == |s|;
    }
    var t := Strip(s);
    if t != [] {
      assert KeepFrom(t, Whitespace, 0) == 0;
      assert KeepUntil(t, Whitespace, |t|) == |t|;
    }
  }

  /** `strip` keeps stripped text as it is. */
  lemma StripKept(s: string)
    requires IsStripped(s)
    ensures Strip(s) == s
  {
    StripStripped(s);
  }

  /** The non-whitespace characters of `s`, in order. */
  function NonSpace(s: string): string {
    if s == [] then []
    else (if IsSpace(s[0]) then [] else [s[0]]) + NonSpace(s[1..])
  }

  lemma {:induction false} NonSpaceAppend(a: string, b: string)
    ensures NonSpace(a + b) == NonSpace(a) + NonSpace(b)
  {
    if a != [] {
      assert (a + b)[1..] == a[1..] + b;
      NonSpaceAppend(a[1..], b);
    } else {
      assert a + b == b;
    }
  }

  lemma {:induction false} NonSpaceOfSpaces(s: string)
    requires forall k :: 0 <= k < |s| ==> IsSpace(s[k])
    ensures NonSpace(s) == []
  {
    if s != [] {
      NonSpaceOfSpaces(s[1..]);
    }
  }

  /** No two whitespace characters are adjacent. */
  predicate NoSpaceRun(s: string) {
    forall k :: 0 <= k < |s| - 1 ==> !(IsSpace(s[k]) && IsSpace(s[k + 1]))
  }

  /** The only whitespace character present is the plain space. */
  predicate OnlyPlainSpaces(s: string) {
    forall k :: 0 <= k < |s| ==> IsSpace(s[k]) ==> s[k] == ' '
  }

  /** A suffix of a suffix is a suffix. */
  lemma SuffixOfSuffix(s: string, t: string, r: string)
    requires |t| <= |s| && t == s[|s| - |t|..]
    requires |r| <= |t| && r == t[|t| - |r|..]
    ensures r == s[|s| - |r|..]
  {
    assert forall m :: 0 <= m < |r| ==> r[m] == s[|s| - |r| + m];
  }

  /** A slice keeps both spacing properties. */
  lemma SliceSpacing(s: string, a: nat, b: nat)
    requires a <= b <= |s| && NoSpaceRun(s) && OnlyPlainSpaces(s)
    ensures NoSpaceRun(s[a..b]) && OnlyPlainSpaces(s[a..b])
  {
    assert forall m :: 0 <= m < b - a ==> s[a..b][m] == s[a + m];
  }

  /** `re.sub(r"\s+", " ", s)`: every maximal run of whitespace becomes one space. The
      result has no two adjacent whitespace characters, no whitespace but the space,
      and the same non-whitespace characters in the same order. */
  function Collapse(s: string): (r: string)
    ensures |r| <= |s|
    ensures NoSpaceRun(r) && OnlyPlainSpaces(r)
    ensures (|r| > 0 && IsSpace(r[0])) <==> (|s| > 0 && IsSpace(s[0]))
    ensures NonSpace(r) == NonSpace(s)
    decreases |s|
  {
    if s == [] then []
    else if IsSpace(s[0]) then
      var e := SkipSpaces(s, 0);
      var t := s[e..];
      var r := " " + Collapse(t);
      assert s == s[..e] + t;
      NonSpaceOfSpaces(s[..e]);
      NonSpaceAppend(s[..e], t);
      NonSpaceAppend(" ", Collapse(t));
      r
    else
      var r := [s[0]] + Collapse(s[1..]);
      assert s == [s[0]] + s[1..];
      NonSpaceAppend([s[0]], s[1..]);
      NonSpaceAppend([s[0]], Collapse(s[1..]));
      r
  }

  /** Collapsing leaves a word alone: text without whitespace is kept as it is. */
  lemma {:induction false} CollapseWord(a: string, b: string)
    requires forall k :: 0 <= k < |a| ==> !IsSpace(a[k])
    ensures Collapse(a + b) == a + Collapse(b)
  {
    if a == [] {
      assert a + b == b;
    } else {
      CollapseWord(a[1..], b);
      CollapseWordStep(a, b);
    }
  }

  /** The first character of the word is kept, and the rest of it is collapsed
      as it is. */
  lemma CollapseWordStep(a: string, b: string)
    requires a != [] && !IsSpace(a[0])
    requires Collapse(a[1..] + b) == a[1..] + Collapse(b)
    ensures Collapse(a + b) == a + Collapse(b)
  {
    CollapseFirst(a + b);
    TailOfConcat(a, b);
    ConsConcat(a, Collapse(b));
  }

  /** The tail of `a + b`, for a non-empty `a`. */
  lemma TailOfConcat(a: string, b: string)
    requires a != []
    ensures (a + b)[0] == a[0] && (a + b)[1..] == a[1..] + b
  {
  }

  /** Putting the first character of `a` back in front. */
  lemma ConsConcat(a: string, c: string)
    requires a != []
    ensures [a[0]] + (a[1..] + c) == a + c
  {
    assert a == [a[0]] + a[1..];
  }

  /** A non-whitespace first character is kept. */
  lemma CollapseFirst(s: string)
    requires s != [] && !IsSpace(s[0])
    ensures Collapse(s) == [s[0]] + Collapse(s[1..])
  {
  }

  /** Collapsing turns a whole run of whitespace into one plain space. */
  lemma CollapseRun(w: string, b: string)
    requires w != [] && forall k :: 0 <= k < |w| ==> IsSpace(w[k])
    requires b == [] || !IsSpace(b[0])
    ensures Collapse(w + b) == " " + Collapse(b)
  {
    SkipSpacesRun(w + b, 0, |w|);
    assert (w + b)[|w|..] == b;
  }

  /** Text whose whitespace is already single plain spaces is left as it is. */
  lemma {:induction false} CollapseSpaced(s: string)
    requires NoSpaceRun(s) && OnlyPlainSpaces(s)
    ensures Collapse(s) == s
  {
    if s != [] {
      SliceSpacing(s, 1, |s|);
      assert s[1..|s|] == s[1..];
      CollapseSpaced(s[1..]);
      if IsSpace(s[0]) {
        SkipSpacesRun(s, 0, 1);
      }
    }
  }

  /** Collapsing creates no whole single word: only whitespace changes. */
  lemma {:induction false} CollapseNoWhole(s: string, v: string)
    requires SingleWord(v) && PlainPhrase(v) && NoWhole(s, v)
    ensures NoWhole(Collapse(s), v)
    decreases |s|
  {
    if s == [] {
    } else if IsSpace(s[0]) {
      var e := SkipSpaces(s, 0);
      SliceNoWhole(s, e, |s|, v);
      assert s[e..|s|] == s[e..];
      CollapseNoWhole(s[e..], v);
      CollapseSpaceNoWhole(s, v);
    } else {
      var e := SkipNonSpaces(s, 0);
      var a, rest := s[..e], s[e..];
      if rest != [] {
        assert s[0..e] == a && s[e..|s|] == rest;
        SliceNoWhole(s, 0, e, v);
        SliceNoWhole(s, e, |s|, v);
        CollapseNoWhole(rest, v);
        CollapseWordNoWhole(s, v);
      } else {
        assert s == a + rest;
        CollapseWord(a, rest);
        assert Collapse(rest) == [];
        assert Collapse(s) == s;
      }
    }
  }

  /** A leading run of whitespace becomes one space, which holds no word. */
  lemma CollapseSpaceNoWhole(s: string, v: string)
    requires SingleWord(v) && PlainPhrase(v) && s != [] && IsSpace(s[0])
    requires NoWhole(Collapse(s[SkipSpaces(s, 0)..]), v)
    ensures NoWhole(Collapse(s), v)
  {
    forall q: nat
      ensures !MatchAt(" ", q, v)
    {
      if q + |v| <= 1 {
        LowerWordChar(v[0]);
        assert LowerChar(" "[q]) == ' ';
      }
    }
    ConcatNoWhole(" ", Collapse(s[SkipSpaces(s, 0)..]), v);
  }

  /** A leading word is kept, and what follows it, which starts with whitespace,
      is collapsed on its own. */
  lemma CollapseWordNoWhole(s: string, v: string)
    requires SingleWord(v) && PlainPhrase(v) && s != [] && !IsSpace(s[0])
    requires var e := SkipNonSpaces(s, 0);
      e < |s| && NoWhole(s[..e], v) && NoWhole(Collapse(s[e..]), v)
    ensures NoWhole(Collapse(s), v)
  {
    var e := SkipNonSpaces(s, 0);
    var a, rest := s[..e], s[e..];
    CollapseLeadingWord(s);
    var b := Collapse(rest);
    assert IsSpace(rest[0]);
    assert b != [] && IsSpace(b[0]);
    SpaceNotWord(b[0]);
    ConcatNoWhole(a, b, v);
  }

  /** Whitespace is not a word character. */
  lemma SpaceNotWord(c: char)
    requires IsSpace(c)
    ensures !IsWordChar(c)
  {
  }

  /** Collapsing keeps the leading run of non-whitespace as it is. */
  lemma CollapseLeadingWord(s: string)
    ensures var e := SkipNonSpaces(s, 0); Collapse(s) == s[..e] + Collapse(s[e..])
  {
    var e := SkipNonSpaces(s, 0);
    assert s == s[..e] + s[e..];
    CollapseWord(s[..e], s[e..]);
  }

  /** A text that starts and ends with characters `strip` keeps is left alone. */
  lemma TrimBothKept(s: string, drop: StripSet)
    requires s == [] || (!Drops(drop, s[0]) && !Drops(drop, s[|s| - 1]))
    ensures TrimBoth(s, drop) == s
  {
    if s != [] {
      assert KeepFrom(s, drop, 0) == 0;
      assert KeepUntil(s, drop, |s|) == |s|;
    }
  }

  /** Trimming creates no whole word: what is cut off is not a word character. */
  lemma TrimBothNoWhole(s: string, drop: StripSet, v: string)
    requires PlainPhrase(v) && NoWhole(s, v)
    requires forall c :: Drops(drop, c) ==> !IsWordChar(c)
    ensures NoWhole(TrimBoth(s, drop), v)
  {
    var r := TrimBoth(s, drop);
    var a := Lead(s, drop);
    SliceNoWhole(s, a, a + |r|, v);
  }
}

