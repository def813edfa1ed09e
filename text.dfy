/**
 * The string operations of Python that the pipeline relies on, over ASCII:
 * substring containment (`sub in s`), `str.split()`, `' '.join(...)`,
 * `str.replace('_', ' ')`, `str.strip()`, string repetition, and the
 * first-occurrence, case-insensitive substitution that
 * `re.compile(re.escape(p), re.IGNORECASE).sub(repl, s, count=1)` performs.
 */
module Text {
  import opened Outcomes

  // ---------------------------------------------------------------------
  // Substring containment
  // ---------------------------------------------------------------------

  /** Python's `sub in s` on two strings. */
  predicate Contains(s: string, sub: string)
    ensures sub == [] ==> Contains(s, sub)
    ensures Contains(s, sub) ==> |sub| <= |s|
    decreases |s|
  {
    sub <= s || (s != [] && Contains(s[1..], sub))
  }

  /** `sub` occurs in `s` starting at position `i`. */
  predicate OccursAt(s: string, sub: string, i: nat) {
    i + |sub| <= |s| && s[i..i + |sub|] == sub
  }

  /** An occurrence at any position makes `sub in s` true. */
  lemma {:induction false} OccursContains(s: string, sub: string, i: nat)
    requires OccursAt(s, sub, i)
    ensures Contains(s, sub)
    decreases i
  {
    if i == 0 {
      assert s[..|sub|] == sub;
    } else {
      var t := s[1..];
      assert t[i - 1..i - 1 + |sub|] == s[i..i + |sub|];
      OccursContains(t, sub, i - 1);
    }
  }

  /** `sub in s` holds exactly when `sub` occurs in `s` at some position. */
  lemma {:induction false} ContainsIffOccurs(s: string, sub: string)
    ensures Contains(s, sub) <==> exists i: nat :: OccursAt(s, sub, i)
    decreases |s|
  {
    if sub <= s {
      assert s[0..|sub|] == sub;
      assert OccursAt(s, sub, 0);
    } else if s != [] && Contains(s[1..], sub) {
      ContainsIffOccurs(s[1..], sub);
      var i: nat :| OccursAt(s[1..], sub, i);
      assert s[i + 1..i + 1 + |sub|] == s[1..][i..i + |sub|];
      assert OccursAt(s, sub, i + 1);
    }
    forall i: nat | OccursAt(s, sub, i) ensures Contains(s, sub) {
      OccursContains(s, sub, i);
    }
  }

  // ---------------------------------------------------------------------
  // Whitespace, str.split(), ' '.join(...)
  // ---------------------------------------------------------------------

  /** The ASCII characters Python's `str.isspace` accepts. */
  predicate IsSpace(c: char) {
    c == ' ' || (9 <= c as int <= 13) || (28 <= c as int <= 31)
  }

  /** A non-empty run of non-whitespace characters: what `str.split()` yields. */
  predicate IsToken(t: string) {
    t != [] && forall k :: 0 <= k < |t| ==> !IsSpace(t[k])
  }

  /** The length of the leading run of non-whitespace characters of `s`. */
  function TokenLength(s: string): (n: nat)
    ensures n <= |s|
    ensures forall k :: 0 <= k < n ==> !IsSpace(s[k])
    ensures n < |s| ==> IsSpace(s[n])
  {
    if s == [] || IsSpace(s[0]) then 0 else 1 + TokenLength(s[1..])
  }

  /** `s.split()`: the maximal runs of non-whitespace characters, in order. */
  function Split(s: string): (r: seq<string>)
    ensures forall t :: t in r ==> IsToken(t)
    decreases |s|
  {
    if s == [] then []
    else if IsSpace(s[0]) then Split(s[1..])
    else
      var n := TokenLength(s);
      [s[..n]] + Split(s[n..])
  }

  /** `' '.join(ts)`. */
  function Join(ts: seq<string>): (r: string)
    ensures ts == [] ==> r == ""
    ensures ts != [] ==> |r| >= |ts[0]| && r[..|ts[0]|] == ts[0]
    ensures |ts| > 1 ==> |r| > |ts[0]| && r[|ts[0]|] == ' '
  {
    if ts == [] then ""
    else if |ts| == 1 then ts[0]
    else ts[0] + " " + Join(ts[1..])
  }

  /** A token followed by whitespace (or nothing) is read as one run. */
  lemma {:induction false} TokenLengthOfToken(t: string, rest: string)
    requires IsToken(t)
    requires rest == [] || IsSpace(rest[0])
    ensures TokenLength(t + rest) == |t|
    decreases |t|
  {
    var s := t + rest;
    assert s[0] == t[0];
    assert s[1..] == t[1..] + rest;
    if |t| > 1 {
      assert IsToken(t[1..]) by {
        assert forall k :: 0 <= k < |t| - 1 ==> t[1..][k] == t[k + 1];
      }
      TokenLengthOfToken(t[1..], rest);
    } else {
      assert t[1..] + rest == rest;
    }
  }

  /** Splitting words joined by single spaces gives the words back. */
  lemma {:induction false} SplitJoin(ts: seq<string>)
    requires forall t :: t in ts ==> IsToken(t)
    ensures Split(Join(ts)) == ts
    decreases |ts|
  {
    if ts == [] {
    } else if |ts| == 1 {
      var t := ts[0];
      TokenLengthOfToken(t, "");
      assert t + "" == t;
      assert t[..|t|] == t && t[|t|..] == [];
    } else {
      var t, rest := ts[0], Join(ts[1..]);
      var s := t + (" " + rest);
      assert Join(ts) == s;
      TokenLengthOfToken(t, " " + rest);
      assert s[..|t|] == t;
      assert s[|t|..] == " " + rest;
      assert (" " + rest)[1..] == rest;
      assert Split(" " + rest) == Split(rest);
      SplitJoin(ts[1..]);
      assert [t] + ts[1..] == ts;
    }
  }

  /** `ts[-2:]`: the last two elements, or all of them when there are fewer. */
  function LastTwo<T>(ts: seq<T>): (r: seq<T>)
    ensures |r| == if |ts| < 2 then |ts| else 2
    ensures r == ts[|ts| - |r|..]
  {
    if |ts| <= 2 then ts else ts[|ts| - 2..]
  }

  // ---------------------------------------------------------------------
  // str.replace('_', ' '), str.strip(), string repetition
  // ---------------------------------------------------------------------

  /** `s.replace('_', ' ')`: every underscore becomes a space, nothing else moves. */
  function ReplaceUnderscores(s: string): (r: string)
    ensures |r| == |s|
    ensures forall k :: 0 <= k < |s| ==> r[k] == (if s[k] == '_' then ' ' else s[k])
  {
    if s == [] then []
    else [if s[0] == '_' then ' ' else s[0]] + ReplaceUnderscores(s[1..])
  }

  /** `s * n` for a string `s`. */
  function Repeat(s: string, n: nat): (r: string)
    ensures |r| == n * |s|
  {
    if n == 0 then "" else s + Repeat(s, n - 1)
  }

  /** `s.lstrip()`: a suffix of `s` that drops only leading whitespace. */
  function StripLeft(s: string): (r: string)
    ensures |r| <= |s| && r == s[|s| - |r|..]
    ensures forall k :: 0 <= k < |s| - |r| ==> IsSpace(s[k])
    ensures r == [] || !IsSpace(r[0])
  {
    if s != [] && IsSpace(s[0]) then StripLeft(s[1..]) else s
  }

  /** `s.rstrip()`: a prefix of `s` that drops only trailing whitespace. */
  function StripRight(s: string): (r: string)
    ensures |r| <= |s| && r == s[..|r|]
    ensures forall k :: |r| <= k < |s| ==> IsSpace(s[k])
    ensures r == [] || !IsSpace(r[|r| - 1])
  {
    if s != [] && IsSpace(s[|s| - 1]) then StripRight(s[..|s| - 1]) else s
  }

  /** `s.strip()`: leading and trailing whitespace removed. */
  function Strip(s: string): (r: string)
    ensures |r| <= |s|
    ensures r == [] || (!IsSpace(r[0]) && !IsSpace(r[|r| - 1]))
    ensures s != [] && !IsSpace(s[0]) ==> r != [] && r[0] == s[0]
  {
    StripRight(StripLeft(s))
  }

  // ---------------------------------------------------------------------
  // First-occurrence, case-insensitive substitution
  // ---------------------------------------------------------------------

  /** ASCII lower-case fold, the comparison `re.IGNORECASE` makes on ASCII. */
  function LowerAscii(c: char): char {
    if 'A' <= c <= 'Z' then (c as int - 'A' as int + 'a' as int) as char else c
  }

  /** `pat` occurs at position `i` of `text`, ignoring ASCII case. */
  predicate MatchAt(text: string, pat: string, i: nat) {
    i + |pat| <= |text| &&
    forall k :: 0 <= k < |pat| ==> LowerAscii(text[i + k]) == LowerAscii(pat[k])
  }

  /** The leftmost case-insensitive occurrence of `pat` at or after `from`. */
  function FindFrom(text: string, pat: string, from: nat): (r: Option<nat>)
    requires from <= |text|
    ensures r.Some? ==>
              from <= r.value && MatchAt(text, pat, r.value) &&
              forall j: nat :: from <= j < r.value ==> !MatchAt(text, pat, j)
    ensures r.None? ==> forall j: nat :: from <= j ==> !MatchAt(text, pat, j)
    decreases |text| - from
  {
    if MatchAt(text, pat, from) then Some(from)
    else if from == |text| then None
    else FindFrom(text, pat, from + 1)
  }

  /** The substitution `re.sub` makes with `count=1` on an escaped pattern. */
  function SubFirstIgnoreCase(text: string, pat: string, repl: string): (r: string)
    ensures r == text ||
            exists i: nat :: MatchAt(text, pat, i) && r == text[..i] + repl + text[i + |pat|..]
    ensures (exists i: nat :: MatchAt(text, pat, i)) ==> |r| == |text| - |pat| + |repl|
  {
    match FindFrom(text, pat, 0)
    case None => text
    case Some(i) => text[..i] + repl + text[i + |pat|..]
  }

  /** Without an occurrence the text is returned unchanged. */
  lemma SubFirstNoMatch(text: string, pat: string, repl: string)
    requires forall j: nat :: !MatchAt(text, pat, j)
    ensures SubFirstIgnoreCase(text, pat, repl) == text
  {
  }

  /** Only the leftmost occurrence is replaced; the rest of the text is kept. */
  lemma SubFirstAtLeftmost(text: string, pat: string, repl: string, i: nat)
    requires MatchAt(text, pat, i)
    requires forall j: nat :: j < i ==> !MatchAt(text, pat, j)
    ensures SubFirstIgnoreCase(text, pat, repl) == text[..i] + repl + text[i + |pat|..]
  {
  }

  // ---------------------------------------------------------------------
  // Blank placeholders
  // ---------------------------------------------------------------------

  /** One blank group: ten underscores. */
  const Blank: string := "__________"

  function Blanks(n: nat): (r: seq<string>)
    ensures |r| == n && forall k :: 0 <= k < n ==> r[k] == Blank
  {
    seq(n, _ => Blank)
  }

  /**
   * `('__________ ' * n).strip()`: empty only for `n == 0`; otherwise `n`
   * groups of ten underscores with one space between neighbours, so an
   * underscore at either end.
   */
  function BlanksPhrase(n: nat): (r: string)
    ensures r == [] <==> n == 0
    ensures n > 0 ==> |r| == (|Blank| + 1) * n - 1
    ensures r == [] || (r[0] == '_' && r[|r| - 1] == '_')
  {
    StripRepeatBlank(n);
    if n > 0 then JoinBlanksEnds(n); Strip(Repeat(Blank + " ", n))
    else Strip(Repeat(Blank + " ", n))
  }

  lemma {:induction false} RepeatBlank(n: nat)
    requires n >= 1
    ensures Repeat(Blank + " ", n) == Join(Blanks(n)) + " "
  {
    if n == 1 {
      assert Blanks(1) == [Blank];
    } else {
      RepeatBlank(n - 1);
      assert Blanks(n)[1..] == Blanks(n - 1);
      calc {
        Repeat(Blank + " ", n);
        (Blank + " ") + Repeat(Blank + " ", n - 1);
        (Blank + " ") + (Join(Blanks(n - 1)) + " ");
        (Blank + " " + Join(Blanks(n)[1..])) + " ";
        Join(Blanks(n)) + " ";
      }
    }
  }

  /** A non-empty join of blanks starts and ends with an underscore. */
  lemma {:induction false} JoinBlanksEnds(n: nat)
    requires n >= 1
    ensures |Join(Blanks(n))| == (|Blank| + 1) * n - 1
    ensures Join(Blanks(n))[0] == '_'
    ensures Join(Blanks(n))[|Join(Blanks(n))| - 1] == '_'
  {
    if n > 1 {
      assert Blanks(n)[1..] == Blanks(n - 1);
      JoinBlanksEnds(n - 1);
    }
  }

  /** Stripping the repeated groups drops exactly the trailing space. */
  lemma StripRepeatBlank(n: nat)
    ensures Strip(Repeat(Blank + " ", n)) == Join(Blanks(n))
  {
    if n == 0 {
      assert Blanks(0) == [];
    } else {
      RepeatBlank(n);
      JoinBlanksEnds(n);
      var j := Join(Blanks(n));
      var s := j + " ";
      assert StripLeft(s) == s by { assert s[0] == j[0]; }
      assert s[..|s| - 1] == j;
      assert StripRight(s) == StripRight(j);
      assert StripRight(j) == j;
    }
  }

  /**
   * The placeholder phrase is `n` blank groups joined by single spaces, and
   * reading it back with `str.split()` gives `n` blanks.
   */
  lemma BlanksPhraseGroups(n: nat)
    ensures BlanksPhrase(n) == Join(Blanks(n))
    ensures Split(BlanksPhrase(n)) == Blanks(n)
  {
    StripRepeatBlank(n);
    forall t | t in Blanks(n) ensures IsToken(t) {
      assert t == Blank;
    }
    SplitJoin(Blanks(n));
  }
}
