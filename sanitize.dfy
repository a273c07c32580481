/** File-name sanitising: the user's word rules, applied in the order they
    were added, then removal of the characters no file name may hold, then
    trimming of surrounding white space. */
module Sanitize {
  import opened Text

  /** One user rule: a word and what replaces it (`""`, or a word starting
      with `@`, means the word is deleted). */
  datatype Rule = Rule(pattern: string, replacement: string)

  /** The characters removed from every file name. */
  const UnsafeChars: string := "<>:\"/\\|?*"

  // ---------------------------------------------------------------------------
  // Whole-word, case-insensitive substitution (`re.sub(r'\bP\b', rep, s, flags=IGNORECASE)`)

  /** `\b` holds at position `i`: exactly one of the characters around it is
      a word character. */
  predicate IsBoundary(s: string, i: nat)
    requires i <= |s|
  {
    (i > 0 && IsWordChar(s[i - 1])) != (i < |s| && IsWordChar(s[i]))
  }

  /** `\bP\b` matches at position `i`, ignoring case. */
  predicate MatchAt(s: string, p: string, i: nat) {
    && i + |p| <= |s|
    && EqualsIgnoreCase(s[i..i + |p|], p)
    && IsBoundary(s, i)
    && IsBoundary(s, i + |p|)
  }

  /** The substitution of the text from position `i` on: matches are taken
      leftmost first and do not overlap; an empty match inserts `rep` and
      the scan moves one character on. */
  function SubWordFrom(s: string, p: string, rep: string, i: nat): string
    requires i <= |s|
    decreases |s| - i
  {
    if MatchAt(s, p, i) then
      if |p| > 0 then rep + SubWordFrom(s, p, rep, i + |p|)
      else if i < |s| then rep + [s[i]] + SubWordFrom(s, p, rep, i + 1)
      else rep
    else if i < |s| then [s[i]] + SubWordFrom(s, p, rep, i + 1)
    else []
  }

  function SubWord(s: string, p: string, rep: string): string {
    SubWordFrom(s, p, rep, 0)
  }

  /** With no match from position `i` on, that part of the text is kept. */
  lemma {:induction false} NoMatchUnchanged(s: string, p: string, rep: string, i: nat)
    requires i <= |s|
    requires forall j :: i <= j <= |s| ==> !MatchAt(s, p, j)
    ensures SubWordFrom(s, p, rep, i) == s[i..]
    decreases |s| - i
  {
    if i < |s| {
      NoMatchUnchanged(s, p, rep, i + 1);
      assert s[i..] == [s[i]] + s[i + 1..];
    }
  }

  /** A match starts where the text has the first letter of the pattern, up
      to case. */
  lemma MatchStartsWithFirstLetter(s: string, p: string, i: nat)
    requires |p| > 0
    ensures MatchAt(s, p, i) ==> Lower(s[i]) == Lower(p[0])
  {
    if MatchAt(s, p, i) {
      assert LowerString(s[i..i + |p|])[0] == LowerString(p)[0];
    }
  }

  /** A pattern that ends in a word character is never matched where the
      text goes on with a word character (`_` included): `dams` is not found
      in `dams_lecture`. */
  lemma MatchNotFollowedByWordChar(s: string, p: string, i: nat)
    requires |p| > 0 && IsWordChar(p[|p| - 1])
    ensures MatchAt(s, p, i) ==> i + |p| == |s| || !IsWordChar(s[i + |p|])
  {
    if MatchAt(s, p, i) {
      var k := |p| - 1;
      assert LowerString(s[i..i + |p|])[k] == LowerString(p)[k];
      assert Lower(s[i + k]) == Lower(p[k]);
    }
  }

  /** Symmetrically, it is never matched right after a word character:
      `foo` is not found in `myfoo`. */
  lemma MatchNotPrecededByWordChar(s: string, p: string, i: nat)
    requires |p| > 0 && IsWordChar(p[0])
    ensures MatchAt(s, p, i) ==> i == 0 || !IsWordChar(s[i - 1])
  {
    MatchStartsWithFirstLetter(s, p, i);
  }

  /** Where the first letter of the pattern does not occur, up to case,
      there is no match. */
  lemma NoMatchWithoutFirstLetter(s: string, p: string, i: nat)
    requires |p| > 0 && i <= |s|
    requires forall k :: i <= k < |s| ==> Lower(s[k]) != Lower(p[0])
    ensures forall j :: i <= j <= |s| ==> !MatchAt(s, p, j)
  {
    forall j | i <= j <= |s| ensures !MatchAt(s, p, j) {
      MatchStartsWithFirstLetter(s, p, j);
    }
  }

  /** A text that is the word itself, in any case, is replaced whole.  The
      replacement is inserted literally, which is what a substitution
      template does only when it holds no backslash. */
  lemma WholeWordReplaced(s: string, p: string, rep: string)
    requires |p| > 0 && IsWordChar(p[0]) && IsWordChar(p[|p| - 1])
    requires EqualsIgnoreCase(s, p)
    requires '\\' !in rep
    ensures SubWord(s, p, rep) == rep
  {
    assert |s| == |LowerString(s)| == |LowerString(p)| == |p|;
    assert s[0..|p|] == s;
    assert Lower(s[0]) == Lower(p[0]);
    assert Lower(s[|s| - 1]) == Lower(p[|p| - 1]);
    assert MatchAt(s, p, 0);
    assert !MatchAt(s, p, |s|);
    assert SubWordFrom(s, p, rep, |s|) == [];
    assert SubWordFrom(s, p, rep, 0) == rep + SubWordFrom(s, p, rep, |p|);
  }

  // ---------------------------------------------------------------------------
  // The rules and the whole sanitiser

  /** One rule: a deleting rule removes the word (without its `@`), any
      other rule puts its replacement in the word's place. */
  function ApplyRule(name: string, rule: Rule): string {
    if StartsWith(rule.pattern, "@") then SubWord(name, rule.pattern[1..], "")
    else if rule.replacement == [] then SubWord(name, rule.pattern, "")
    else SubWord(name, rule.pattern, rule.replacement)
  }

  /** The rules one after another, first added first. */
  function ApplyRules(name: string, rules: seq<Rule>): string
    decreases |rules|
  {
    if rules == [] then name else ApplyRules(ApplyRule(name, rules[0]), rules[1..])
  }

  /** Applying two runs of rules is applying the first run, then the second
      to its output. */
  lemma {:induction false} ApplyRulesConcat(name: string, first: seq<Rule>, second: seq<Rule>)
    ensures ApplyRules(name, first + second) == ApplyRules(ApplyRules(name, first), second)
    decreases |first|
  {
    if first != [] {
      assert (first + second)[0] == first[0];
      assert (first + second)[1..] == first[1..] + second;
      assert ApplyRules(name, first + second)
        == ApplyRules(ApplyRule(name, first[0]), first[1..] + second);
      ApplyRulesConcat(ApplyRule(name, first[0]), first[1..], second);
    } else {
      assert first + second == second;
    }
  }

  /** Deletes every unsafe character and keeps every other one in order. */
  function RemoveUnsafe(s: string): (r: string)
    ensures |r| <= |s|
    ensures forall c :: c in r <==> c in s && c !in UnsafeChars
    decreases |s|
  {
    if s == [] then []
    else (if s[0] in UnsafeChars then [] else [s[0]]) + RemoveUnsafe(s[1..])
  }

  /** A text with no unsafe character passes through unchanged. */
  lemma {:induction false} RemoveUnsafeKeepsSafe(s: string)
    requires forall c :: c in s ==> c !in UnsafeChars
    ensures RemoveUnsafe(s) == s
    decreases |s|
  {
    if s != [] {
      assert s[0] in s;
      forall c | c in s[1..] ensures c !in UnsafeChars {
        assert c in s;
      }
      RemoveUnsafeKeepsSafe(s[1..]);
      assert s == [s[0]] + s[1..];
    }
  }

  /** What the sanitiser returns: the rules applied, unsafe characters
      removed, white space trimmed. The result holds no unsafe character and
      neither starts nor ends with white space. */
  function SanitizeSpec(name: string, rules: seq<Rule>): (r: string)
    ensures forall k :: 0 <= k < |r| ==> r[k] !in UnsafeChars
    ensures r == [] || (!IsSpace(r[0]) && !IsSpace(r[|r| - 1]))
  {
    Strip(RemoveUnsafe(ApplyRules(name, rules)))
  }

  /** `sanitize_filename`: the loop reassigns the name rule by rule. */
  method SanitizeFilename(name: string, rules: seq<Rule>) returns (r: string)
    ensures r == SanitizeSpec(name, rules)
    ensures forall k :: 0 <= k < |r| ==> r[k] !in UnsafeChars
  {
    var current := name;
    var i := 0;
    while i < |rules|
      invariant 0 <= i <= |rules|
      invariant ApplyRules(current, rules[i..]) == ApplyRules(name, rules)
    {
      assert rules[i..][0] == rules[i] && rules[i..][1..] == rules[i + 1..];
      current := ApplyRule(current, rules[i]);
      i := i + 1;
    }
    r := Strip(RemoveUnsafe(current));
  }

  /** With no rules, sanitising an already sanitised name changes nothing. */
  lemma SanitizeIdempotentWithoutRules(name: string)
    ensures SanitizeSpec(SanitizeSpec(name, []), []) == SanitizeSpec(name, [])
  {
    var once := SanitizeSpec(name, []);
    forall c | c in once ensures c !in UnsafeChars {
      var k :| 0 <= k < |once| && once[k] == c;
    }
    RemoveUnsafeKeepsSafe(once);
    StripNoSpaceEnds(once);
  }

  /** A deleting rule on a name that is only that word leaves nothing, and a
      replacing rule leaves only the replacement (one without a backslash,
      which a substitution template would read as an escape). */
  lemma RuleOnWholeName(name: string, rule: Rule)
    requires !StartsWith(rule.pattern, "@")
    requires '\\' !in rule.replacement
    requires |rule.pattern| > 0 && IsWordChar(rule.pattern[0]) && IsWordChar(rule.pattern[|rule.pattern| - 1])
    requires EqualsIgnoreCase(name, rule.pattern)
    ensures ApplyRule(name, rule) == rule.replacement
  {
    WholeWordReplaced(name, rule.pattern, rule.replacement);
  }

  /** `@word` deletes `word` itself, whatever its replacement says. */
  lemma AtRuleDeletesWord(name: string, word: string, replacement: string)
    requires |word| > 0 && IsWordChar(word[0]) && IsWordChar(word[|word| - 1])
    requires EqualsIgnoreCase(name, word)
    ensures ApplyRule(name, Rule("@" + word, replacement)) == ""
  {
    assert ("@" + word)[1..] == word;
    WholeWordReplaced(name, word, "");
  }

  predicate AllWordChars(s: string) {
    forall k :: 0 <= k < |s| ==> IsWordChar(s[k])
  }

  /** A word joined to what follows by `_` is not a whole word: the rule
      for `p` leaves `p_tail` as it is when the tail does not contain the
      first letter of `p`. */
  lemma UnderscoreJoinedWordKept(p: string, tail: string, rep: string)
    requires |p| > 0 && AllWordChars(p)
    requires forall k :: 0 <= k < |tail| ==> Lower(tail[k]) != Lower(p[0])
    ensures SubWord(p + "_" + tail, p, rep) == p + "_" + tail
  {
    var s := p + "_" + tail;
    var n := |p| + 1;
    forall j | 0 <= j <= |s| ensures !MatchAt(s, p, j) {
      if j == 0 {
        assert s[|p|] == '_' && s[|p| - 1] == p[|p| - 1];
        assert !IsBoundary(s, |p|);
      } else if j < n {
        assert IsWordChar(s[j - 1]) && IsWordChar(s[j]) by {
          assert s[j - 1] == p[j - 1];
          if j < |p| { assert s[j] == p[j]; } else { assert s[j] == '_'; }
        }
        assert !IsBoundary(s, j);
      } else {
        assert s[j..] == tail[j - n..];
        if j < |s| {
          assert s[j] == tail[j - n];
        }
        MatchStartsWithFirstLetter(s, p, j);
      }
    }
    NoMatchUnchanged(s, p, rep, 0);
  }

  /** The rule `dams` leaves `dams_lecture.mp4` as it is. */
  lemma DamsLectureKept(name: string, rule: Rule)
    requires name == "dams_lecture.mp4" && rule == Rule("dams", "")
    ensures ApplyRules(name, [rule]) == name
  {
    var p := rule.pattern;
    var tail := name[5..];
    DamsLectureShape(name, p, tail);
    UnderscoreJoinedWordKept(p, tail, "");
    assert !StartsWith(p, "@") by { assert p[0] == 'd'; }
    assert ApplyRule(name, rule) == SubWord(name, p, "");
    SingleRule(name, rule);
  }

  lemma DamsLectureShape(name: string, p: string, tail: string)
    requires name == "dams_lecture.mp4" && p == "dams" && tail == name[5..]
    ensures name == p + "_" + tail
    ensures |p| > 0 && AllWordChars(p)
    ensures forall k :: 0 <= k < |tail| ==> Lower(tail[k]) != Lower(p[0])
  {
    assert AllWordChars(p);
    forall k | 0 <= k < |tail| ensures Lower(tail[k]) != Lower(p[0]) {
      assert tail[k] in tail;
    }
  }

  /** A run of one rule is that rule. */
  lemma SingleRule(name: string, rule: Rule)
    ensures ApplyRules(name, [rule]) == ApplyRule(name, rule)
  {
    assert [rule][1..] == [];
  }
}
