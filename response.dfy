/** Normalisation of the vision model's reply and extraction of the numbers
    in it (`process_single_image`, run.py lines 117-122). */
module Response {
  import opened Text

  // ---------------------------------------------------------------------
  // Whitespace stripping (`str.strip()`)
  // ---------------------------------------------------------------------

  /** How many whitespace characters `s` starts with. */
  function LeadingSpaces(s: string): (n: nat)
    ensures n <= |s|
    ensures forall k :: 0 <= k < n ==> IsSpace(s[k])
    ensures n < |s| ==> !IsSpace(s[n])
  {
    if s != [] && IsSpace(s[0]) then 1 + LeadingSpaces(s[1..]) else 0
  }

  /** How many whitespace characters `s` ends with. */
  function TrailingSpaces(s: string): (n: nat)
    ensures n <= |s|
    ensures forall k :: |s| - n <= k < |s| ==> IsSpace(s[k])
    ensures n < |s| ==> !IsSpace(s[|s| - n - 1])
  {
    if s != [] && IsSpace(s[|s| - 1]) then 1 + TrailingSpaces(s[..|s| - 1]) else 0
  }

  /** `str.strip()`: the result is the slice `s[i..i + |r|]` left once the
      whitespace on both ends is gone, everything cut off is whitespace, the
      result neither starts nor ends with whitespace, and it is empty
      exactly when `s` is all whitespace. */
  function Strip(s: string): (r: string)
    ensures var i := LeadingSpaces(s);
      && i + |r| <= |s| && r == s[i..i + |r|]
      && (forall k :: 0 <= k < i ==> IsSpace(s[k]))
      && (forall k :: i + |r| <= k < |s| ==> IsSpace(s[k]))
    ensures r != [] ==> !IsSpace(r[0]) && !IsSpace(r[|r| - 1])
    ensures r == [] <==> forall k :: 0 <= k < |s| ==> IsSpace(s[k])
  {
    var i := LeadingSpaces(s);
    if i == |s| then []
    else
      var n := TrailingSpaces(s);
      assert !IsSpace(s[i]);
      s[i..|s| - n]
  }

  /** A text that neither starts nor ends with whitespace is left alone. */
  lemma StripNoOp(s: string)
    requires s != [] && !IsSpace(s[0]) && !IsSpace(s[|s| - 1])
    ensures Strip(s) == s
  {
    assert LeadingSpaces(s) == 0;
    assert TrailingSpaces(s) == 0;
    assert s[0..|s|] == s;
  }

  // ---------------------------------------------------------------------
  // Substring test (`"none" in text`)
  // ---------------------------------------------------------------------

  /** `w` occurs in `s` starting at index `i`. */
  predicate OccursAt(s: string, w: string, i: int)
  {
    0 <= i <= |s| - |w| && s[i..i + |w|] == w
  }

  /** `w in s` for strings: `w` occurs at some position of `s`. The empty
      string is in every string, and nothing longer than `s` is in it. */
  predicate Contains(s: string, w: string)
    ensures w == [] ==> Contains(s, w)
    ensures Contains(s, w) ==> |w| <= |s|
  {
    assert w == [] ==> OccursAt(s, w, 0);
    exists i :: 0 <= i <= |s| - |w| && OccursAt(s, w, i)
  }

  /** Stripping keeps every occurrence of a word that neither starts nor
      ends with whitespace. */
  lemma StripKeepsWord(s: string, w: string, p: nat) returns (q: nat)
    requires w != [] && !IsSpace(w[0]) && !IsSpace(w[|w| - 1])
    requires OccursAt(s, w, p)
    ensures OccursAt(Strip(s), w, q)
  {
    var r := Strip(s);
    var i := LeadingSpaces(s);
    assert s[p..p + |w|][0] == s[p];
    assert s[p..p + |w|][|w| - 1] == s[p + |w| - 1];
    assert i <= p;
    assert p + |w| <= i + |r|;
    q := p - i;
    forall k | 0 <= k < |w| ensures r[q..q + |w|][k] == w[k] {
      assert r[q + k] == s[p + k] == s[p..p + |w|][k];
    }
    assert r[q..q + |w|] == w;
  }

  // ---------------------------------------------------------------------
  // Digit runs (`re.findall(r'\d+', text)`)
  // ---------------------------------------------------------------------

  /** Every number non-empty and made of digits. */
  predicate AreNumbers(numbers: seq<string>)
  {
    forall k :: 0 <= k < |numbers| ==> numbers[k] != [] && AllDigits(numbers[k])
  }

  /** Length of the longest prefix of `s` made of digits. */
  function LeadingDigits(s: string): (n: nat)
    ensures n <= |s|
    ensures AllDigits(s[..n])
    ensures n == |s| || !IsDigit(s[n])
  {
    if s != [] && IsDigit(s[0]) then 1 + LeadingDigits(s[1..]) else 0
  }

  /** The maximal runs of digits of `s`, left to right, duplicates kept.
      Every run is non-empty and all digits. */
  function DigitRuns(s: string): (runs: seq<string>)
    ensures AreNumbers(runs)
    decreases |s|
  {
    if s == [] then []
    else if !IsDigit(s[0]) then DigitRuns(s[1..])
    else
      var n := LeadingDigits(s);
      [s[..n]] + DigitRuns(s[n..])
  }

  /** The text between the runs: the non-digit stretches that `DigitRuns`
      skips, one more than there are runs. */
  function Gaps(s: string): (gaps: seq<string>)
    ensures |gaps| == |DigitRuns(s)| + 1
    decreases |s|
  {
    if s == [] then [[]]
    else if !IsDigit(s[0]) then
      var g := Gaps(s[1..]);
      [[s[0]] + g[0]] + g[1..]
    else
      var n := LeadingDigits(s);
      [[]] + Gaps(s[n..])
  }

  /** `gaps[0] + runs[0] + gaps[1] + ... + runs[k-1] + gaps[k]`. */
  function Weave(gaps: seq<string>, runs: seq<string>): string
    requires |gaps| == |runs| + 1
    decreases |runs|
  {
    if runs == [] then gaps[0] else gaps[0] + runs[0] + Weave(gaps[1..], runs[1..])
  }

  /** `runs` interleaved with `gaps` splits a text into its maximal digit
      runs: every run is a non-empty string of digits, no gap holds a digit,
      and the gaps that separate two runs are non-empty. */
  predicate IsRunSplit(gaps: seq<string>, runs: seq<string>)
  {
    && |gaps| == |runs| + 1
    && AreNumbers(runs)
    && (forall k :: 0 <= k < |gaps| ==> NoDigits(gaps[k]))
    && (forall k :: 0 < k < |runs| ==> gaps[k] != [])
  }

  lemma {:induction false} SkipGap(g: string, t: string)
    requires NoDigits(g)
    ensures DigitRuns(g + t) == DigitRuns(t)
    decreases |g|
  {
    if g != [] {
      assert (g + t)[0] == g[0] && (g + t)[1..] == g[1..] + t;
      SkipGap(g[1..], t);
    } else {
      assert g + t == t;
    }
  }

  lemma TakeRun(r: string, t: string)
    requires r != [] && AllDigits(r)
    requires t == [] || !IsDigit(t[0])
    ensures DigitRuns(r + t) == [r] + DigitRuns(t)
  {
    var s := r + t;
    var n := LeadingDigits(s);
    assert forall k :: 0 <= k < n ==> IsDigit(s[k]) by {
      forall k | 0 <= k < n ensures IsDigit(s[k]) { assert s[..n][k] == s[k]; }
    }
    assert forall k :: 0 <= k < |r| ==> IsDigit(s[k]);
    assert |r| == |s| || !IsDigit(s[|r|]);
    assert n == |r|;
    assert s[..n] == r && s[n..] == t;
  }

  lemma {:induction false} WeaveExtendsFirstGap(x: string, gaps: seq<string>, runs: seq<string>)
    requires |gaps| == |runs| + 1
    ensures Weave([x + gaps[0]] + gaps[1..], runs) == x + Weave(gaps, runs)
  {
    var gs := [x + gaps[0]] + gaps[1..];
    assert gs[0] == x + gaps[0] && gs[1..] == gaps[1..];
    if runs != [] {
      assert Weave(gs, runs) == (x + gaps[0]) + runs[0] + Weave(gaps[1..], runs[1..]);
      assert Weave(gaps, runs) == gaps[0] + runs[0] + Weave(gaps[1..], runs[1..]);
    }
  }

  /** Uniqueness: whatever split of a text into gaps and maximal digit runs
      is given, its runs are exactly what `DigitRuns` returns. */
  lemma {:induction false} RunsOfAnySplit(gaps: seq<string>, runs: seq<string>)
    requires IsRunSplit(gaps, runs)
    ensures DigitRuns(Weave(gaps, runs)) == runs
    decreases |runs|
  {
    if runs == [] {
      SkipGap(gaps[0], []);
      assert gaps[0] + [] == gaps[0];
    } else {
      var rest := Weave(gaps[1..], runs[1..]);
      assert IsRunSplit(gaps[1..], runs[1..]) by {
        forall k | 0 < k < |runs[1..]| ensures gaps[1..][k] != [] {
          assert gaps[1..][k] == gaps[k + 1];
        }
      }
      RunsOfAnySplit(gaps[1..], runs[1..]);
      assert rest == [] || !IsDigit(rest[0]) by {
        if |runs| == 1 {
          assert rest == gaps[1];
          assert NoDigits(gaps[1]);
        } else {
          assert gaps[1] != [] && NoDigits(gaps[1]);
          assert rest[0] == gaps[1][0];
        }
      }
      TakeRun(runs[0], rest);
      assert Weave(gaps, runs) == gaps[0] + (runs[0] + rest);
      SkipGap(gaps[0], runs[0] + rest);
      assert [runs[0]] + runs[1..] == runs;
    }
  }

  /** Existence: `Gaps` and `DigitRuns` together split `s` into its maximal
      digit runs; weaving them back gives `s`. */
  lemma {:induction false} SplitOfText(s: string)
    ensures IsRunSplit(Gaps(s), DigitRuns(s))
    ensures Weave(Gaps(s), DigitRuns(s)) == s
    decreases |s|
  {
    if s == [] {
    } else if !IsDigit(s[0]) {
      SplitOfText(s[1..]);
      GapsAtGapChar(s);
      GapCharSplit(s[0], s[1..], Gaps(s[1..]), DigitRuns(s[1..]), Gaps(s), DigitRuns(s));
      assert [s[0]] + s[1..] == s;
    } else {
      var n := LeadingDigits(s);
      SplitOfText(s[n..]);
      GapsAtRun(s);
      RunSplitAfterRun(s[..n], s[n..], Gaps(s[n..]), DigitRuns(s[n..]), Gaps(s), DigitRuns(s));
    }
  }

  /** One unfolding of `Gaps` and `DigitRuns` at a non-digit. */
  lemma GapsAtGapChar(s: string)
    requires s != [] && !IsDigit(s[0])
    ensures Gaps(s) == [[s[0]] + Gaps(s[1..])[0]] + Gaps(s[1..])[1..]
    ensures DigitRuns(s) == DigitRuns(s[1..])
  {
  }

  /** One unfolding of `Gaps` and `DigitRuns` at a digit: the leading run
      is non-empty, what follows it does not start with a digit, and the
      two make up `s`. */
  lemma GapsAtRun(s: string)
    requires s != [] && IsDigit(s[0])
    ensures var n := LeadingDigits(s);
      && Gaps(s) == [[]] + Gaps(s[n..])
      && DigitRuns(s) == [s[..n]] + DigitRuns(s[n..])
      && s[..n] != [] && AllDigits(s[..n])
      && (s[n..] == [] || !IsDigit(s[n..][0]))
      && s[..n] + s[n..] == s
  {
    var n := LeadingDigits(s);
    assert s[..n][0] == s[0];
    if s[n..] != [] { assert s[n..][0] == s[n]; }
  }

  /** Putting a non-digit in front of the first gap of a split gives a
      split of the longer text. */
  lemma GapCharSplit(c: char, t: string, g: seq<string>, runs: seq<string>, gs: seq<string>, rs: seq<string>)
    requires !IsDigit(c)
    requires IsRunSplit(g, runs) && Weave(g, runs) == t
    requires gs == [[c] + g[0]] + g[1..] && rs == runs
    ensures IsRunSplit(gs, rs)
    ensures Weave(gs, rs) == [c] + t
  {
    WeaveExtendsFirstGap([c], g, rs);
    forall k | 0 <= k < |gs| ensures NoDigits(gs[k]) {
      if k > 0 { assert gs[k] == g[k]; }
    }
    forall k | 0 < k < |rs| ensures gs[k] != [] {
      assert gs[k] == g[k];
    }
  }

  /** Putting a run and an empty gap in front of the split of a text that
      does not start with a digit gives a split of the longer text. */
  lemma RunSplitAfterRun(r: string, t: string, g: seq<string>, runs: seq<string>, gs: seq<string>, rs: seq<string>)
    requires r != [] && AllDigits(r)
    requires t == [] || !IsDigit(t[0])
    requires IsRunSplit(g, runs) && Weave(g, runs) == t
    requires gs == [[]] + g && rs == [r] + runs
    ensures IsRunSplit(gs, rs)
    ensures Weave(gs, rs) == r + t
  {
    assert gs[1..] == g && rs[1..] == runs;
    forall k | 0 <= k < |rs| ensures rs[k] != [] && AllDigits(rs[k]) {
      if k > 0 { assert rs[k] == runs[k - 1]; }
    }
    forall k | 0 <= k < |gs| ensures NoDigits(gs[k]) {
      if k > 0 { assert gs[k] == g[k - 1]; }
    }
    forall k | 0 < k < |rs| ensures gs[k] != [] {
      assert gs[k] == g[k - 1];
      if k == 1 { FirstGapOfWeave(g, runs); }
    }
    assert Weave(gs, rs) == [] + r + t;
  }

  /** When a split has a run, the text starts with the first gap followed
      by that run; so an empty first gap makes the text start with a digit. */
  lemma FirstGapOfWeave(g: seq<string>, runs: seq<string>)
    requires IsRunSplit(g, runs) && runs != []
    ensures g[0] == [] ==> Weave(g, runs) != [] && IsDigit(Weave(g, runs)[0])
  {
    if g[0] == [] {
      var w := Weave(g, runs);
      assert w == [] + runs[0] + Weave(g[1..], runs[1..]);
      assert w[0] == runs[0][0];
    }
  }

  /** The digits of `s`, in order. */
  function Digits(s: string): string
  {
    if s == [] then [] else (if IsDigit(s[0]) then [s[0]] else []) + Digits(s[1..])
  }

  function Flatten(runs: seq<string>): string
  {
    if runs == [] then [] else runs[0] + Flatten(runs[1..])
  }

  /** `a` is obtained from `b` by deleting characters. */
  predicate IsSubsequence(a: string, b: string)
    decreases |b|
  {
    if a == [] then true
    else if b == [] then false
    else if a[0] == b[0] then IsSubsequence(a[1..], b[1..])
    else IsSubsequence(a, b[1..])
  }

  lemma {:induction false} DigitsOfConcat(a: string, b: string)
    ensures Digits(a + b) == Digits(a) + Digits(b)
    decreases |a|
  {
    if a != [] {
      assert a + b != [] && (a + b)[0] == a[0] && (a + b)[1..] == a[1..] + b;
      DigitsOfConcat(a[1..], b);
    } else {
      assert a + b == b;
    }
  }

  lemma {:induction false} DigitsOfWeave(gaps: seq<string>, runs: seq<string>)
    requires IsRunSplit(gaps, runs)
    ensures Digits(Weave(gaps, runs)) == Flatten(runs)
    decreases |runs|
  {
    if runs == [] {
      NoDigitsHasNoDigits(gaps[0]);
    } else {
      assert IsRunSplit(gaps[1..], runs[1..]) by {
        forall k | 0 < k < |runs[1..]| ensures gaps[1..][k] != [] {
          assert gaps[1..][k] == gaps[k + 1];
        }
      }
      DigitsOfWeave(gaps[1..], runs[1..]);
      var rest := Weave(gaps[1..], runs[1..]);
      DigitsOfConcat(gaps[0], runs[0] + rest);
      DigitsOfConcat(runs[0], rest);
      NoDigitsHasNoDigits(gaps[0]);
      AllDigitsAreDigits(runs[0]);
      assert gaps[0] + runs[0] + rest == gaps[0] + (runs[0] + rest);
    }
  }

  lemma {:induction false} NoDigitsHasNoDigits(g: string)
    requires NoDigits(g)
    ensures Digits(g) == []
    decreases |g|
  {
    if g != [] { NoDigitsHasNoDigits(g[1..]); }
  }

  lemma {:induction false} AllDigitsAreDigits(r: string)
    requires AllDigits(r)
    ensures Digits(r) == r
    decreases |r|
  {
    if r != [] {
      AllDigitsAreDigits(r[1..]);
      assert [r[0]] + r[1..] == r;
    }
  }

  lemma {:induction false} DigitsIsSubsequence(s: string)
    ensures IsSubsequence(Digits(s), s)
    decreases |s|
  {
    if s != [] {
      DigitsIsSubsequence(s[1..]);
      var d := Digits(s);
      if IsDigit(s[0]) {
        assert d[0] == s[0] && d[1..] == Digits(s[1..]);
      } else {
        assert d == Digits(s[1..]);
        if d != [] {
          assert IsDigit(d[0]) by { DigitsAreDigits(s[1..]); }
        }
      }
    }
  }

  lemma {:induction false} DigitsAreDigits(s: string)
    ensures AllDigits(Digits(s))
    decreases |s|
  {
    if s != [] { DigitsAreDigits(s[1..]); }
  }

  /** Concatenating the runs gives exactly the digit characters of the text,
      in order; in particular it is a subsequence of the text. */
  lemma RunsConcatenateToDigits(s: string)
    ensures Flatten(DigitRuns(s)) == Digits(s)
    ensures IsSubsequence(Flatten(DigitRuns(s)), s)
  {
    SplitOfText(s);
    DigitsOfWeave(Gaps(s), DigitRuns(s));
    DigitsIsSubsequence(s);
  }

  // ---------------------------------------------------------------------
  // The reply parser
  // ---------------------------------------------------------------------

  /** `content.strip().lower()`: no longer than the reply, empty exactly
      when the reply is all whitespace, with no whitespace at either end and
      no upper-case ASCII letter left. */
  function Normalize(reply: string): (text: string)
    ensures |text| <= |reply|
    ensures text == [] <==> forall k :: 0 <= k < |reply| ==> IsSpace(reply[k])
    ensures text != [] ==> !IsSpace(text[0]) && !IsSpace(text[|text| - 1])
    ensures forall k :: 0 <= k < |text| ==> !('A' <= text[k] <= 'Z')
  {
    var stripped := Strip(reply);
    LowerKeepsEnds(stripped);
    LowerHasNoCapitals(stripped);
    Lower(stripped)
  }

  /** Normalising twice is normalising once: the parser sees the same text
      whether or not the reply was already stripped and lower-cased. */
  lemma NormalizeIdempotent(reply: string)
    ensures Normalize(Normalize(reply)) == Normalize(reply)
  {
    var text := Normalize(reply);
    if text != [] {
      StripNoOp(text);
    }
    assert Lower(text) == text;
  }

  /** The numbers read off one reply: none at all when the normalised reply
      is empty or mentions "none" anywhere, otherwise its digit runs. */
  function ParseReply(reply: string): (numbers: seq<string>)
    ensures AreNumbers(numbers)
  {
    var text := Normalize(reply);
    if Contains(text, "none") || text == [] then [] else DigitRuns(text)
  }

  /** A reply that spells "none" in any letter case, anywhere, even glued to
      digits or inside a longer word, yields no numbers. */
  lemma NoneAnywhereYieldsNothing(before: string, word: string, after: string)
    requires Lower(word) == "none"
    ensures ParseReply(before + word + after) == []
  {
    var s := before + word + after;
    assert OccursAt(s, word, |before|) by {
      assert LowerChar(word[0]) == 'n' && LowerChar(word[3]) == 'e';
      assert s[|before|..|before| + |word|] == word;
    }
    var q := StripKeepsWord(s, word, |before|);
    NormalizeKeepsNone(Strip(s), word, q);
  }

  /** The reply "none" itself yields no numbers. */
  lemma NoneReply(reply: string)
    requires reply == "none"
    ensures ParseReply(reply) == []
  {
    assert |reply| == 4 && reply[0] == 'n' && reply[1] == 'o' && reply[2] == 'n' && reply[3] == 'e';
    assert Lower(reply) == reply by {
      forall k | 0 <= k < 4 ensures Lower(reply)[k] == reply[k] {
        assert LowerChar(reply[k]) == reply[k];
      }
    }
    NoneAnywhereYieldsNothing([], reply, []);
    assert [] + reply + [] == reply;
  }

  lemma NormalizeKeepsNone(r: string, word: string, q: nat)
    requires Lower(word) == "none"
    requires OccursAt(r, word, q)
    ensures Contains(Lower(r), "none")
  {
    LowerSlice(r, q, q + 4);
    assert OccursAt(Lower(r), "none", q);
  }

  /** An empty or all-whitespace reply yields no numbers. */
  lemma BlankYieldsNothing(reply: string)
    requires forall k :: 0 <= k < |reply| ==> IsSpace(reply[k])
    ensures ParseReply(reply) == []
  {
  }

  /** Outside those two cases the numbers are the maximal digit runs of the
      normalised reply: weaving them with the non-digit text between them
      gives back that text, and no other list of runs does. */
  lemma ParsedNumbersSplitReply(reply: string, numbers: seq<string>)
    requires !Contains(Normalize(reply), "none") && Normalize(reply) != []
    ensures numbers == ParseReply(reply) <==>
      exists gaps :: IsRunSplit(gaps, numbers) && Weave(gaps, numbers) == Normalize(reply)
  {
    var text := Normalize(reply);
    SplitOfText(text);
    if numbers == ParseReply(reply) {
      assert IsRunSplit(Gaps(text), numbers) && Weave(Gaps(text), numbers) == text;
    } else {
      forall gaps | IsRunSplit(gaps, numbers) ensures Weave(gaps, numbers) != text {
        RunsOfAnySplit(gaps, numbers);
      }
    }
  }

  /** The parsed numbers, concatenated, are exactly the digits of the
      normalised reply when it is kept, and a subsequence of it. */
  lemma ParsedNumbersAreTheDigits(reply: string)
    requires !Contains(Normalize(reply), "none") && Normalize(reply) != []
    ensures Flatten(ParseReply(reply)) == Digits(Normalize(reply))
    ensures IsSubsequence(Flatten(ParseReply(reply)), Normalize(reply))
  {
    RunsConcatenateToDigits(Normalize(reply));
  }

  // ---------------------------------------------------------------------
  // Replies in the requested format
  // ---------------------------------------------------------------------

  /** A reply made only of digits and commas is kept as it is. */
  lemma PlainReply(text: string)
    requires text != []
    requires forall k :: 0 <= k < |text| ==> IsDigit(text[k]) || text[k] == ','
    ensures ParseReply(text) == DigitRuns(text)
  {
    NormalizePlain(text);
    NoLetterN(text);
    KeptReply(text);
  }

  lemma NormalizePlain(text: string)
    requires text != []
    requires forall k :: 0 <= k < |text| ==> IsDigit(text[k]) || text[k] == ','
    ensures Normalize(text) == text
  {
    assert !IsSpace(text[0]) && !IsSpace(text[|text| - 1]);
    StripNoOp(text);
    NoLettersLowered(text);
  }

  lemma KeptReply(text: string)
    requires text != [] && Normalize(text) == text && !Contains(text, "none")
    ensures ParseReply(text) == DigitRuns(text)
  {
  }

  lemma NoLettersLowered(text: string)
    requires forall k :: 0 <= k < |text| ==> IsDigit(text[k]) || text[k] == ','
    ensures Lower(text) == text
  {
  }

  lemma NoLetterN(text: string)
    requires forall k :: 0 <= k < |text| ==> IsDigit(text[k]) || text[k] == ','
    ensures !Contains(text, "none")
  {
    forall i | 0 <= i <= |text| - 4 ensures !OccursAt(text, "none", i) {
      assert text[i] != 'n';
      assert text[i..i + 4][0] == text[i];
    }
  }

  /** The reply format the prompt asks for: the numbers separated by
      commas, as in "123,431,890". */
  function JoinCommas(numbers: seq<string>): string
    decreases |numbers|
  {
    if numbers == [] then []
    else if |numbers| == 1 then numbers[0]
    else numbers[0] + "," + JoinCommas(numbers[1..])
  }

  /** The gaps of a comma-separated list of `n` numbers: empty at both
      ends, a comma between two numbers. */
  function CommaGaps(n: nat): (gaps: seq<string>)
    ensures |gaps| == n + 1
  {
    seq(n + 1, k => if k == 0 || k == n then "" else ",")
  }

  lemma {:induction false} WeaveCommas(numbers: seq<string>)
    requires numbers != []
    ensures Weave(CommaGaps(|numbers|), numbers) == JoinCommas(numbers)
    decreases |numbers|
  {
    var n := |numbers|;
    var gs := CommaGaps(n);
    if n == 1 {
      assert Weave(gs, numbers) == "" + numbers[0] + "";
    } else {
      var rest := numbers[1..];
      var cg := CommaGaps(n - 1);
      WeaveCommas(rest);
      WeaveExtendsFirstGap(",", cg, rest);
      assert ["," + cg[0]] + cg[1..] == gs[1..] by {
        assert "," + cg[0] == ",";
      }
      assert Weave(gs, numbers) == "" + numbers[0] + Weave(gs[1..], rest);
    }
  }

  /** The comma gaps together with the numbers are a split into maximal
      digit runs. */
  lemma CommaGapsSplit(numbers: seq<string>)
    requires AreNumbers(numbers)
    ensures IsRunSplit(CommaGaps(|numbers|), numbers)
  {
    var gs := CommaGaps(|numbers|);
    forall k | 0 <= k < |gs| ensures NoDigits(gs[k]) {
      assert gs[k] == "" || gs[k] == ",";
    }
  }

  /** A comma-separated list of digit strings holds only digits and
      commas. */
  lemma {:induction false} JoinCommasChars(numbers: seq<string>)
    requires AreNumbers(numbers)
    ensures forall k :: 0 <= k < |JoinCommas(numbers)| ==>
      IsDigit(JoinCommas(numbers)[k]) || JoinCommas(numbers)[k] == ','
    decreases |numbers|
  {
    if |numbers| > 1 {
      var rest := numbers[1..];
      assert AreNumbers(rest) by {
        forall k | 0 <= k < |rest| ensures rest[k] != [] && AllDigits(rest[k]) {
          assert rest[k] == numbers[k + 1];
        }
      }
      JoinCommasChars(rest);
      var j := JoinCommas(numbers);
      var a := numbers[0];
      assert j == a + "," + JoinCommas(rest);
      forall k | 0 <= k < |j| ensures IsDigit(j[k]) || j[k] == ',' {
        if k < |a| {
          assert j[k] == a[k];
        } else if k > |a| {
          assert j[k] == JoinCommas(rest)[k - |a| - 1];
        }
      }
    }
  }

  /** Round trip: a reply in the requested format, a comma-separated list
      of digit strings, yields exactly those numbers, in order and with
      repeats kept; the empty list joins to the empty reply, which yields
      nothing. */
  lemma CommaListRoundTrip(numbers: seq<string>)
    requires AreNumbers(numbers)
    ensures ParseReply(JoinCommas(numbers)) == numbers
  {
    if numbers == [] {
      BlankYieldsNothing(JoinCommas(numbers));
      return;
    }
    var text := JoinCommas(numbers);
    WeaveCommas(numbers);
    CommaGapsSplit(numbers);
    RunsOfAnySplit(CommaGaps(|numbers|), numbers);
    JoinCommasChars(numbers);
    assert text != [] by {
      assert numbers[0] != [];
      if |numbers| > 1 {
        assert |text| >= |numbers[0]|;
      }
    }
    PlainReply(text);
  }

}
