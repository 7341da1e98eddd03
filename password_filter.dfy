/**
 * The password-list filter of the hardened vulpy application
 * (vulpy/good/cutpasswd.py): every line of a wordlist is stripped of
 * surrounding whitespace and printed only when it is at least twelve
 * characters long and holds a lower-case letter, an upper-case letter and a
 * digit.  Reading the file is abstracted away: the wordlist is the sequence
 * of its lines, and what the script prints is the sequence it returns.
 */
module PasswordFilter {

  /** The shortest password the policy accepts. */
  const MinLength := 12

  // ---------------------------------------------------------------------
  // Stripping surrounding whitespace (Python's str.strip() with no argument)
  // ---------------------------------------------------------------------

  /** The ASCII characters str.strip() removes: tab, line feed, vertical tab,
      form feed, carriage return, the four separators 0x1C-0x1F and space. */
  predicate IsSpace(c: char) {
    c == ' ' || '\t' <= c <= '\r' || '\U{1C}' <= c <= '\U{1F}'
  }

  predicate AllSpace(s: string) {
    forall k :: 0 <= k < |s| ==> IsSpace(s[k])
  }

  /** A string with no whitespace at either end. */
  predicate IsTrimmed(s: string) {
    s == [] || (!IsSpace(s[0]) && !IsSpace(s[|s| - 1]))
  }

  /** The index of the first non-whitespace character at or after i, or |s|
      when there is none. */
  function SkipSpace(s: string, i: nat): (n: nat)
    requires i <= |s|
    ensures i <= n <= |s|
    ensures forall k :: i <= k < n ==> IsSpace(s[k])
    ensures n == |s| || !IsSpace(s[n])
    decreases |s| - i
  {
    if i < |s| && IsSpace(s[i]) then SkipSpace(s, i + 1) else i
  }

  /** The index just past the last non-whitespace character at or after
      start below end, or start when there is none. */
  function SkipSpaceBack(s: string, start: nat, end: nat): (n: nat)
    requires start <= end <= |s|
    ensures start <= n <= end
    ensures forall k :: n <= k < end ==> IsSpace(s[k])
    ensures n == start || !IsSpace(s[n - 1])
    decreases end
  {
    if start < end && IsSpace(s[end - 1]) then SkipSpaceBack(s, start, end - 1) else end
  }

  /** str.strip(): the slice of s left once the leading and the trailing
      whitespace are cut off.  What remains neither starts nor ends with
      whitespace. */
  function Strip(s: string): (r: string)
    ensures |r| <= |s|
    ensures IsTrimmed(r)
  {
    var b := SkipSpace(s, 0);
    var e := SkipSpaceBack(s, b, |s|);
    assert b < e ==> !IsSpace(s[b]);
    s[b..e]
  }

  lemma {:induction false} SkipSpaceStopsAt(s: string, i: nat, j: nat)
    requires i <= j <= |s|
    requires forall k :: i <= k < j ==> IsSpace(s[k])
    requires j == |s| || !IsSpace(s[j])
    ensures SkipSpace(s, i) == j
    decreases j - i
  {
    if i < j {
      SkipSpaceStopsAt(s, i + 1, j);
    }
  }

  lemma {:induction false} SkipSpaceBackStopsAt(s: string, start: nat, j: nat, end: nat)
    requires start <= j <= end <= |s|
    requires forall k :: j <= k < end ==> IsSpace(s[k])
    requires j == start || !IsSpace(s[j - 1])
    ensures SkipSpaceBack(s, start, end) == j
    decreases end
  {
    if j < end {
      SkipSpaceBackStopsAt(s, start, j, end - 1);
    }
  }

  /** Strip is pinned down by its contract: whitespace padding around a
      trimmed core strips to exactly that core. */
  lemma StripPadded(pre: string, core: string, post: string)
    requires AllSpace(pre) && AllSpace(post)
    requires IsTrimmed(core)
    ensures Strip(pre + core + post) == core
  {
    var s := pre + core + post;
    var b, e := |pre|, |pre| + |core|;
    assert forall k :: 0 <= k < b ==> s[k] == pre[k];
    assert forall k :: e <= k < |s| ==> s[k] == post[k - e];
    if core == [] {
      SkipSpaceStopsAt(s, 0, |s|);
      SkipSpaceBackStopsAt(s, |s|, |s|, |s|);
    } else {
      assert s[b] == core[0] && s[e - 1] == core[|core| - 1];
      SkipSpaceStopsAt(s, 0, b);
      SkipSpaceBackStopsAt(s, b, e, |s|);
      assert s[b..e] == core;
    }
  }

  /** A line strips to "" exactly when it is nothing but whitespace. */
  lemma StripEmptyIff(s: string)
    ensures Strip(s) == [] <==> AllSpace(s)
  {
    if AllSpace(s) {
      assert s + [] + [] == s;
      StripPadded(s, [], []);
    } else {
      var k :| 0 <= k < |s| && !IsSpace(s[k]);
      var b := SkipSpace(s, 0);
      assert b <= k;
      assert SkipSpaceBack(s, b, |s|) > b;
    }
  }

  /** Stripping twice is stripping once. */
  lemma StripIdempotent(s: string)
    ensures Strip(Strip(s)) == Strip(s)
  {
    var r := Strip(s);
    assert [] + r + [] == r;
    StripPadded([], r, []);
  }

  /** A string is left unchanged by Strip exactly when it has no
      whitespace at either end. */
  lemma StripFixedIff(s: string)
    ensures Strip(s) == s <==> IsTrimmed(s)
  {
    if IsTrimmed(s) {
      assert [] + s + [] == s;
      StripPadded([], s, []);
    }
  }

  // ---------------------------------------------------------------------
  // The password policy
  // ---------------------------------------------------------------------

  /** Some character of s lies in the range lo..hi: the one-character regex
      class [lo-hi] matches somewhere in s. */
  predicate HasCharIn(s: string, lo: char, hi: char) {
    s != [] && (lo <= s[0] <= hi || HasCharIn(s[1..], lo, hi))
  }

  /** HasCharIn holds exactly when some position of s holds a character of
      the range. */
  lemma {:induction false} HasCharInIff(s: string, lo: char, hi: char)
    ensures HasCharIn(s, lo, hi) <==> exists i :: 0 <= i < |s| && lo <= s[i] <= hi
  {
    if s != [] {
      HasCharInIff(s[1..], lo, hi);
      if exists i :: 0 <= i < |s| && lo <= s[i] <= hi {
        var i :| 0 <= i < |s| && lo <= s[i] <= hi;
        if i > 0 {
          assert s[1..][i - 1] == s[i];
        }
      }
      if HasCharIn(s[1..], lo, hi) {
        var i :| 0 <= i < |s| - 1 && lo <= s[1..][i] <= hi;
        assert lo <= s[i + 1] <= hi;
      }
    }
  }

  /** The number of matches of the class [lo-hi] in s, that is
      len(re.findall('[lo-hi]', s)); it is at least one exactly when some
      character of s lies in the class. */
  function CountIn(s: string, lo: char, hi: char): (n: nat)
    ensures n >= 1 <==> HasCharIn(s, lo, hi)
  {
    if s == [] then 0
    else (if lo <= s[0] <= hi then 1 else 0) + CountIn(s[1..], lo, hi)
  }

  predicate HasLower(s: string) { HasCharIn(s, 'a', 'z') }
  predicate HasUpper(s: string) { HasCharIn(s, 'A', 'Z') }
  predicate HasDigit(s: string) { HasCharIn(s, '0', '9') }

  /** The complexity policy a stripped candidate must meet to be printed. */
  predicate Qualifies(password: string) {
    |password| >= MinLength && HasLower(password) && HasUpper(password) && HasDigit(password)
  }

  // ---------------------------------------------------------------------
  // The filter
  // ---------------------------------------------------------------------

  /** What one wordlist line contributes to the output. */
  function Emitted(line: string): seq<string> {
    var password := Strip(line);
    if Qualifies(password) then [password] else []
  }

  /** The script's output for a whole wordlist, line after line. */
  function Filter(lines: seq<string>): seq<string> {
    if lines == [] then []
    else Filter(lines[..|lines| - 1]) + Emitted(lines[|lines| - 1])
  }

  /** The loop of the script: strip each line, skip it on the first policy
      check it fails, and otherwise emit it. */
  method CutPasswords(lines: seq<string>) returns (out: seq<string>)
    ensures out == Filter(lines)
  {
    out := [];
    for i := 0 to |lines|
      invariant out == Filter(lines[..i])
    {
      assert lines[..i + 1][..i] == lines[..i];
      var password := Strip(lines[i]);
      if |password| < MinLength {
        continue;
      }
      if CountIn(password, 'a', 'z') < 1 {
        continue;
      }
      if CountIn(password, 'A', 'Z') < 1 {
        continue;
      }
      if CountIn(password, '0', '9') < 1 {
        continue;
      }
      out := out + [password];
    }
    assert lines[..|lines|] == lines;
  }

  /** The indices of the wordlist lines whose stripped form qualifies. */
  function QualifyingIndices(lines: seq<string>): (idx: seq<nat>)
    ensures forall k :: 0 <= k < |idx| ==> idx[k] < |lines|
  {
    if lines == [] then []
    else
      var n := |lines| - 1;
      QualifyingIndices(lines[..n]) + (if Qualifies(Strip(lines[n])) then [n] else [])
  }

  /** The output is never longer than the wordlist; an empty wordlist
      gives an empty output. */
  lemma {:induction false} FilterLength(lines: seq<string>)
    ensures |Filter(lines)| <= |lines|
    ensures lines == [] ==> Filter(lines) == []
  {
    if lines != [] {
      FilterLength(lines[..|lines| - 1]);
    }
  }

  /** Filtering a concatenation is filtering each part: every line is judged
      on its own. */
  lemma {:induction false} FilterAppend(a: seq<string>, b: seq<string>)
    ensures Filter(a + b) == Filter(a) + Filter(b)
  {
    if b == [] {
      assert a + b == a;
    } else {
      var n := |b| - 1;
      assert (a + b)[..|a + b| - 1] == a + b[..n];
      FilterAppend(a, b[..n]);
    }
  }

  /** Everything emitted passes the policy (so has at least twelve
      characters), carries no surrounding whitespace, and is the stripped
      form of some wordlist line. */
  lemma {:induction false} FilterSound(lines: seq<string>)
    ensures forall p :: p in Filter(lines) ==>
              Qualifies(p) && |p| >= MinLength && IsTrimmed(p)
              && exists i :: 0 <= i < |lines| && p == Strip(lines[i])
  {
    if lines != [] {
      var n := |lines| - 1;
      FilterSound(lines[..n]);
      forall p | p in Filter(lines)
        ensures Qualifies(p) && IsTrimmed(p) && exists i :: 0 <= i < |lines| && p == Strip(lines[i])
      {
        if p in Filter(lines[..n]) {
          var i :| 0 <= i < n && p == Strip(lines[..n][i]);
          assert p == Strip(lines[i]);
        } else {
          assert p == Strip(lines[n]);
        }
      }
    }
  }

  /** The qualifying indices are listed in strictly increasing order. */
  lemma {:induction false} QualifyingIndicesIncrease(lines: seq<string>)
    ensures forall k, m :: 0 <= k < m < |QualifyingIndices(lines)| ==>
              QualifyingIndices(lines)[k] < QualifyingIndices(lines)[m]
  {
    if lines != [] {
      QualifyingIndicesIncrease(lines[..|lines| - 1]);
    }
  }

  /** A line's index is among the qualifying indices if and only if its
      stripped form passes the policy. */
  lemma {:induction false} QualifyingIndexIff(lines: seq<string>, j: nat)
    requires j < |lines|
    ensures j in QualifyingIndices(lines) <==> Qualifies(Strip(lines[j]))
    decreases |lines|
  {
    var n := |lines| - 1;
    var init := lines[..n];
    var kept := Qualifies(Strip(lines[n]));
    assert QualifyingIndices(lines) == QualifyingIndices(init) + (if kept then [n] else []);
    if j < n {
      QualifyingIndexIff(init, j);
      assert init[j] == lines[j];
    } else {
      assert n !in QualifyingIndices(init);
    }
  }

  /** The output is exactly the stripped lines at the qualifying indices,
      one for one.  With QualifyingIndicesIncrease and QualifyingIndexIff
      this makes the output the subsequence of the stripped wordlist made of
      the lines that pass the policy, in input order: nothing is reordered,
      deduplicated or sorted. */
  lemma {:induction false} FilterIsSelection(lines: seq<string>)
    ensures |QualifyingIndices(lines)| == |Filter(lines)|
    ensures forall k :: 0 <= k < |Filter(lines)| ==>
              Filter(lines)[k] == Strip(lines[QualifyingIndices(lines)[k]])
  {
    if lines != [] {
      var n := |lines| - 1;
      var init := lines[..n];
      FilterIsSelection(init);
      var idx, out := QualifyingIndices(init), Filter(init);
      var password := Strip(lines[n]);
      var kept := Qualifies(password);
      assert Filter(lines) == out + (if kept then [password] else []);
      assert QualifyingIndices(lines) == idx + (if kept then [n] else []);
      forall k | 0 <= k < |Filter(lines)|
        ensures Filter(lines)[k] == Strip(lines[QualifyingIndices(lines)[k]])
      {
        if k < |out| {
          assert init[idx[k]] == lines[idx[k]];
        }
      }
    }
  }

  /** A wordlist line is printed if and only if its stripped form passes the
      policy. */
  lemma EmittedIff(lines: seq<string>, i: nat)
    requires i < |lines|
    ensures Strip(lines[i]) in Filter(lines) <==> Qualifies(Strip(lines[i]))
  {
    FilterSound(lines);
    if Qualifies(Strip(lines[i])) {
      QualifyingIndexIff(lines, i);
      FilterIsSelection(lines);
      var idx := QualifyingIndices(lines);
      var k :| 0 <= k < |idx| && idx[k] == i;
      assert Filter(lines)[k] == Strip(lines[i]);
    }
  }

  /** A candidate lacking one of the three character classes is never
      printed, however long it is. */
  lemma MissingClassRejected(lines: seq<string>, i: nat)
    requires i < |lines|
    requires !HasLower(Strip(lines[i])) || !HasUpper(Strip(lines[i])) || !HasDigit(Strip(lines[i]))
    ensures Strip(lines[i]) !in Filter(lines)
  {
    EmittedIff(lines, i);
  }

  /** Filtering the script's own output changes nothing. */
  lemma {:induction false} FilterIdempotent(lines: seq<string>)
    ensures Filter(Filter(lines)) == Filter(lines)
  {
    if lines != [] {
      var n := |lines| - 1;
      var e := Emitted(lines[n]);
      FilterIdempotent(lines[..n]);
      FilterAppend(Filter(lines[..n]), e);
      if e != [] {
        StripIdempotent(lines[n]);
        assert Filter(e) == Filter([]) + Emitted(e[0]);
      }
    }
  }

  /** A fifteen-character candidate with a lower-case letter, an upper-case
      letter and a digit passes the policy. */
  lemma SampleAccepted()
    ensures Qualifies("Passw0rdLonger!")
  {
    var good := "Passw0rdLonger!";
    assert good[1] == 'a' && good[0] == 'P' && good[5] == '0';
    HasCharInIff(good, 'a', 'z');
    HasCharInIff(good, 'A', 'Z');
    HasCharInIff(good, '0', '9');
  }

  /** A short candidate is rejected although it has all three classes. */
  lemma SampleTooShort()
    ensures !Qualifies("Short1A")
  {
  }

  /** A long candidate without an upper-case letter is rejected. */
  lemma SampleNoUpper()
    ensures !Qualifies("alllowercase123456")
  {
    var lower := "alllowercase123456";
    assert !HasUpper(lower) by {
      assert forall i | 0 <= i < |lower| :: !('A' <= lower[i] <= 'Z');
      HasCharInIff(lower, 'A', 'Z');
    }
  }

  /** A long candidate without a digit is rejected. */
  lemma SampleNoDigit()
    ensures !Qualifies("NoDigitsHereAtAll")
  {
    var noDigit := "NoDigitsHereAtAll";
    assert !HasDigit(noDigit) by {
      assert forall i | 0 <= i < |noDigit| :: !('0' <= noDigit[i] <= '9');
      HasCharInIff(noDigit, '0', '9');
    }
  }
}
