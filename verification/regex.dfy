/**
  Just enough of JavaScript regular expressions to state the prompt
  validators of index.ts: character ranges, concatenation, alternation,
  `?` and `{n}`, matched against a whole string (the `^...$` anchors).
 */
module Regex {

  datatype Regex =
    | Empty                             // matches only ""
    | Range(lo: char, hi: char)         // `[lo-hi]`: one character in the range
    | Concat(left: Regex, right: Regex) // `left right`
    | Union(left: Regex, right: Regex)  // `left|right`

  function Char(c: char): Regex {
    Range(c, c)
  }

  /** `\d` */
  const Digit: Regex := Range('0', '9')

  /** `r?` */
  function Optional(r: Regex): Regex {
    Union(Empty, r)
  }

  /** `r{n}` */
  function Repeat(r: Regex, n: nat): Regex {
    if n == 0 then Empty else Concat(Repeat(r, n - 1), r)
  }

  /** The length of the longest string `r` can match. */
  function MaxLength(r: Regex): nat {
    match r
    case Empty => 0
    case Range(_, _) => 1
    case Concat(a, b) => MaxLength(a) + MaxLength(b)
    case Union(a, b) => if MaxLength(a) < MaxLength(b) then MaxLength(b) else MaxLength(a)
  }

  /**
    Whether `r` matches all of `s` (an anchored `^r$` test). A match
    never needs more characters than the pattern can consume.
   */
  function Matches(r: Regex, s: string): (m: bool)
    ensures m ==> |s| <= MaxLength(r)
    decreases r, |s| + 1
  {
    match r
    case Empty => |s| == 0
    case Range(lo, hi) => |s| == 1 && lo <= s[0] <= hi
    case Concat(a, b) => MatchesSplit(a, b, s, 0)
    case Union(a, b) => Matches(a, s) || Matches(b, s)
  }

  /** Whether `s` splits at some point `j >= k` into a match of `a` followed by a match of `b`. */
  function MatchesSplit(a: Regex, b: Regex, s: string, k: nat): (m: bool)
    requires k <= |s|
    ensures m ==> |s| <= MaxLength(a) + MaxLength(b)
    decreases Concat(a, b), |s| - k
  {
    (Matches(a, s[..k]) && Matches(b, s[k..])) || (k < |s| && MatchesSplit(a, b, s, k + 1))
  }

  lemma {:induction false} LemmaMatchesSplit(a: Regex, b: Regex, s: string, k: nat)
    requires k <= |s|
    ensures MatchesSplit(a, b, s, k) <==>
            exists j :: k <= j <= |s| && Matches(a, s[..j]) && Matches(b, s[j..])
    decreases |s| - k
  {
    if k < |s| {
      LemmaMatchesSplit(a, b, s, k + 1);
      if MatchesSplit(a, b, s, k + 1) {
        var j :| k + 1 <= j <= |s| && Matches(a, s[..j]) && Matches(b, s[j..]);
        assert k <= j;
      }
    }
  }

  /** `r[lo-hi]` matches `s` exactly when `r` matches all of `s` but its last character, which lies in the range. */
  lemma LemmaConcatRange(r: Regex, lo: char, hi: char, s: string)
    ensures Matches(Concat(r, Range(lo, hi)), s) <==>
            |s| >= 1 && Matches(r, s[..|s| - 1]) && lo <= s[|s| - 1] <= hi
  {
    LemmaMatchesSplit(r, Range(lo, hi), s, 0);
    if |s| >= 1 && Matches(r, s[..|s| - 1]) && lo <= s[|s| - 1] <= hi {
      assert Matches(Range(lo, hi), s[|s| - 1..]);
    }
  }

  /** `[lo-hi]{n}` matches exactly the strings of `n` characters in the range. */
  lemma {:induction false} LemmaRepeatRange(lo: char, hi: char, n: nat, s: string)
    ensures Matches(Repeat(Range(lo, hi), n), s) <==>
            |s| == n && forall i :: 0 <= i < |s| ==> lo <= s[i] <= hi
  {
    if n > 0 {
      LemmaConcatRange(Repeat(Range(lo, hi), n - 1), lo, hi, s);
      if |s| >= 1 {
        var p := s[..|s| - 1];
        LemmaRepeatRange(lo, hi, n - 1, p);
        if |s| == n && forall i :: 0 <= i < |s| ==> lo <= s[i] <= hi {
          assert forall i :: 0 <= i < |p| ==> p[i] == s[i];
        }
      }
    }
  }
}
