/** `get_ngrams` and `tokenize`: a string as its set of character windows. */
module NGrams {
  import opened Text

  /** The window length `tokenize` uses (the default of `get_ngrams`). */
  const GramLength: nat := 3

  /** The slice `s[i:i+n]`. */
  function Window(s: string, n: nat, i: nat): (w: string)
    requires i + n <= |s|
    ensures |w| == n && forall k :: 0 <= k < n ==> w[k] == s[i + k]
  {
    s[i..i + n]
  }

  lemma WindowOfTail(s: string, n: nat, i: nat)
    requires 1 + i + n <= |s|
    ensures Window(s[1..], n, i) == Window(s, n, i + 1)
  {
  }

  /** `t` is the `n`-character window of `s` at some position. */
  predicate IsWindow(s: string, n: nat, t: string)
  {
    exists i: nat :: i + n <= |s| && Window(s, n, i) == t
  }

  /**
   * `get_ngrams(s, n)`: the distinct `n`-character windows of `s`. The source
   * builds the windows left to right and deduplicates them through `set()`,
   * so its list has no duplicates and no particular order; here it is a set.
   */
  function GetNGrams(s: string, n: nat): (r: set<string>)
    ensures forall t :: t in r ==> |t| == n && IsWindow(s, n, t)
    ensures forall i: nat :: i + n <= |s| ==> Window(s, n, i) in r
    ensures |r| <= if |s| < n then 0 else |s| - n + 1
    decreases |s|
  {
    if |s| < n then {}
    else if |s| == n then
      assert Window(s, n, 0) == s;
      {s}
    else
      var tail := GetNGrams(s[1..], n);
      assert forall t :: t in tail ==> IsWindow(s, n, t) by {
        forall t | t in tail ensures IsWindow(s, n, t) {
          var i: nat :| i + n <= |s[1..]| && Window(s[1..], n, i) == t;
          WindowOfTail(s, n, i);
        }
      }
      assert forall i: nat :: 0 < i && i + n <= |s| ==> Window(s, n, i) in tail by {
        forall i: nat | 0 < i && i + n <= |s| ensures Window(s, n, i) in tail {
          WindowOfTail(s, n, i - 1);
        }
      }
      assert Window(s, n, 0) == s[..n];
      {s[..n]} + tail
  }

  /** There are no n-grams exactly when the string is shorter than `n`. */
  lemma NoNGramsIffShort(s: string, n: nat)
    ensures GetNGrams(s, n) == {} <==> |s| < n
  {
    if |s| >= n {
      assert Window(s, n, 0) in GetNGrams(s, n);
    }
  }

  /** `tokenize(s)`: the trigrams of `s` lower-cased with its separators collapsed. */
  function Tokenize(s: string): (r: set<string>)
    ensures forall g :: g in r ==> IsWindow(Normalise(s), GramLength, g)
    ensures forall i: nat :: i + GramLength <= |Normalise(s)| ==> Window(Normalise(s), GramLength, i) in r
  {
    GetNGrams(Normalise(s), GramLength)
  }

  /** A window of a collapsed, lower-case string is itself collapsed and lower-case. */
  lemma WindowKeepsShape(s: string, n: nat, i: nat)
    requires i + n <= |s|
    requires Collapsed(s) && NoUpper(s)
    ensures Collapsed(Window(s, n, i)) && NoUpper(Window(s, n, i))
  {
    var w := Window(s, n, i);
    forall k | 0 <= k < n - 1 ensures !(w[k] == ' ' && w[k + 1] == ' ') {
      assert w[k] == s[i + k] && w[k + 1] == s[i + k + 1];
    }
  }

  /**
   * Every token has length 3, holds only lower-case letters, digits and
   * single spaces: no upper case, no `_`, no punctuation, no two adjacent
   * spaces.
   */
  lemma TokenShape(s: string)
    ensures forall g :: g in Tokenize(s) ==> |g| == GramLength
    ensures forall g, k :: g in Tokenize(s) && 0 <= k < |g| ==> IsLower(g[k]) || IsDigit(g[k]) || g[k] == ' '
    ensures forall g, k :: g in Tokenize(s) && 0 <= k < |g| - 1 ==> !(g[k] == ' ' && g[k + 1] == ' ')
  {
    var t := Normalise(s);
    forall g | g in Tokenize(s) ensures Collapsed(g) && NoUpper(g) {
      var i: nat :| i + GramLength <= |t| && Window(t, GramLength, i) == g;
      WindowKeepsShape(t, GramLength, i);
    }
  }

  /** Tokenizing ignores case: strings equal once lower-cased have the same tokens. */
  lemma TokenizeIgnoresCase(a: string, b: string)
    requires Lower(a) == Lower(b)
    ensures Tokenize(a) == Tokenize(b)
  {
  }

  /** Lower-casing before tokenizing changes nothing. */
  lemma TokenizeOfLower(s: string)
    ensures Tokenize(Lower(s)) == Tokenize(s)
  {
    NormaliseIgnoresCase(s);
  }
}
