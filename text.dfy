/**
 * String normalisation done by `tokenize` before windowing: ASCII
 * lower-casing, then replacing every maximal run of characters matched by
 * `[\W_]` (everything but an ASCII letter or digit) with one space.
 */
module Text {

  predicate IsUpper(c: char) { 'A' <= c <= 'Z' }

  predicate IsLower(c: char) { 'a' <= c <= 'z' }

  predicate IsDigit(c: char) { '0' <= c <= '9' }

  /** The characters that `[\W_]` does not match: ASCII letters and digits. */
  predicate IsWordChar(c: char) { IsUpper(c) || IsLower(c) || IsDigit(c) }

  /** `str.lower()` on one ASCII character. */
  function LowerChar(c: char): (d: char)
    ensures !IsUpper(d)
    ensures IsWordChar(d) == IsWordChar(c)
    ensures !IsUpper(c) ==> d == c
    ensures IsUpper(c) ==> IsLower(d) && d as int - 'a' as int == c as int - 'A' as int
  {
    if IsUpper(c) then (c as int + 32) as char else c
  }

  /** `str.lower()`: maps `A`-`Z` to `a`-`z` and leaves every other character alone. */
  function Lower(s: string): (r: string)
    ensures |r| == |s|
    ensures forall i :: 0 <= i < |r| ==> !IsUpper(r[i]) && IsWordChar(r[i]) == IsWordChar(s[i])
    ensures forall i :: 0 <= i < |r| && !IsUpper(s[i]) ==> r[i] == s[i]
    ensures forall i :: 0 <= i < |r| && IsUpper(s[i]) ==> r[i] as int == s[i] as int + 32
  {
    seq(|s|, i requires 0 <= i < |s| => LowerChar(s[i]))
  }

  /** Lower-casing twice is lower-casing once. */
  lemma LowerIdempotent(s: string)
    ensures Lower(Lower(s)) == Lower(s)
  {
  }

  /** Drops the run of separator characters at the front of `s`. */
  function SkipSeparators(s: string): (r: string)
    ensures |r| <= |s| && r == s[|s| - |r|..]
    ensures r == [] || IsWordChar(r[0])
    ensures forall i :: 0 <= i < |s| - |r| ==> !IsWordChar(s[i])
  {
    if s == [] || IsWordChar(s[0]) then s else SkipSeparators(s[1..])
  }

  /** No character of `t` is an upper-case letter. */
  predicate NoUpper(t: string)
  {
    forall i :: 0 <= i < |t| ==> !IsUpper(t[i])
  }

  /**
   * The shape of a collapsed string: only word characters and spaces, and
   * never two spaces side by side.
   */
  predicate Collapsed(t: string)
  {
    && (forall i :: 0 <= i < |t| ==> IsWordChar(t[i]) || t[i] == ' ')
    && (forall i :: 0 <= i < |t| - 1 ==> !(t[i] == ' ' && t[i + 1] == ' '))
  }

  /**
   * `re.sub(r"[\W_]+", " ", s)`: scanning left to right, each maximal run of
   * separators becomes a single space; word characters are kept.
   */
  function Collapse(s: string): (r: string)
    ensures Collapsed(r)
    ensures |r| <= |s| && (r == [] <==> s == [])
    ensures s != [] && IsWordChar(s[0]) ==> r[0] == s[0]
    decreases |s|
  {
    if s == [] then []
    else if IsWordChar(s[0]) then [s[0]] + Collapse(s[1..])
    else [' '] + Collapse(SkipSeparators(s[1..]))
  }

  /** Collapsing keeps lower-case text lower-case: it only adds spaces. */
  lemma {:induction false} CollapseKeepsCase(s: string)
    requires NoUpper(s)
    ensures NoUpper(Collapse(s))
    decreases |s|
  {
    if s != [] {
      if IsWordChar(s[0]) {
        CollapseKeepsCase(s[1..]);
      } else {
        var rest := SkipSeparators(s[1..]);
        assert forall i :: 0 <= i < |rest| ==> rest[i] == s[|s| - |rest| + i];
        CollapseKeepsCase(rest);
      }
    }
  }

  /** The letters and digits of `s`, in order. */
  function WordChars(s: string): (r: string)
    ensures forall i :: 0 <= i < |r| ==> IsWordChar(r[i])
  {
    if s == [] then []
    else (if IsWordChar(s[0]) then [s[0]] else []) + WordChars(s[1..])
  }

  lemma {:induction false} SkipSeparatorsKeepsWords(s: string)
    ensures WordChars(SkipSeparators(s)) == WordChars(s)
  {
    if s != [] && !IsWordChar(s[0]) {
      SkipSeparatorsKeepsWords(s[1..]);
    }
  }

  /** Collapsing separators neither drops, adds nor reorders a letter or digit. */
  lemma {:induction false} CollapseKeepsWords(s: string)
    ensures WordChars(Collapse(s)) == WordChars(s)
    decreases |s|
  {
    if s == [] {
    } else if IsWordChar(s[0]) {
      CollapseKeepsWords(s[1..]);
      assert ([s[0]] + Collapse(s[1..]))[1..] == Collapse(s[1..]);
    } else {
      var rest := SkipSeparators(s[1..]);
      SkipSeparatorsKeepsWords(s[1..]);
      CollapseKeepsWords(rest);
      assert ([' '] + Collapse(rest))[1..] == Collapse(rest);
    }
  }

  /** A string already in collapsed shape is left as it is. */
  lemma {:induction false} CollapseFixesCollapsed(t: string)
    requires Collapsed(t)
    ensures Collapse(t) == t
    decreases |t|
  {
    if t != [] {
      assert Collapsed(t[1..]) by {
        forall i | 0 <= i < |t[1..]| - 1
          ensures !(t[1..][i] == ' ' && t[1..][i + 1] == ' ')
        {
          assert t[1..][i] == t[i + 1] && t[1..][i + 1] == t[i + 2];
        }
      }
      CollapseFixesCollapsed(t[1..]);
      if !IsWordChar(t[0]) {
        assert t[0] == ' ';
        assert t[1..] == [] || t[1] != ' ';
        assert SkipSeparators(t[1..]) == t[1..];
      }
    }
  }

  /** `Collapse` leaves `t` alone exactly when `t` is in collapsed shape. */
  lemma {:induction false} CollapseFixedPoints(t: string)
    ensures Collapse(t) == t <==> Collapsed(t)
  {
    if Collapsed(t) {
      CollapseFixesCollapsed(t);
    }
  }

  /** Running the substitution a second time changes nothing. */
  lemma {:induction false} CollapseIdempotent(s: string)
    ensures Collapse(Collapse(s)) == Collapse(s)
  {
    CollapseFixesCollapsed(Collapse(s));
  }

  /** A leading run of separators followed by a word character or nothing is skipped entirely. */
  lemma {:induction false} SkipWholeRun(sep: string, y: string)
    requires forall i :: 0 <= i < |sep| ==> !IsWordChar(sep[i])
    requires y == [] || IsWordChar(y[0])
    ensures SkipSeparators(sep + y) == y
  {
    if sep != [] {
      assert (sep + y)[1..] == sep[1..] + y;
      SkipWholeRun(sep[1..], y);
    } else {
      assert sep + y == y;
    }
  }

  /** Skipping stops inside `a` when `a` ends in a word character. */
  lemma {:induction false} SkipSeparatorsAppend(a: string, b: string)
    requires a != [] && IsWordChar(a[|a| - 1])
    ensures SkipSeparators(a + b) == SkipSeparators(a) + b
  {
    if !IsWordChar(a[0]) {
      assert (a + b)[1..] == a[1..] + b;
      SkipSeparatorsAppend(a[1..], b);
    }
  }

  /** Skipping the leading run keeps a word character at the end of `a`. */
  lemma {:induction false} SkipSeparatorsKeepsLast(a: string)
    requires a != [] && IsWordChar(a[|a| - 1])
    ensures SkipSeparators(a) != [] && |SkipSeparators(a)| <= |a|
    ensures SkipSeparators(a)[|SkipSeparators(a)| - 1] == a[|a| - 1]
  {
    if !IsWordChar(a[0]) {
      SkipSeparatorsKeepsLast(a[1..]);
    }
  }

  /** Puts the head step and the recursive case of `CollapseRun` together. */
  lemma RunRegroup(x: string, rest: string, sep: string, y: string, h: char)
    requires Collapse(x + (sep + y)) == [h] + Collapse(rest + (sep + y))
    requires Collapse(x) == [h] + Collapse(rest)
    requires Collapse(rest + sep + y) == Collapse(rest) + " " + Collapse(y)
    ensures Collapse(x + sep + y) == Collapse(x) + " " + Collapse(y)
  {
    Regroup(x, sep, y);
    Regroup(rest, sep, y);
    Regroup([h], Collapse(rest) + " ", Collapse(y));
    Regroup([h], Collapse(rest), " ");
  }

  lemma Regroup(a: string, b: string, c: string)
    ensures a + b + c == a + (b + c)
  {
  }

  /** For instance, the run `..` in `a..b` becomes one space. */
  lemma CollapseExample()
    ensures Collapse("a..b") == "a b"
  {
    assert "a..b" == "a" + ".." + "b";
    CollapseRun("a", "..", "b");
  }

  /** One step of `Collapse` on a string that starts with `c`. */
  lemma CollapseStep(c: char, t: string)
    ensures IsWordChar(c) ==> Collapse([c] + t) == [c] + Collapse(t)
    ensures !IsWordChar(c) ==> Collapse([c] + t) == [' '] + Collapse(SkipSeparators(t))
  {
    assert ([c] + t)[0] == c && ([c] + t)[1..] == t;
  }

  /** `Collapse` on a separator run followed by a word character or nothing. */
  lemma CollapseLeadingRun(sep: string, y: string)
    requires sep != [] && forall i :: 0 <= i < |sep| ==> !IsWordChar(sep[i])
    requires y == [] || IsWordChar(y[0])
    ensures Collapse(sep + y) == " " + Collapse(y)
  {
    assert sep + y == [sep[0]] + (sep[1..] + y);
    SkipWholeRun(sep[1..], y);
    CollapseStep(sep[0], sep[1..] + y);
  }

  /**
   * The first step of `Collapse` on `x + z`, where `x` ends in a word
   * character: it emits `h` and goes on with `rest + z`, exactly as it does
   * on `x` alone.
   */
  lemma CollapseHead(x: string, z: string) returns (h: char, rest: string)
    requires x != [] && IsWordChar(x[|x| - 1])
    ensures |rest| < |x| && (rest == [] || IsWordChar(rest[|rest| - 1]))
    ensures Collapse(x + z) == [h] + Collapse(rest + z)
    ensures Collapse(x) == [h] + Collapse(rest)
  {
    var tail := x[1..];
    assert x == [x[0]] + tail;
    assert x + z == [x[0]] + (tail + z);
    CollapseStep(x[0], tail + z);
    CollapseStep(x[0], tail);
    if IsWordChar(x[0]) {
      h, rest := x[0], tail;
    } else {
      assert |x| >= 2;
      assert tail[|tail| - 1] == x[|x| - 1];
      h, rest := ' ', SkipSeparators(tail);
      SkipSeparatorsKeepsLast(tail);
      SkipSeparatorsAppend(tail, z);
    }
  }

  /**
   * Each maximal run of separators becomes exactly one space: a non-empty
   * run `sep` between word characters (or at either end) is replaced by a
   * single `' '`, and the text on both sides is collapsed on its own.
   */
  lemma {:induction false} CollapseRun(x: string, sep: string, y: string)
    requires sep != [] && forall i :: 0 <= i < |sep| ==> !IsWordChar(sep[i])
    requires x == [] || IsWordChar(x[|x| - 1])
    requires y == [] || IsWordChar(y[0])
    ensures Collapse(x + sep + y) == Collapse(x) + " " + Collapse(y)
    decreases |x|
  {
    if x == [] {
      assert x + sep + y == sep + y;
      CollapseLeadingRun(sep, y);
    } else {
      var h, rest := CollapseHead(x, sep + y);
      CollapseRun(rest, sep, y);
      RunRegroup(x, rest, sep, y, h);
    }
  }

  /** Lower-case, then collapse separators: the string that `tokenize` windows. */
  function Normalise(s: string): (r: string)
    ensures Collapsed(r) && NoUpper(r)
    ensures WordChars(r) == WordChars(Lower(s))
  {
    var lowered := Lower(s);
    var r := Collapse(lowered);
    CollapseKeepsWords(lowered);
    CollapseKeepsCase(lowered);
    r
  }

  /** Lower-casing distributes over concatenation. */
  lemma LowerAppend(a: string, b: string)
    ensures Lower(a + b) == Lower(a) + Lower(b)
  {
  }

  /** In the normalised string, too, each maximal run of separators becomes one space. */
  lemma NormaliseRun(x: string, sep: string, y: string)
    requires sep != [] && forall i :: 0 <= i < |sep| ==> !IsWordChar(sep[i])
    requires x == [] || IsWordChar(x[|x| - 1])
    requires y == [] || IsWordChar(y[0])
    ensures Normalise(x + sep + y) == Normalise(x) + " " + Normalise(y)
  {
    LowerAppend(x + sep, y);
    LowerAppend(x, sep);
    CollapseRun(Lower(x), Lower(sep), Lower(y));
  }

  /** Two strings that agree once lower-cased normalise alike. */
  lemma NormaliseIgnoresCase(s: string)
    ensures Normalise(Lower(s)) == Normalise(s)
  {
    LowerIdempotent(s);
  }
}
