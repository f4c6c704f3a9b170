/** Character classes of the linker's regular expressions and the string
    built-ins it relies on (`trim`, `substring`, `join`). */
module Chars {
  import opened Basics

  /** JavaScript's `\s` class, which is also the set `String.prototype.trim`
      strips: the ECMAScript WhiteSpace and LineTerminator code points. */
  predicate IsWhitespace(c: char)
  {
    var n := c as int;
    n == 0x09 || n == 0x0A || n == 0x0B || n == 0x0C || n == 0x0D || n == 0x20 ||
    n == 0xA0 || n == 0x1680 || (0x2000 <= n <= 0x200A) ||
    n == 0x2028 || n == 0x2029 || n == 0x202F || n == 0x205F || n == 0x3000 || n == 0xFEFF
  }

  /** `s.trim().length <= 0`: the string holds nothing but whitespace. */
  predicate IsBlank(s: string)
  {
    forall k :: 0 <= k < |s| ==> IsWhitespace(s[k])
  }

  /** `\w` of a regular expression without the `u` flag. */
  predicate IsWordChar(c: char)
  {
    'a' <= c <= 'z' || 'A' <= c <= 'Z' || '0' <= c <= '9' || c == '_'
  }

  /** The class `[\w'-.]` of the word tokeniser. `'-.` is the range
      U+0027..U+002E, so besides `'`, `-` and `.` it admits `( ) * + ,`. */
  predicate IsTokenChar(c: char)
  {
    IsWordChar(c) || '\'' <= c <= '.'
  }

  /** A character of the class `[a-zA-Z0-9_'\- ]`. */
  predicate IsLinkChar(c: char)
  {
    IsWordChar(c) || c == '\'' || c == '-' || c == ' '
  }

  /** `s.match(/[^a-zA-Z0-9_'\- ]/g)` finds nothing. */
  predicate AllLinkChars(s: string)
    decreases |s|
  {
    s == [] || (AllLinkChars(s[..|s| - 1]) && IsLinkChar(s[|s| - 1]))
  }

  /** The filter accepts a string exactly when each of its characters is in
      the class. */
  lemma {:induction false} AllLinkCharsIff(s: string)
    ensures AllLinkChars(s) <==> forall k :: 0 <= k < |s| ==> IsLinkChar(s[k])
    decreases |s|
  {
    if s != [] {
      var init := s[..|s| - 1];
      AllLinkCharsIff(init);
      assert forall k :: 0 <= k < |init| ==> init[k] == s[k];
    }
  }

  /** The number of matches of `/[^\s]+/g`: maximal runs of non-whitespace
      characters, each counted at the character that starts it. */
  function RunCount(s: string): (r: nat)
    decreases |s|
  {
    if s == [] then 0
    else
      var starts := !IsWhitespace(s[|s| - 1]) && (|s| == 1 || IsWhitespace(s[|s| - 2]));
      RunCount(s[..|s| - 1]) + (if starts then 1 else 0)
  }

  /** `value.match(/[^\s]+/g)` is `null` exactly for a blank phrase. */
  lemma {:induction false} RunCountZeroIffBlank(s: string)
    ensures RunCount(s) == 0 <==> IsBlank(s)
    decreases |s|
  {
    if s != [] {
      var p := s[..|s| - 1];
      RunCountZeroIffBlank(p);
      assert forall k :: 0 <= k < |p| ==> p[k] == s[k];
      if !IsWhitespace(s[|s| - 1]) && |s| > 1 && !IsWhitespace(s[|s| - 2]) {
        assert !IsWhitespace(p[|p| - 1]);
      }
    }
  }

  /** `s.substring(a, b)`: both ends are clamped to the length and swapped
      when the first exceeds the second. */
  function Substring(s: string, a: nat, b: nat): (r: string)
    ensures a <= b <= |s| ==> r == s[a..b]
    ensures |r| <= |s|
  {
    var x := Min(a, |s|);
    var y := Min(b, |s|);
    if x <= y then s[x..y] else s[y..x]
  }

  /** `ws.join(" ")`. */
  function Join(ws: seq<string>): (r: string)
    decreases |ws|
  {
    if |ws| == 0 then ""
    else if |ws| == 1 then ws[0]
    else Join(ws[..|ws| - 1]) + " " + ws[|ws| - 1]
  }

  /** Counting the runs of two strings separately is counting those of
      their concatenation when no run straddles the seam. */
  lemma {:induction false} RunCountConcat(a: string, b: string)
    requires a == [] || b == [] || IsWhitespace(a[|a| - 1]) || IsWhitespace(b[0])
    ensures RunCount(a + b) == RunCount(a) + RunCount(b)
    decreases |b|
  {
    if b == [] {
      assert a + b == a;
    } else {
      var ab := a + b;
      var init := b[..|b| - 1];
      assert ab[..|ab| - 1] == a + init;
      assert ab[|ab| - 1] == b[|b| - 1];
      if |b| > 1 {
        assert ab[|ab| - 2] == b[|b| - 2];
        assert init[0] == b[0];
        RunCountConcat(a, init);
      } else {
        assert init == [];
        assert a + init == a;
        if a != [] {
          assert ab[|ab| - 2] == a[|a| - 1];
        }
      }
    }
  }

  /** A non-empty string without whitespace is a single run. */
  lemma {:induction false} RunCountOneRun(w: string)
    requires w != [] && forall k :: 0 <= k < |w| ==> !IsWhitespace(w[k])
    ensures RunCount(w) == 1
    decreases |w|
  {
    if |w| > 1 {
      RunCountOneRun(w[..|w| - 1]);
    }
  }

  /** Words without whitespace joined with single spaces count as that
      many words: a dictionary phrase built like a candidate expression
      has the window's length as its word count. */
  lemma {:induction false} RunCountJoin(ws: seq<string>)
    requires forall k :: 0 <= k < |ws| ==> ws[k] != [] && forall m :: 0 <= m < |ws[k]| ==> !IsWhitespace(ws[k][m])
    ensures RunCount(Join(ws)) == |ws|
    decreases |ws|
  {
    if |ws| == 1 {
      RunCountOneRun(ws[0]);
    } else if |ws| > 1 {
      var init := ws[..|ws| - 1];
      RunCountJoin(init);
      RunCountOneRun(ws[|ws| - 1]);
      RunCountConcat(Join(init), " ");
      RunCountConcat(Join(init) + " ", ws[|ws| - 1]);
      assert RunCount(" ") == 0;
    }
  }
}
