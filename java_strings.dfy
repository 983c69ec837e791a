/**
 * The pieces of java.lang.String, Apache Commons StringUtils and Guava CaseFormat
 * that the generator relies on, written out so that their edge cases are explicit.
 */
module JavaStrings {

  /** Whether `p` occurs in `s` starting at index `i`. */
  predicate OccursAt(s: string, p: string, i: nat)
  {
    i + |p| <= |s| && s[i..i + |p|] == p
  }

  /** Whether `p` occurs anywhere in `s` (String.contains). */
  predicate Occurs(s: string, p: string)
  {
    exists i: nat | i <= |s| :: OccursAt(s, p, i)
  }

  predicate StartsWith(s: string, p: string)
  {
    |p| <= |s| && s[..|p|] == p
  }

  predicate EndsWith(s: string, p: string)
  {
    |p| <= |s| && s[|s| - |p|..] == p
  }

  // ---------------------------------------------------------------------------
  // Splitting on one separator character
  // ---------------------------------------------------------------------------

  /** Every piece of `s` between occurrences of `c`, empty pieces included. */
  function SplitOn(s: string, c: char): (r: seq<string>)
    ensures |r| >= 1
    ensures forall i :: 0 <= i < |r| ==> c !in r[i]
  {
    if |s| == 0 then [""]
    else
      var rest := SplitOn(s[1..], c);
      if s[0] == c then [""] + rest else [[s[0]] + rest[0]] + rest[1..]
  }

  /** The pieces glued back together with `c` between neighbours. */
  function Join(ps: seq<string>, c: char): string
  {
    if |ps| == 0 then ""
    else if |ps| == 1 then ps[0]
    else ps[0] + [c] + Join(ps[1..], c)
  }

  lemma {:induction false} JoinSplitOn(s: string, c: char)
    ensures Join(SplitOn(s, c), c) == s
  {
    if |s| > 0 {
      var rest := SplitOn(s[1..], c);
      JoinSplitOn(s[1..], c);
      if s[0] == c {
        assert SplitOn(s, c) == [""] + rest;
        assert ([""] + rest)[1..] == rest;
      } else {
        var r := SplitOn(s, c);
        assert r == [[s[0]] + rest[0]] + rest[1..];
        if |rest| == 1 {
          assert Join(r, c) == [s[0]] + rest[0];
        } else {
          assert r[1..] == rest[1..];
          assert Join(rest, c) == rest[0] + [c] + Join(rest[1..], c);
          assert Join(r, c) == [s[0]] + rest[0] + [c] + Join(rest[1..], c);
        }
        assert s == [s[0]] + s[1..];
      }
    }
  }

  lemma {:induction false} SplitOnJoin(ps: seq<string>, c: char)
    requires |ps| >= 1
    requires forall i :: 0 <= i < |ps| ==> c !in ps[i]
    ensures SplitOn(Join(ps, c), c) == ps
  {
    if |ps| == 1 {
      SplitOnFree(ps[0], c);
    } else {
      var tail := ps[1..];
      SplitOnJoin(tail, c);
      SplitOnAppend(ps[0], Join(tail, c), c);
      assert ps == [ps[0]] + tail;
    }
  }

  /** A string without `c` is a single piece. */
  lemma {:induction false} SplitOnFree(s: string, c: char)
    requires c !in s
    ensures SplitOn(s, c) == [s]
  {
    if |s| > 0 {
      SplitOnFree(s[1..], c);
      assert s == [s[0]] + s[1..];
    }
  }

  /** Splitting `w + c + t`, where `w` holds no `c`, yields `w` followed by the pieces of `t`. */
  lemma {:induction false} SplitOnAppend(w: string, t: string, c: char)
    requires c !in w
    ensures SplitOn(w + [c] + t, c) == [w] + SplitOn(t, c)
  {
    if |w| == 0 {
      assert w + [c] + t == [c] + t;
      assert ([c] + t)[1..] == t;
    } else {
      SplitOnAppend(w[1..], t, c);
      var s := w + [c] + t;
      assert s[1..] == w[1..] + [c] + t;
      assert s[0] == w[0];
      assert [w[0]] + w[1..] == w;
    }
  }

  /** Drops the empty strings at the end of a list. */
  function DropTrailingEmpty(ps: seq<string>): (r: seq<string>)
    ensures |r| <= |ps| && r == ps[..|r|]
    ensures |r| > 0 ==> r[|r| - 1] != ""
    ensures forall i :: |r| <= i < |ps| ==> ps[i] == ""
  {
    if |ps| == 0 then []
    else if ps[|ps| - 1] == "" then DropTrailingEmpty(ps[..|ps| - 1])
    else ps
  }

  /**
   * String.split with a one-character separator and no limit: the pieces between
   * separators with the trailing empty ones removed, or the whole string when the
   * separator does not occur.
   */
  function JavaSplit(s: string, c: char): (r: seq<string>)
    ensures forall i :: 0 <= i < |r| ==> c !in r[i]
  {
    if c !in s then [s] else DropTrailingEmpty(SplitOn(s, c))
  }

  /** Removes every trailing occurrence of `c`. */
  function TrimTrailing(s: string, c: char): (r: string)
    ensures |r| <= |s| && r == s[..|r|]
    ensures |r| > 0 ==> r[|r| - 1] != c
    ensures forall i :: |r| <= i < |s| ==> s[i] == c
  {
    if |s| == 0 || s[|s| - 1] != c then s else TrimTrailing(s[..|s| - 1], c)
  }

  /** Splitting a string that ends in `c` yields an empty last piece and the pieces of the rest. */
  lemma {:induction false} SplitOnSnoc(s: string, c: char)
    ensures SplitOn(s + [c], c) == SplitOn(s, c) + [""]
  {
    if |s| == 0 {
      assert [c][1..] == "";
    } else {
      SplitOnSnoc(s[1..], c);
      assert (s + [c])[1..] == s[1..] + [c];
    }
  }

  /** The pieces of a string whose last piece is non-empty are those of the string with trailing separators removed. */
  lemma {:induction false} DropTrailingSplit(s: string, c: char)
    ensures DropTrailingEmpty(SplitOn(s, c)) == DropTrailingEmpty(SplitOn(TrimTrailing(s, c), c))
    decreases |s|
  {
    if |s| > 0 && s[|s| - 1] == c {
      var init := s[..|s| - 1];
      assert s == init + [c];
      SplitOnSnoc(init, c);
      var ps := SplitOn(init, c);
      assert (ps + [""])[..|ps + [""]| - 1] == ps;
      DropTrailingSplit(init, c);
    }
  }

  /** A string with no trailing separator has a non-empty last piece unless it is empty. */
  lemma {:induction false} SplitOnLast(s: string, c: char)
    requires |s| > 0 && s[|s| - 1] != c
    ensures var ps := SplitOn(s, c); ps[|ps| - 1] != ""
  {
    if |s| > 1 {
      SplitOnLast(s[1..], c);
    }
  }

  /**
   * What String.split leaves of a string that does not start with `c`: the pieces
   * of the string with its trailing separators trimmed, and the first one is the
   * text before the first separator.
   */
  lemma JavaSplitTrimmed(s: string, c: char)
    requires |s| > 0 && s[0] != c
    ensures var r := JavaSplit(s, c);
      && |r| >= 1
      && r == SplitOn(TrimTrailing(s, c), c)
      && r[|r| - 1] != ""
      && Join(r, c) == TrimTrailing(s, c)
  {
    if c !in s {
      JavaSplitFree(s, c);
    } else {
      JavaSplitSeparated(s, c);
    }
  }

  /** JavaSplitTrimmed when `c` does not occur: the whole string is the one piece. */
  lemma JavaSplitFree(s: string, c: char)
    requires |s| > 0 && c !in s
    ensures TrimTrailing(s, c) == s
    ensures JavaSplit(s, c) == [s] == SplitOn(s, c)
  {
    assert s[|s| - 1] in s;
    SplitOnFree(s, c);
  }

  /** JavaSplitTrimmed when `c` occurs: dropping the trailing empty pieces is splitting the trimmed string. */
  lemma JavaSplitSeparated(s: string, c: char)
    requires |s| > 0 && s[0] != c && c in s
    ensures var r := JavaSplit(s, c);
      && r == SplitOn(TrimTrailing(s, c), c)
      && r[|r| - 1] != ""
      && Join(r, c) == TrimTrailing(s, c)
  {
    var t := TrimTrailing(s, c);
    assert |t| > 0;
    SplitOnLast(t, c);
    var ps := SplitOn(t, c);
    assert DropTrailingEmpty(ps) == ps;
    DropTrailingSplit(s, c);
    JoinSplitOn(t, c);
  }

  /** The first piece of `w + c + t` is `w` when `w` holds no `c`. */
  lemma FirstPiece(w: string, t: string, c: char)
    requires c !in w
    ensures SplitOn(w + [c] + t, c)[0] == w
  {
    SplitOnAppend(w, t, c);
  }

  // ---------------------------------------------------------------------------
  // Blank strings (StringUtils.isBlank / Character.isWhitespace)
  // ---------------------------------------------------------------------------

  /** Character.isWhitespace: the Unicode space separators other than the no-break ones, and the listed controls. */
  predicate IsWhitespace(ch: char)
  {
    || ch == ' ' || ch == '\t' || ch == '\n' || ch == '\r'
    || ch == '\U{000B}' || ch == '\U{000C}'
    || ('\U{001C}' <= ch <= '\U{001F}')
    || ch == '\U{1680}'
    || ('\U{2000}' <= ch <= '\U{2006}') || ('\U{2008}' <= ch <= '\U{200A}')
    || ch == '\U{2028}' || ch == '\U{2029}' || ch == '\U{205F}' || ch == '\U{3000}'
  }

  /** StringUtils.isBlank on a non-null string: empty or only whitespace. */
  predicate IsBlank(s: string)
  {
    forall i :: 0 <= i < |s| ==> IsWhitespace(s[i])
  }

  /** A concatenation is blank exactly when both parts are. */
  lemma IsBlankAppend(s: string, t: string)
    ensures IsBlank(s + t) <==> IsBlank(s) && IsBlank(t)
  {
    if IsBlank(s + t) {
      forall i | 0 <= i < |s| ensures IsWhitespace(s[i]) {
        assert s[i] == (s + t)[i];
      }
      forall i | 0 <= i < |t| ensures IsWhitespace(t[i]) {
        assert t[i] == (s + t)[|s| + i];
      }
    }
    if IsBlank(s) && IsBlank(t) {
      forall i | 0 <= i < |s + t| ensures IsWhitespace((s + t)[i]) {
        if i >= |s| {
          assert (s + t)[i] == t[i - |s|];
        }
      }
    }
  }

  /**
   * Unlike Unicode's White_Space property, Character.isWhitespace excludes the
   * no-break spaces U+00A0, U+2007 and U+202F, so a string holding one of them
   * is never blank, while any string of ASCII blanks is.
   */
  lemma NoBreakSpaceNotBlank(s: string)
    ensures '\U{00A0}' in s || '\U{2007}' in s || '\U{202F}' in s ==> !IsBlank(s)
    ensures (forall i :: 0 <= i < |s| ==> s[i] in " \t\n\r") ==> IsBlank(s)
  {
    if '\U{00A0}' in s || '\U{2007}' in s || '\U{202F}' in s {
      var i :| 0 <= i < |s| && s[i] in {'\U{00A0}', '\U{2007}', '\U{202F}'};
      assert !IsWhitespace(s[i]);
    }
  }

  // ---------------------------------------------------------------------------
  // Replacement (String.replace with an empty replacement, String.replaceAll of one character)
  // ---------------------------------------------------------------------------

  /**
   * String.replace(p, ""): scanning left to right, every non-overlapping
   * occurrence of `p` is deleted in one pass.
   */
  function RemoveAll(s: string, p: string): (r: string)
    requires |p| > 0
    ensures |r| <= |s|
    ensures forall ch :: ch in r ==> ch in s
    decreases |s|
  {
    if |s| < |p| then s
    else if s[..|p|] == p then RemoveAll(s[|p|..], p)
    else [s[0]] + RemoveAll(s[1..], p)
  }

  /** Removal leaves the string unchanged exactly when the pattern does not occur in it. */
  lemma {:induction false} RemoveAllUnchanged(s: string, p: string)
    requires |p| > 0
    ensures RemoveAll(s, p) == s <==> !Occurs(s, p)
    decreases |s|
  {
    if |s| < |p| {
      assert forall i: nat :: !OccursAt(s, p, i);
    } else if s[..|p|] == p {
      assert OccursAt(s, p, 0);
      assert |RemoveAll(s[|p|..], p)| <= |s| - |p|;
    } else {
      RemoveAllUnchanged(s[1..], p);
      OccursTail(s, p);
      var r := RemoveAll(s[1..], p);
      assert RemoveAll(s, p) == [s[0]] + r;
      assert s == [s[0]] + s[1..];
    }
  }

  /** The pattern occurs in a non-empty string exactly when it starts it or occurs in its tail. */
  lemma OccursTail(s: string, p: string)
    requires |s| > 0
    ensures Occurs(s, p) <==> OccursAt(s, p, 0) || Occurs(s[1..], p)
  {
    if Occurs(s, p) && !OccursAt(s, p, 0) {
      var i: nat :| i <= |s| && OccursAt(s, p, i);
      ShiftedOccurrence(s, p, i - 1);
    }
    if Occurs(s[1..], p) {
      var i: nat :| i <= |s[1..]| && OccursAt(s[1..], p, i);
      ShiftedOccurrence(s, p, i);
    }
  }

  /**
   * Deleting a pattern that ends a string and occurs nowhere earlier (not even
   * overlapping the end) removes exactly that suffix.
   */
  lemma {:induction false} RemoveAllSuffix(x: string, p: string)
    requires |p| > 0
    requires forall i: nat :: i < |x| ==> !OccursAt(x + p, p, i)
    ensures RemoveAll(x + p, p) == x
    decreases |x|
  {
    if |x| == 0 {
      assert x + p == p;
      assert p[|p|..] == "";
    } else {
      var s := x + p;
      var t := x[1..];
      assert !OccursAt(s, p, 0);
      assert s[1..] == t + p;
      forall i: nat | i < |t| ensures !OccursAt(t + p, p, i) {
        ShiftedOccurrence(s, p, i);
      }
      RemoveAllSuffix(t, p);
      assert RemoveAll(s, p) == [s[0]] + RemoveAll(t + p, p);
      assert x == [x[0]] + t;
    }
  }

  lemma ShiftedOccurrence(s: string, p: string, i: nat)
    requires |s| > 0
    ensures OccursAt(s[1..], p, i) <==> OccursAt(s, p, i + 1)
  {
    if i + 1 + |p| <= |s| {
      assert s[1..][i..i + |p|] == s[i + 1..i + 1 + |p|];
    }
  }

  /** String.replaceAll of a one-character literal by another. */
  function ReplaceChar(s: string, from: char, to: char): (r: string)
    ensures |r| == |s|
    ensures forall i :: 0 <= i < |s| ==> r[i] == (if s[i] == from then to else s[i])
  {
    seq(|s|, i requires 0 <= i < |s| => if s[i] == from then to else s[i])
  }

  /** String.lastIndexOf of a character: the last index holding `c`, or -1. */
  function LastIndexOf(s: string, c: char): (r: int)
    ensures -1 <= r < |s|
    ensures r >= 0 ==> s[r] == c
    ensures forall i :: r < i < |s| ==> s[i] != c
  {
    if |s| == 0 then -1
    else if s[|s| - 1] == c then |s| - 1
    else LastIndexOf(s[..|s| - 1], c)
  }

  // ---------------------------------------------------------------------------
  // ASCII case conversion (String.toUpperCase on ASCII, Guava Ascii, CaseFormat)
  // ---------------------------------------------------------------------------

  function UpperChar(ch: char): char
  {
    if 'a' <= ch <= 'z' then (ch as int - 32) as char else ch
  }

  function LowerChar(ch: char): char
  {
    if 'A' <= ch <= 'Z' then (ch as int + 32) as char else ch
  }

  function ToUpper(s: string): (r: string)
    ensures |r| == |s|
  {
    seq(|s|, i requires 0 <= i < |s| => UpperChar(s[i]))
  }

  function ToLower(s: string): (r: string)
    ensures |r| == |s|
  {
    seq(|s|, i requires 0 <= i < |s| => LowerChar(s[i]))
  }

  /** One word in upper-camel form: first character upper-cased, the rest lower-cased. */
  function Capitalize(w: string): (r: string)
    ensures |r| == |w|
  {
    if |w| == 0 then w else [UpperChar(w[0])] + ToLower(w[1..])
  }

  function ConcatAll(ws: seq<string>): string
  {
    if |ws| == 0 then "" else ws[0] + ConcatAll(ws[1..])
  }

  function CapitalizeAll(ws: seq<string>): (r: seq<string>)
    ensures |r| == |ws|
    ensures forall i :: 0 <= i < |ws| ==> r[i] == Capitalize(ws[i])
  {
    seq(|ws|, i requires 0 <= i < |ws| => Capitalize(ws[i]))
  }

  /**
   * CaseFormat.UPPER_UNDERSCORE.to(UPPER_CAMEL, s): every `_`-separated word,
   * empty ones included, capitalized and glued together.
   */
  function UpperUnderscoreToUpperCamel(s: string): (r: string)
    ensures '_' !in s ==> r == Capitalize(s)
  {
    var r := ConcatAll(CapitalizeAll(SplitOn(s, '_')));
    assert '_' !in s ==> r == Capitalize(s) by {
      if '_' !in s {
        SplitOnFree(s, '_');
        assert CapitalizeAll([s]) == [Capitalize(s)];
        assert ConcatAll([Capitalize(s)]) == Capitalize(s) + "";
      }
    }
    r
  }
}
