/**
 * The pieces of Python's str behaviour the model needs. The analyzer itself
 * calls `startswith` (line 37) and `split()[0]` (line 69). Splitting on one
 * separator and `strip()` are not called by either script: they describe
 * how inet_pton reads an address (as fields between ':' and '.') and how
 * int() drops surrounding white space.
 */
module Text {
  import opened Wrappers

  /** `s.startswith(p)`. */
  predicate StartsWith(s: string, p: string) {
    |p| <= |s| && s[..|p|] == p
  }

  /** `sep.join(parts)` for a one-character separator. */
  function Join(parts: seq<string>, sep: char): string
    requires |parts| > 0
  {
    if |parts| == 1 then parts[0] else parts[0] + [sep] + Join(parts[1..], sep)
  }

  /** `s.split(sep)` for a one-character separator: the pieces between its occurrences. */
  function Split(s: string, sep: char): (parts: seq<string>)
    ensures |parts| > 0
    ensures forall k :: 0 <= k < |parts| ==> sep !in parts[k]
    ensures Join(parts, sep) == s
    decreases |s|
  {
    if s == [] then [""]
    else
      var rest := Split(s[1..], sep);
      if s[0] == sep then
        assert ([""] + rest)[1..] == rest;
        [""] + rest
      else
        var parts := [[s[0]] + rest[0]] + rest[1..];
        assert parts[1..] == rest[1..];
        assert s == [s[0]] + s[1..];
        parts
  }

  /** Splitting joined pieces that hold no separator gives the pieces back. */
  lemma {:induction false} SplitJoin(parts: seq<string>, sep: char)
    requires |parts| > 0 && forall k :: 0 <= k < |parts| ==> sep !in parts[k]
    ensures Split(Join(parts, sep), sep) == parts
    decreases |parts|
  {
    if |parts| == 1 {
      SplitNoSeparator(parts[0], sep);
    } else {
      SplitJoin(parts[1..], sep);
      SplitAt(parts[0], Join(parts[1..], sep), sep);
      assert [parts[0]] + parts[1..] == parts;
    }
  }

  /** A string without the separator splits into itself. */
  lemma {:induction false} SplitNoSeparator(s: string, sep: char)
    requires sep !in s
    ensures Split(s, sep) == [s]
    decreases |s|
  {
    if s != [] {
      SplitNoSeparator(s[1..], sep);
      assert [s[0]] + s[1..] == s;
    }
  }

  /** The first separator cuts off the first piece. */
  lemma {:induction false} SplitAt(a: string, b: string, sep: char)
    requires sep !in a
    ensures Split(a + [sep] + b, sep) == [a] + Split(b, sep)
    decreases |a|
  {
    var s := a + [sep] + b;
    if a == [] {
      assert s[1..] == b;
    } else {
      assert s[1..] == a[1..] + [sep] + b;
      SplitAt(a[1..], b, sep);
      assert [a[0]] + a[1..] == a;
    }
  }

  /** The characters str.isspace() accepts: Unicode white space and the separators U+001C..U+001F. */
  const WHITESPACE: set<char> := {'\U{20}', '\U{9}', '\U{A}', '\U{B}', '\U{C}', '\U{D}', '\U{1C}', '\U{1D}', '\U{1E}', '\U{1F}', '\U{85}', '\U{A0}', '\U{1680}', '\U{2000}', '\U{2001}', '\U{2002}', '\U{2003}', '\U{2004}', '\U{2005}', '\U{2006}', '\U{2007}', '\U{2008}', '\U{2009}', '\U{200A}', '\U{2028}', '\U{2029}', '\U{202F}', '\U{205F}', '\U{3000}'}

  /** Python's str.isspace() for one character. */
  predicate IsSpace(c: char) {
    c in WHITESPACE
  }

  predicate NoSpace(s: string) {
    forall i :: 0 <= i < |s| ==> !IsSpace(s[i])
  }

  /**
   * The characters int() skips around a number. For ASCII text CPython strips
   * only its own `Py_ISSPACE` set (tab, line feed, vertical tab, form feed,
   * carriage return, space); other Unicode white space is turned into a space
   * first. The separators U+001C..U+001F, which str.isspace() accepts, are
   * therefore not skipped.
   */
  const INT_WHITESPACE: set<char> := {'\U{20}', '\U{9}', '\U{A}', '\U{B}', '\U{C}', '\U{D}', '\U{85}', '\U{A0}', '\U{1680}', '\U{2000}', '\U{2001}', '\U{2002}', '\U{2003}', '\U{2004}', '\U{2005}', '\U{2006}', '\U{2007}', '\U{2008}', '\U{2009}', '\U{200A}', '\U{2028}', '\U{2029}', '\U{202F}', '\U{205F}', '\U{3000}'}

  /** int()'s white space is str.isspace()'s without the four separators. */
  lemma IntWhitespaceIsSpaceLessSeparators()
    ensures INT_WHITESPACE == WHITESPACE - {'\U{1C}', '\U{1D}', '\U{1E}', '\U{1F}'}
  {
  }

  /** `s.lstrip()` over the white-space set `ws`: `s` without its leading characters from `ws`. */
  function StripLeft(s: string, ws: set<char>): (t: string)
    ensures |t| <= |s|
    ensures |t| > 0 ==> t[0] !in ws
  {
    if s != [] && s[0] in ws then StripLeft(s[1..], ws) else s
  }

  /** lstrip() keeps a suffix of `s` and removes only characters from `ws`. */
  lemma {:induction false} StripLeftRemoved(s: string, ws: set<char>)
    ensures var t := StripLeft(s, ws);
      t == s[|s| - |t|..] && forall i :: 0 <= i < |s| - |t| ==> s[i] in ws
  {
    if s != [] && s[0] in ws {
      StripLeftRemoved(s[1..], ws);
      assert forall i :: 1 <= i < |s| ==> s[i] == s[1..][i - 1];
    }
  }

  /** `s.rstrip()` over the white-space set `ws`: `s` without its trailing characters from `ws`. */
  function StripRight(s: string, ws: set<char>): (t: string)
    ensures |t| <= |s|
    ensures |t| > 0 ==> t[|t| - 1] !in ws
  {
    if s != [] && s[|s| - 1] in ws then StripRight(s[..|s| - 1], ws) else s
  }

  /** rstrip() keeps a prefix of `s` and removes only characters from `ws`. */
  lemma {:induction false} StripRightRemoved(s: string, ws: set<char>)
    ensures var t := StripRight(s, ws);
      t == s[..|t|] && forall i :: |t| <= i < |s| ==> s[i] in ws
  {
    if s != [] && s[|s| - 1] in ws {
      StripRightRemoved(s[..|s| - 1], ws);
    }
  }

  /** `s.strip()` over the white-space set `ws`: `s` without its leading and trailing characters from `ws`. */
  function Strip(s: string, ws: set<char>): (t: string)
    ensures |t| <= |s|
  {
    StripRight(StripLeft(s, ws), ws)
  }

  /**
   * strip() keeps one contiguous piece of `s`, starting at offset `a`; every
   * character it removes on either side is in `ws`, and what it keeps
   * neither begins nor ends with a character from `ws`.
   */
  lemma StripTrimmed(s: string, ws: set<char>)
    ensures var t := Strip(s, ws); var a := |s| - |StripLeft(s, ws)|;
      && a + |t| <= |s| && t == s[a..a + |t|]
      && (forall i :: 0 <= i < a ==> s[i] in ws)
      && (forall i :: a + |t| <= i < |s| ==> s[i] in ws)
      && (|t| > 0 ==> t[0] !in ws && t[|t| - 1] !in ws)
  {
    var u := StripLeft(s, ws);
    var t := StripRight(u, ws);
    var a := |s| - |u|;
    StripLeftRemoved(s, ws);
    StripRightRemoved(u, ws);
    assert u == s[a..];
    assert t == u[..|t|];
    assert t == s[a..a + |t|];
    forall i | a + |t| <= i < |s|
      ensures s[i] in ws
    {
      assert s[i] == u[i - a];
    }
  }

  /** A string that neither begins nor ends with a character from `ws` is its own strip. */
  lemma StripUnpadded(s: string, ws: set<char>)
    requires |s| > 0 && s[0] !in ws && s[|s| - 1] !in ws
    ensures Strip(s, ws) == s
  {
    assert StripLeft(s, ws) == s;
    assert StripRight(s, ws) == s;
  }

  /** One character from `ws` on each side of an unpadded string is all strip() removes. */
  lemma StripPadded(s: string, c: char, d: char, ws: set<char>)
    requires |s| > 0 && s[0] !in ws && s[|s| - 1] !in ws
    requires c in ws && d in ws
    ensures Strip([c] + s + [d], ws) == s
  {
    var x := [c] + s + [d];
    assert x[1..] == s + [d];
    assert StripLeft(s + [d], ws) == s + [d];
    assert (s + [d])[..|s|] == s;
    assert StripRight(s + [d], ws) == StripRight(s, ws);
    StripUnpadded(s, ws);
  }

  /** The longest prefix of `s` that holds no white space. */
  function TakeWord(s: string): (w: string)
    ensures |w| <= |s| && w == s[..|w|] && NoSpace(w)
    ensures |w| < |s| ==> IsSpace(s[|w|])
  {
    if s == [] || IsSpace(s[0]) then [] else [s[0]] + TakeWord(s[1..])
  }

  /**
   * `s.split()[0]`: the first maximal run of non-white-space characters.
   * None where Python raises IndexError, that is when `s` is blank.
   */
  function FirstWord(s: string): (w: Option<string>)
    ensures w.Some? ==> |w.value| > 0 && NoSpace(w.value)
    ensures w.None? <==> StripLeft(s, WHITESPACE) == []
    ensures w.Some? ==> w.value == TakeWord(StripLeft(s, WHITESPACE))
  {
    if s == [] then None
    else if IsSpace(s[0]) then FirstWord(s[1..])
    else Some(TakeWord(s))
  }

  /** There is no first word exactly when the text is blank. */
  lemma {:induction false} FirstWordBlank(s: string)
    ensures FirstWord(s).None? <==> forall i :: 0 <= i < |s| ==> IsSpace(s[i])
  {
    if s != [] {
      FirstWordBlank(s[1..]);
      assert forall i :: 1 <= i < |s| ==> s[i] == s[1..][i - 1];
    }
  }

  /** A word followed by white space is the first word of the phrase. */
  lemma {:induction false} FirstWordOfPhrase(w: string, sp: char, rest: string)
    requires |w| > 0 && NoSpace(w) && IsSpace(sp)
    ensures FirstWord(w + [sp] + rest) == Some(w)
  {
    var s := w + [sp] + rest;
    assert s[0] == w[0];
    TakeWordOf(w, [sp] + rest);
    assert s == w + ([sp] + rest);
  }

  /** The longest space-free prefix of `w + t`, with `t` starting with a space, is `w`. */
  lemma {:induction false} TakeWordOf(w: string, t: string)
    requires NoSpace(w) && |t| > 0 && IsSpace(t[0])
    ensures TakeWord(w + t) == w
    decreases |w|
  {
    if w == [] {
      assert w + t == t;
    } else {
      assert (w + t)[1..] == w[1..] + t;
      TakeWordOf(w[1..], t);
      assert [w[0]] + w[1..] == w;
    }
  }

  /** The longest prefix of `s` without the character `c` (a regular-expression class `[^c]*`). */
  function TakeUntil(s: string, c: char): (t: string)
    ensures |t| <= |s| && c !in t
  {
    if s == [] || s[0] == c then [] else [s[0]] + TakeUntil(s[1..], c)
  }

  /** TakeUntil stops at the first `c`, or at the end. */
  lemma {:induction false} TakeUntilPrefix(s: string, c: char)
    ensures var t := TakeUntil(s, c); t == s[..|t|] && (|t| < |s| ==> s[|t|] == c)
  {
    if s != [] && s[0] != c {
      TakeUntilPrefix(s[1..], c);
    }
  }

  /** What TakeUntil finds when the character first occurs right after `t`. */
  lemma {:induction false} TakeUntilOf(t: string, c: char, rest: string)
    requires c !in t
    ensures TakeUntil(t + [c] + rest, c) == t
    decreases |t|
  {
    if t == [] {
      assert (t + [c] + rest)[0] == c;
    } else {
      assert (t + [c] + rest)[1..] == t[1..] + [c] + rest;
      TakeUntilOf(t[1..], c, rest);
      assert [t[0]] + t[1..] == t;
    }
  }
}
