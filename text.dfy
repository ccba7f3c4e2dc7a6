/** Python's `str.strip()` with no argument: drop whitespace from both ends. */
module Text {

  /** The characters for which Python 3's `str.isspace()` holds (Unicode 6.3 and
      later): the ASCII controls TAB..CR and FS..US, SPACE, NEL, NO-BREAK SPACE
      and the Unicode space separators. */
  predicate IsSpace(c: char)
  {
    || ('\t' <= c <= '\r')
    || ('\U{1C}' <= c <= '\U{1F}')
    || c == ' '
    || c == '\U{85}'
    || c == '\U{A0}'
    || c == '\U{1680}'
    || ('\U{2000}' <= c <= '\U{200A}')
    || c == '\U{2028}'
    || c == '\U{2029}'
    || c == '\U{202F}'
    || c == '\U{205F}'
    || c == '\U{3000}'
  }

  predicate AllSpace(s: string)
  {
    forall i :: 0 <= i < |s| ==> IsSpace(s[i])
  }

  /** Neither end of s is whitespace (the empty string included). */
  predicate Trimmed(s: string)
  {
    s == [] || (!IsSpace(s[0]) && !IsSpace(s[|s| - 1]))
  }

  function StripLeft(s: string): string
  {
    if s != [] && IsSpace(s[0]) then StripLeft(s[1..]) else s
  }

  function StripRight(s: string): string
  {
    if s != [] && IsSpace(s[|s| - 1]) then StripRight(s[..|s| - 1]) else s
  }

  /** StripLeft drops exactly the longest whitespace prefix. */
  lemma {:induction false} StripLeftSpec(s: string)
    ensures var r := StripLeft(s);
            && |r| <= |s| && r == s[|s| - |r|..]
            && AllSpace(s[..|s| - |r|])
            && (r == [] || !IsSpace(r[0]))
  {
    if s != [] && IsSpace(s[0]) {
      StripLeftSpec(s[1..]);
      var r := StripLeft(s);
      assert s[..|s| - |r|] == [s[0]] + s[1..][..|s| - 1 - |r|];
    }
  }

  /** StripRight drops exactly the longest whitespace suffix. */
  lemma {:induction false} StripRightSpec(s: string)
    ensures var r := StripRight(s);
            && |r| <= |s| && r == s[..|r|]
            && AllSpace(s[|r|..])
            && (r == [] || !IsSpace(r[|r| - 1]))
  {
    if s != [] && IsSpace(s[|s| - 1]) {
      var front := s[..|s| - 1];
      StripRightSpec(front);
      var r := StripRight(s);
      assert s[|r|..] == front[|r|..] + [s[|s| - 1]];
    }
  }

  /** s with its longest whitespace prefix and suffix removed. */
  function Strip(s: string): (r: string)
  {
    StripRight(StripLeft(s))
  }

  /** Strip removes only whitespace, only at the ends, and leaves neither end
      as whitespace. */
  lemma StripIsInfix(s: string)
    ensures Trimmed(Strip(s))
    ensures exists i, j ::
              0 <= i <= j <= |s| && Strip(s) == s[i..j] && AllSpace(s[..i]) && AllSpace(s[j..])
  {
    var l := StripLeft(s);
    var r := StripRight(l);
    StripLeftSpec(s);
    StripRightSpec(l);
    var i := |s| - |l|;
    var j := i + |r|;
    assert r == s[i..j];
    assert s[j..] == l[|r|..];
    if r != [] {
      assert r[0] == l[0];
    }
  }

  /** A string with no whitespace at either end is left as it is. */
  lemma StripTrimmed(s: string)
    requires Trimmed(s)
    ensures Strip(s) == s
  {
  }

  lemma StripIdempotent(s: string)
    ensures Strip(Strip(s)) == Strip(s)
  {
    StripIsInfix(s);
    StripTrimmed(Strip(s));
  }

  /** The unmatched case of the merge: `f"{p} ".strip()` gives back p. */
  lemma StripTrailingBlank(p: string)
    requires Trimmed(p)
    ensures Strip(p + " ") == p
  {
    var s := p + " ";
    assert StripRight(s) == StripRight(p) by {
      assert s[..|s| - 1] == p;
    }
    if p == [] {
      assert StripLeft(s) == StripLeft(" ");
      assert StripLeft(" ") == StripLeft(" "[1..]);
    } else {
      assert StripLeft(s) == s;
    }
  }

  /** The matched case of the merge: `f"{p} {n}".strip()` is the two joined by
      one blank when neither has whitespace at its ends and both are non-empty. */
  lemma StripJoin(p: string, n: string)
    requires p != [] && n != []
    requires Trimmed(p) && Trimmed(n)
    ensures Strip(p + " " + n) == p + " " + n
  {
    var s := p + " " + n;
    assert s[0] == p[0];
    assert s[|s| - 1] == n[|n| - 1];
    StripTrimmed(s);
  }

  /** A trimmed p with one blank on each side strips back to p. This is the
      merge of a private value `" " + p` with the empty network address:
      `f"{' ' + p} "`. */
  lemma StripPadded(p: string)
    requires p != [] && Trimmed(p)
    ensures Strip(" " + p + " ") == p
  {
    var s := " " + p + " ";
    assert s[1..] == p + " ";
    assert StripLeft(s) == StripLeft(p + " ");
    assert (p + " ")[0] == p[0];
    assert StripLeft(p + " ") == p + " ";
    StripTrailingBlank(p);
  }
}
