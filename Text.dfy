/** Python's `unicode.strip()` with no argument: whitespace removed from both ends. */
module Text {
  /**
   * The characters Python 2's `unicode.isspace` treats as whitespace (its Unicode 5.2
   * table, which still has U+180E).
   */
  predicate IsSpace(c: char) {
    c == ' ' || '\t' <= c <= '\r' || '\U{1c}' <= c <= '\U{1f}' || c == '\U{85}' || c == '\U{a0}'
    || c == '\U{1680}' || c == '\U{180e}' || '\U{2000}' <= c <= '\U{200a}' || c == '\U{2028}' || c == '\U{2029}'
    || c == '\U{202f}' || c == '\U{205f}' || c == '\U{3000}'
  }

  /** Neither end of `s` is whitespace. */
  predicate Stripped(s: string) {
    s != [] ==> !IsSpace(s[0]) && !IsSpace(s[|s| - 1])
  }

  /** `lstrip()`: the longest suffix of `s` that does not start with whitespace. */
  function StripLeft(s: string): (r: string)
    ensures |r| <= |s|
    ensures r != [] ==> !IsSpace(r[0])
    decreases |s|
  {
    if s != [] && IsSpace(s[0]) then StripLeft(s[1..]) else s
  }

  /** `rstrip()`: the longest prefix of `s` that does not end with whitespace. */
  function StripRight(s: string): (r: string)
    ensures |r| <= |s|
    ensures r != [] ==> !IsSpace(r[|r| - 1])
    decreases |s|
  {
    if s != [] && IsSpace(s[|s| - 1]) then StripRight(s[..|s| - 1]) else s
  }

  function Strip(s: string): (r: string)
    ensures Stripped(r)
  {
    StripRightRemovesTrailingSpace(StripLeft(s));
    StripRight(StripLeft(s))
  }

  /** `lstrip()` removes a run of whitespace from the front and keeps the rest. */
  lemma {:induction false} StripLeftRemovesLeadingSpace(s: string)
    ensures StripLeft(s) == s[|s| - |StripLeft(s)|..]
    ensures forall i :: 0 <= i < |s| - |StripLeft(s)| ==> IsSpace(s[i])
    decreases |s|
  {
    if s != [] && IsSpace(s[0]) {
      StripLeftRemovesLeadingSpace(s[1..]);
    }
  }

  /** `rstrip()` removes a run of whitespace from the back and keeps the rest. */
  lemma {:induction false} StripRightRemovesTrailingSpace(s: string)
    ensures StripRight(s) == s[..|StripRight(s)|]
    ensures forall i :: |StripRight(s)| <= i < |s| ==> IsSpace(s[i])
    decreases |s|
  {
    if s != [] && IsSpace(s[|s| - 1]) {
      StripRightRemovesTrailingSpace(s[..|s| - 1]);
    }
  }

  /** Stripping leaves a string whose ends are not whitespace as it is, so it is idempotent. */
  lemma StripStripped(s: string)
    requires Stripped(s)
    ensures StripLeft(s) == s && StripRight(s) == s && Strip(s) == s
  {
  }

  lemma StripIdempotent(s: string)
    ensures Strip(Strip(s)) == Strip(s)
  {
    StripStripped(Strip(s));
  }

  /** Everything in `s` is whitespace exactly when `lstrip()` leaves nothing. */
  lemma StripLeftEmpty(s: string)
    ensures StripLeft(s) == [] <==> forall i :: 0 <= i < |s| ==> IsSpace(s[i])
    ensures StripLeft(s) == [] <==> Strip(s) == []
  {
    StripLeftRemovesLeadingSpace(s);
    if StripLeft(s) != [] {
      assert s[|s| - |StripLeft(s)|] == StripLeft(s)[0];
    }
  }

  /** Left-stripping a concatenation: the leading whitespace of `s`, then of `t` if all of `s` was whitespace. */
  lemma {:induction false} StripLeftAppend(s: string, t: string)
    ensures StripLeft(s + t) == if StripLeft(s) == [] then StripLeft(t) else StripLeft(s) + t
    decreases |s|
  {
    if s != [] {
      assert (s + t)[0] == s[0];
      if IsSpace(s[0]) {
        assert (s + t)[1..] == s[1..] + t;
        StripLeftAppend(s[1..], t);
      }
    } else {
      assert s + t == t;
    }
  }

  /** Right-stripping a concatenation whose second part does not end with whitespace changes nothing. */
  lemma StripRightKeep(s: string, t: string)
    requires t != [] && !IsSpace(t[|t| - 1])
    ensures StripRight(s + t) == s + t
  {
    assert (s + t)[|s + t| - 1] == t[|t| - 1];
  }

  /** A trailing space added to `s` disappears again when stripping. */
  lemma StripTrailingSpace(s: string)
    ensures Strip(s + " ") == Strip(s)
  {
    StripLeftAppend(s, " ");
    StripLeftEmpty(s);
    if StripLeft(s) != [] {
      var y := StripLeft(s);
      assert (y + " ")[..|y + " "| - 1] == y;
    }
  }

  lemma StripLeftAfterSpace(p: string)
    requires p != [] && !IsSpace(p[0])
    ensures StripLeft(" " + p) == p
  {
    assert (" " + p)[1..] == p;
  }

  lemma StripJoinBlank(s: string, p: string)
    requires p != [] && Stripped(p) && StripLeft(s) == []
    ensures Strip(s + " " + p) == p
  {
    var sp := " " + p;
    assert s + " " + p == s + sp;
    StripLeftAppend(s, sp);
    StripLeftAfterSpace(p);
    assert StripLeft(s + sp) == p;
    StripStripped(p);
    assert Strip(s + sp) == StripRight(p);
  }

  lemma StripJoinNonBlank(s: string, p: string)
    requires p != [] && Stripped(p) && StripLeft(s) != []
    ensures Strip(s + " " + p) == StripLeft(s) + " " + p
  {
    var sp := " " + p;
    assert s + " " + p == s + sp;
    StripLeftAppend(s, sp);
    var left := StripLeft(s);
    assert left + sp == (left + " ") + p;
    StripRightKeep(left + " ", p);
  }

  /**
   * Stripping `s + " " + p` when `p` is non-empty and already stripped: `p` alone if
   * `s` is blank, otherwise `s` without its leading whitespace, one space and `p`.
   */
  lemma StripJoin(s: string, p: string)
    requires p != [] && Stripped(p)
    ensures Strip(s + " " + p) == if Strip(s) == [] then p else StripLeft(s) + " " + p
  {
    StripLeftEmpty(s);
    if StripLeft(s) == [] {
      StripJoinBlank(s, p);
    } else {
      StripJoinNonBlank(s, p);
    }
  }
}
