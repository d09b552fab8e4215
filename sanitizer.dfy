/** The filename sanitizer of `process_xml` (streamlit_app.py, line 26):
    keep the characters of the title that are alphanumeric, a space, `-` or
    `_`, then strip surrounding whitespace.

    Python's `str.isalnum` is Unicode-aware; the model takes it as a
    parameter `isAlnum`, so every result below holds whatever character
    classification the interpreter uses. */
module Sanitizer {
  import opened Seqs

  /** Python's `str.isspace` on one character: the characters `str.strip()`
      removes when called without an argument. */
  predicate IsSpace(c: char) {
    var n := c as int;
    (0x09 <= n <= 0x0D) || (0x1C <= n <= 0x20) || n == 0x85 || n == 0xA0 ||
    n == 0x1680 || (0x2000 <= n <= 0x200A) || n == 0x2028 || n == 0x2029 ||
    n == 0x202F || n == 0x205F || n == 0x3000
  }

  /** The per-character test of the generator expression. */
  predicate Keep(isAlnum: char -> bool, c: char) {
    isAlnum(c) || c == ' ' || c == '-' || c == '_'
  }

  /** `Keep` as a value, to hand to `Filter`. */
  function Kept(isAlnum: char -> bool): char -> bool {
    c => Keep(isAlnum, c)
  }

  /** Python's `isalnum` restricted to ASCII, where it agrees with this
      definition; used only for the concrete scenarios. */
  predicate AsciiAlnum(c: char) {
    ('a' <= c <= 'z') || ('A' <= c <= 'Z') || ('0' <= c <= '9')
  }

  /** Drops leading whitespace: the result is the longest suffix of `s` that
      does not start with whitespace. */
  function TrimLeft(s: string): (r: string)
    ensures |r| <= |s| && r == s[|s| - |r|..]
    ensures forall i :: 0 <= i < |s| - |r| ==> IsSpace(s[i])
    ensures r == [] || !IsSpace(r[0])
  {
    if s != [] && IsSpace(s[0]) then TrimLeft(s[1..]) else s
  }

  /** Drops trailing whitespace: the result is the longest prefix of `s` that
      does not end with whitespace. */
  function TrimRight(s: string): (r: string)
    ensures |r| <= |s| && r == s[..|r|]
    ensures forall i :: |r| <= i < |s| ==> IsSpace(s[i])
    ensures r == [] || !IsSpace(r[|r| - 1])
  {
    if s != [] && IsSpace(s[|s| - 1]) then TrimRight(s[..|s| - 1]) else s
  }

  /** Python's `str.strip()`: neither end of the result is whitespace, and a
      string whose ends are not whitespace is left as it is. */
  function Strip(s: string): (r: string)
    ensures r == [] || (!IsSpace(r[0]) && !IsSpace(r[|r| - 1]))
    ensures (s == [] || (!IsSpace(s[0]) && !IsSpace(s[|s| - 1]))) ==> r == s
  {
    TrimRight(TrimLeft(s))
  }

  /** What `Strip` removes is whitespace at the two ends and nothing else:
      the result is the slice `s[i..j]` and everything outside it is
      whitespace. */
  lemma StripSlice(s: string) returns (i: nat, j: nat)
    ensures i <= j <= |s| && Strip(s) == s[i..j]
    ensures forall k :: 0 <= k < i ==> IsSpace(s[k])
    ensures forall k :: j <= k < |s| ==> IsSpace(s[k])
  {
    var t := TrimLeft(s);
    i := |s| - |t|;
    j := i + |TrimRight(t)|;
    assert Strip(s) == t[..j - i] == s[i..j];
  }

  /** Every character of `Strip(s)` is a character of `s` that passes
      whatever test all of `s` passes. */
  lemma StripKeeps(keep: char -> bool, s: string)
    requires forall k :: 0 <= k < |s| ==> keep(s[k])
    ensures forall k :: 0 <= k < |Strip(s)| ==> keep(Strip(s)[k])
  {
    var i, j := StripSlice(s);
    forall k | 0 <= k < |Strip(s)|
      ensures keep(Strip(s)[k])
    {
      assert Strip(s)[k] == s[i + k];
    }
  }

  /** Stripping a subsequence of `title` gives a subsequence of `title`. */
  lemma StripSubsequence(s: string, title: string)
    requires IsSubsequence(s, title)
    ensures IsSubsequence(Strip(s), title)
  {
    var i, j := StripSlice(s);
    SubsequenceSlice(s, title, i, j);
  }

  /** Stripping keeps every non-whitespace character as often as it was. */
  lemma StripCounts(s: string, c: char)
    requires !IsSpace(c)
    ensures multiset(Strip(s))[c] == multiset(s)[c]
  {
    var i, j := StripSlice(s);
    SliceCounts(s, i, j, c);
  }

  /** Cutting whitespace off both ends of `s` keeps every non-whitespace
      character as often as it was. */
  lemma SliceCounts(s: string, i: nat, j: nat, c: char)
    requires i <= j <= |s| && !IsSpace(c)
    requires forall k :: 0 <= k < i ==> IsSpace(s[k])
    requires forall k :: j <= k < |s| ==> IsSpace(s[k])
    ensures multiset(s[i..j])[c] == multiset(s)[c]
  {
    var front, mid, back := s[..i], s[i..j], s[j..];
    assert s == front + mid + back;
    NotInWhitespace(front, c);
    NotInWhitespace(back, c);
  }

  /** A non-whitespace character does not occur in a run of whitespace. */
  lemma NotInWhitespace(t: string, c: char)
    requires forall k :: 0 <= k < |t| ==> IsSpace(t[k])
    requires !IsSpace(c)
    ensures multiset(t)[c] == 0
  {
    assert c !in t;
  }

  /** Line 26. Every character of the result is alphanumeric, a space, `-` or
      `_`; neither end is whitespace; and the result is a subsequence of the
      title. `SanitizeSlice` adds that it is the filtered title with only
      whitespace cut off its two ends, so inner spaces survive, and
      `SanitizeKeepsCharacters` counts the non-whitespace characters. */
  function Sanitize(isAlnum: char -> bool, title: string): (r: string)
    ensures forall k :: 0 <= k < |r| ==> Keep(isAlnum, r[k])
    ensures r == [] || (!IsSpace(r[0]) && !IsSpace(r[|r| - 1]))
    ensures IsSubsequence(r, title)
  {
    var kept := Filter(Kept(isAlnum), title);
    StripKeeps(Kept(isAlnum), kept);
    StripSubsequence(kept, title);
    Strip(kept)
  }

  /** What sanitizing removes beyond the filter is whitespace at the two ends
      of the filtered title and nothing else: the result is the slice
      `kept[i..j]` of the filtered title `kept`, and everything of `kept`
      outside that slice is whitespace. Spaces inside the title survive. */
  lemma SanitizeSlice(isAlnum: char -> bool, title: string) returns (i: nat, j: nat)
    ensures i <= j <= |Filter(Kept(isAlnum), title)|
    ensures Sanitize(isAlnum, title) == Filter(Kept(isAlnum), title)[i..j]
    ensures forall k :: 0 <= k < i ==> IsSpace(Filter(Kept(isAlnum), title)[k])
    ensures forall k :: j <= k < |Filter(Kept(isAlnum), title)| ==> IsSpace(Filter(Kept(isAlnum), title)[k])
  {
    i, j := StripSlice(Filter(Kept(isAlnum), title));
  }

  /** Every alphanumeric, `-` or `_` of the title, and every other kept
      non-whitespace character, survives sanitizing as often as it occurs in
      the title. */
  lemma SanitizeKeepsCharacters(isAlnum: char -> bool, title: string, c: char)
    requires Keep(isAlnum, c) && !IsSpace(c)
    ensures multiset(Sanitize(isAlnum, title))[c] == multiset(title)[c]
  {
    FilterCounts(Kept(isAlnum), title, c);
    StripCounts(Filter(Kept(isAlnum), title), c);
  }

  /** Sanitizing an already sanitized title returns it unchanged. */
  lemma SanitizeIdempotent(isAlnum: char -> bool, title: string)
    ensures Sanitize(isAlnum, Sanitize(isAlnum, title)) == Sanitize(isAlnum, title)
  {
    var s := Sanitize(isAlnum, title);
    FilterKeepsAll(Kept(isAlnum), s);
  }

  /** A concrete case with ASCII `isalnum`: `!` is dropped. */
  lemma SanitizeDropsPunctuation()
    ensures Sanitize(AsciiAlnum, "A!") == "A"
  {
    var keep := Kept(AsciiAlnum);
    assert keep('A') && !keep('!');
    assert "A!"[1..] == "!" && "!"[1..] == "";
    assert Filter(keep, "!") == "";
    assert Filter(keep, "A!") == "A";
  }

  /** Another title that sanitizes to `A`. */
  lemma SanitizeDropsQuestionMark()
    ensures Sanitize(AsciiAlnum, "A?") == "A"
  {
    var keep := Kept(AsciiAlnum);
    assert keep('A') && !keep('?');
    assert "A?"[1..] == "?" && "?"[1..] == "";
    assert Filter(keep, "?") == "";
    assert Filter(keep, "A?") == "A";
  }

  /** A concrete case with ASCII `isalnum`: a space inside the title is kept,
      the one at its start is stripped. */
  lemma SanitizeStripsEnds()
    ensures Sanitize(AsciiAlnum, " a b?") == "a b"
  {
    var keep := Kept(AsciiAlnum);
    assert keep(' ') && keep('a') && keep('b') && !keep('?');
    assert " a b?"[1..] == "a b?" && "a b?"[1..] == " b?" && " b?"[1..] == "b?";
    assert "b?"[1..] == "?" && "?"[1..] == "";
    assert Filter(keep, "?") == "";
    assert Filter(keep, "b?") == "b";
    assert Filter(keep, " b?") == " b";
    assert Filter(keep, "a b?") == "a b";
    assert Filter(keep, " a b?") == " a b";
    StripExample();
  }

  /** A concrete case with ASCII `isalnum`: two spaces inside the title stay
      two spaces, so `a  b` and `a b` get different names. */
  lemma SanitizeKeepsInnerSpaces()
    ensures Sanitize(AsciiAlnum, "a  b") == "a  b"
  {
    var keep := Kept(AsciiAlnum);
    var t := "a  b";
    assert t[0] == 'a' && t[1] == ' ' && t[2] == ' ' && t[3] == 'b';
    assert keep('a') && keep(' ') && keep('b');
    assert forall k :: 0 <= k < |t| ==> keep(t[k]);
    FilterKeepsAll(keep, t);
    assert !IsSpace(t[0]) && !IsSpace(t[|t| - 1]);
    assert Strip(t) == t;
  }

  /** Stripping ` a b` removes the leading space only. */
  lemma StripExample()
    ensures Strip(" a b") == "a b"
  {
    TrimLeftExample();
    TrimRightExample();
  }

  /** The leading space of ` a b` is whitespace, the `a` after it is not. */
  lemma TrimLeftExample()
    ensures TrimLeft(" a b") == "a b"
  {
    assert " a b"[0] == ' ' && " a b"[1..] == "a b";
    assert "a b"[0] == 'a';
  }

  /** `a b` does not end with whitespace. */
  lemma TrimRightExample()
    ensures TrimRight("a b") == "a b"
  {
    assert "a b"[2] == 'b';
  }

  /** A title sanitizes to the empty name exactly when each of its
      characters is either dropped by the filter (anything but alphanumerics,
      space, `-` and `_`) or whitespace. */
  lemma SanitizeToEmpty(isAlnum: char -> bool, title: string)
    ensures Sanitize(isAlnum, title) == "" <==>
      forall k :: 0 <= k < |title| ==> !Keep(isAlnum, title[k]) || IsSpace(title[k])
  {
    if forall k :: 0 <= k < |title| ==> !Keep(isAlnum, title[k]) || IsSpace(title[k]) {
      var kept := Filter(Kept(isAlnum), title);
      FilterPreserves(Kept(isAlnum), c => !Keep(isAlnum, c) || IsSpace(c), title);
      var i, j := StripSlice(kept);
      if i < j {
        assert Strip(kept)[0] == kept[i];
      }
    } else {
      var k :| 0 <= k < |title| && Keep(isAlnum, title[k]) && !IsSpace(title[k]);
      SanitizeKeepsCharacters(isAlnum, title, title[k]);
      assert title[k] in multiset(title);
    }
  }
}
