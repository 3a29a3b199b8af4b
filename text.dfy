/** String operations the resolver and the command handlers rely on: ASCII
    lower-casing (`to_ascii_lowercase`), substring containment (`str::contains`),
    whitespace trimming (`str::trim`) and joining words with a single space
    (`join(" ")`).  Strings are sequences of Unicode scalar values. */
module Text {

  // ---------------------------------------------------------------------------
  // ASCII case folding
  // ---------------------------------------------------------------------------

  predicate IsAsciiUpper(c: char) {
    'A' <= c <= 'Z'
  }

  /** Maps 'A'..'Z' to 'a'..'z' and leaves every other character alone. */
  function LowerChar(c: char): char {
    if IsAsciiUpper(c) then (c as int + 32) as char else c
  }

  /** `to_ascii_lowercase`: characters are folded one by one; the length and
      every non-ASCII-upper character are kept. */
  function Lower(s: string): (r: string)
    ensures |r| == |s|
    ensures forall i :: 0 <= i < |s| ==> r[i] == LowerChar(s[i])
  {
    if s == [] then [] else [LowerChar(s[0])] + Lower(s[1..])
  }

  /** Folding twice is folding once. */
  lemma LowerIdempotent(s: string)
    ensures Lower(Lower(s)) == Lower(s)
  {
    assert forall i :: 0 <= i < |s| ==> LowerChar(LowerChar(s[i])) == LowerChar(s[i]);
  }

  /** After folding, no ASCII capital is left, and only ASCII capitals changed. */
  lemma LowerFoldsOnlyAsciiCapitals(s: string)
    ensures forall i :: 0 <= i < |s| ==> !IsAsciiUpper(Lower(s)[i])
    ensures forall i :: 0 <= i < |s| && !IsAsciiUpper(s[i]) ==> Lower(s)[i] == s[i]
    ensures forall i :: 0 <= i < |s| && IsAsciiUpper(s[i]) ==> Lower(s)[i] as int == s[i] as int + 32
  {
  }

  // ---------------------------------------------------------------------------
  // Substring containment
  // ---------------------------------------------------------------------------

  /** `pat` occurs in `s` starting at position `i`. */
  ghost predicate OccursAt(pat: string, s: string, i: int) {
    0 <= i && i + |pat| <= |s| && s[i..i + |pat|] == pat
  }

  /** `s.contains(pat)`: some position of `s` starts an occurrence of `pat`. */
  function Contains(s: string, pat: string): (r: bool)
    ensures r <==> exists i :: OccursAt(pat, s, i)
    decreases |s|
  {
    if |pat| <= |s| && s[..|pat|] == pat then
      assert OccursAt(pat, s, 0);
      true
    else if |s| == 0 then
      false
    else
      var rest := Contains(s[1..], pat);
      assert forall i :: OccursAt(pat, s[1..], i) ==> OccursAt(pat, s, i + 1) by {
        forall i | OccursAt(pat, s[1..], i) ensures OccursAt(pat, s, i + 1) {
          assert s[1..][i..i + |pat|] == s[i + 1..i + 1 + |pat|];
        }
      }
      assert forall i :: OccursAt(pat, s, i) && i > 0 ==> OccursAt(pat, s[1..], i - 1) by {
        forall i | OccursAt(pat, s, i) && i > 0 ensures OccursAt(pat, s[1..], i - 1) {
          assert s[1..][i - 1..i - 1 + |pat|] == s[i..i + |pat|];
        }
      }
      rest
  }

  /** The empty pattern occurs in every string. */
  lemma ContainsEmpty(s: string)
    ensures Contains(s, "")
  {
    assert OccursAt("", s, 0);
  }

  /** A string occurs in itself. */
  lemma ContainsSelf(s: string)
    ensures Contains(s, s)
  {
    assert OccursAt(s, s, 0);
  }

  // ---------------------------------------------------------------------------
  // Trimming
  // ---------------------------------------------------------------------------

  /** Rust's `char::is_whitespace`: the Unicode White_Space property. */
  predicate IsWhitespace(c: char) {
    || '\t' <= c <= '\r'
    || c == ' '
    || c == '\U{85}'
    || c == '\U{A0}'
    || c == '\U{1680}'
    || '\U{2000}' <= c <= '\U{200A}'
    || c == '\U{2028}'
    || c == '\U{2029}'
    || c == '\U{202F}'
    || c == '\U{205F}'
    || c == '\U{3000}'
  }

  ghost predicate AllWhitespace(s: string) {
    forall i :: 0 <= i < |s| ==> IsWhitespace(s[i])
  }

  /** `t` is `s` with its leading and trailing whitespace removed, `t`
      starting at position `i`: a slice of `s` with only whitespace before and
      after it, that neither starts nor ends with whitespace. */
  ghost predicate TrimmedAt(t: string, s: string, i: int) {
    && 0 <= i && i + |t| <= |s| && s[i..i + |t|] == t
    && AllWhitespace(s[..i]) && AllWhitespace(s[i + |t|..])
    && (t == [] || (!IsWhitespace(t[0]) && !IsWhitespace(t[|t| - 1])))
  }

  ghost predicate IsTrimmingOf(t: string, s: string) {
    exists i :: TrimmedAt(t, s, i)
  }

  /** `trim_start`: drops the longest whitespace prefix. */
  function TrimStart(s: string): (r: string)
    ensures |r| <= |s| && r == s[|s| - |r|..]
    ensures AllWhitespace(s[..|s| - |r|])
    ensures r == [] || !IsWhitespace(r[0])
  {
    if |s| > 0 && IsWhitespace(s[0]) then
      var r := TrimStart(s[1..]);
      assert s[..|s| - |r|] == [s[0]] + s[1..][..|s| - 1 - |r|];
      r
    else
      s
  }

  /** `trim_end`: drops the longest whitespace suffix. */
  function TrimEnd(s: string): (r: string)
    ensures |r| <= |s| && r == s[..|r|]
    ensures AllWhitespace(s[|r|..])
    ensures r == [] || !IsWhitespace(r[|r| - 1])
  {
    if |s| > 0 && IsWhitespace(s[|s| - 1]) then
      var r := TrimEnd(s[..|s| - 1]);
      assert s[|r|..] == s[..|s| - 1][|r|..] + [s[|s| - 1]];
      r
    else
      s
  }

  /** `str::trim`. */
  function Trim(s: string): (r: string)
    ensures IsTrimmingOf(r, s)
    ensures r == [] <==> AllWhitespace(s)
  {
    var a := TrimStart(s);
    var r := TrimEnd(a);
    var i := |s| - |a|;
    assert s[i..i + |r|] == r;
    assert s[..i] == s[..|s| - |a|];
    assert s[i + |r|..] == a[|r|..];
    assert r != [] ==> !IsWhitespace(s[i + |r| - 1]);
    assert TrimmedAt(r, s, i);
    if r == [] then
      EmptyTrimmingIsAllWhitespace(s, i);
      r
    else
      assert s[i] == r[0];
      r
  }

  lemma AllWhitespaceConcat(a: string, b: string)
    requires AllWhitespace(a) && AllWhitespace(b)
    ensures AllWhitespace(a + b)
  {
  }

  /** A string that holds a non-whitespace character has no empty trimming. */
  lemma EmptyTrimmingIsAllWhitespace(s: string, i: int)
    requires TrimmedAt([], s, i)
    ensures AllWhitespace(s)
  {
    forall k | 0 <= k < |s| ensures IsWhitespace(s[k]) {
      if k < i {
        assert s[..i][k] == s[k];
      } else {
        assert s[i..][k - i] == s[k];
      }
    }
  }

  /** Two non-empty trimmings of one string start at the same position. */
  lemma TrimmingsStartTogether(t: string, r: string, s: string, i: int, j: int)
    requires TrimmedAt(t, s, i) && TrimmedAt(r, s, j)
    requires t != [] && r != []
    ensures i == j
  {
    assert s[i] == s[i..i + |t|][0] == t[0];
    assert s[j] == s[j..j + |r|][0] == r[0];
  }

  /** Two non-empty trimmings of one string end at the same position. */
  lemma TrimmingsEndTogether(t: string, r: string, s: string, i: int, j: int)
    requires TrimmedAt(t, s, i) && TrimmedAt(r, s, j)
    requires t != [] && r != []
    ensures i + |t| == j + |r|
  {
    var e, f := i + |t|, j + |r|;
    assert s[e - 1] == s[i..e][|t| - 1] == t[|t| - 1];
    assert s[f - 1] == s[j..f][|r| - 1] == r[|r| - 1];
  }

  /** The trimming of a string is unique, so `Trim` computes exactly it. */
  lemma TrimmingIsUnique(t: string, s: string)
    requires IsTrimmingOf(t, s)
    ensures t == Trim(s)
  {
    var r := Trim(s);
    var i :| TrimmedAt(t, s, i);
    var j :| TrimmedAt(r, s, j);
    if t == [] {
      EmptyTrimmingIsAllWhitespace(s, i);
    } else if r == [] {
      EmptyTrimmingIsAllWhitespace(s, j);
    } else {
      TrimmingsStartTogether(t, r, s, i, j);
      TrimmingsEndTogether(t, r, s, i, j);
    }
  }

  /** Trimming an already trimmed string changes nothing. */
  lemma TrimIdempotent(s: string)
    ensures Trim(Trim(s)) == Trim(s)
  {
    var t := Trim(s);
    assert t[0..|t|] == t;
    assert t[..0] == [] && t[|t|..] == [];
    assert TrimmedAt(t, t, 0);
    TrimmingIsUnique(t, t);
  }

  /** Whitespace appended to a string (such as the newline `read_line`
      keeps) does not change its trimming. */
  lemma TrimIgnoresTrailingWhitespace(u: string, w: string)
    requires AllWhitespace(w)
    ensures Trim(u + w) == Trim(u)
  {
    var t := Trim(u);
    var i :| TrimmedAt(t, u, i);
    TrimmedAtExtend(t, u, w, i);
    TrimmingIsUnique(t, u + w);
  }

  lemma TrimmedAtExtend(t: string, u: string, w: string, i: int)
    requires TrimmedAt(t, u, i) && AllWhitespace(w)
    ensures TrimmedAt(t, u + w, i)
  {
    var s := u + w;
    assert s[i..i + |t|] == u[i..i + |t|];
    assert s[..i] == u[..i];
    assert s[i + |t|..] == u[i + |t|..] + w;
    AllWhitespaceConcat(u[i + |t|..], w);
  }

  // ---------------------------------------------------------------------------
  // Joining words with single spaces
  // ---------------------------------------------------------------------------

  /** `words.join(" ")`. */
  function JoinWithSpace(words: seq<string>): (r: string)
    ensures |words| == 0 ==> r == ""
    ensures |words| == 1 ==> r == words[0]
  {
    if |words| == 0 then ""
    else if |words| == 1 then words[0]
    else words[0] + " " + JoinWithSpace(words[1..])
  }

  /** Splitting at every space: the inverse of `JoinWithSpace` for words that
      hold no space.  Always yields at least one (possibly empty) piece. */
  function SplitAtSpace(s: string): (r: seq<string>)
    ensures |r| >= 1
  {
    if s == [] then [""]
    else
      var rest := SplitAtSpace(s[1..]);
      if s[0] == ' ' then [""] + rest else [[s[0]] + rest[0]] + rest[1..]
  }

  /** Joining the pieces of a split gives back the string. */
  lemma {:induction false} JoinSplit(s: string)
    ensures JoinWithSpace(SplitAtSpace(s)) == s
  {
    if s != [] {
      var rest := SplitAtSpace(s[1..]);
      JoinSplit(s[1..]);
      if s[0] == ' ' {
        assert ([""] + rest)[1..] == rest;
      } else {
        var r := [[s[0]] + rest[0]] + rest[1..];
        if |rest| > 1 {
          assert r[1..] == rest[1..];
          assert JoinWithSpace(rest) == rest[0] + " " + JoinWithSpace(rest[1..]);
        }
      }
    }
  }

  /** Splitting a space-free prefix glued to a string. */
  lemma {:induction false} SplitPrefix(t: string, s: string)
    requires ' ' !in t
    ensures var r := SplitAtSpace(s);
            SplitAtSpace(t + s) == [t + r[0]] + r[1..]
  {
    if t != [] {
      var r := SplitAtSpace(s);
      assert t == [t[0]] + t[1..];
      assert t[0] in t && ' ' !in t[1..];
      assert (t + s)[0] == t[0] && (t + s)[1..] == t[1..] + s;
      SplitPrefix(t[1..], s);
      var rest := SplitAtSpace(t[1..] + s);
      assert rest == [t[1..] + r[0]] + r[1..];
      assert rest[1..] == r[1..];
      assert [t[0]] + rest[0] == t + r[0];
    } else {
      var r := SplitAtSpace(s);
      assert t + s == s && t + r[0] == r[0];
      assert r == [r[0]] + r[1..];
    }
  }

  /** Splitting a join of space-free words gives back the words. */
  lemma {:induction false} SplitJoin(words: seq<string>)
    requires |words| >= 1
    requires forall k :: 0 <= k < |words| ==> ' ' !in words[k]
    ensures SplitAtSpace(JoinWithSpace(words)) == words
  {
    if |words| == 1 {
      SplitPrefix(words[0], "");
      assert words[0] + "" == words[0];
    } else {
      var tail := JoinWithSpace(words[1..]);
      SplitJoin(words[1..]);
      assert (" " + tail)[0] == ' ' && (" " + tail)[1..] == tail;
      assert SplitAtSpace(" " + tail) == [""] + words[1..];
      assert words[0] + " " + tail == words[0] + (" " + tail);
      SplitPrefix(words[0], " " + tail);
      var r := [""] + words[1..];
      assert r[0] == "" && r[1..] == words[1..];
      assert words[0] + r[0] == words[0];
      assert words == [words[0]] + words[1..];
    }
  }

  /** Appending a word adds one space and the word. */
  lemma {:induction false} JoinAppend(words: seq<string>, w: string)
    requires |words| >= 1
    ensures JoinWithSpace(words + [w]) == JoinWithSpace(words) + " " + w
  {
    if |words| > 1 {
      assert (words + [w])[1..] == words[1..] + [w];
      JoinAppend(words[1..], w);
    }
  }

  /** The joined text is as long as the words plus one space between each pair. */
  function TotalLength(words: seq<string>): nat {
    if words == [] then 0 else |words[0]| + TotalLength(words[1..])
  }

  lemma {:induction false} JoinLength(words: seq<string>)
    requires |words| >= 1
    ensures |JoinWithSpace(words)| == TotalLength(words) + |words| - 1
  {
    if |words| > 1 {
      JoinLength(words[1..]);
    }
  }
}
