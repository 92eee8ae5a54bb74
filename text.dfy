/** The Python 2 string operations the two components rely on: `str.split(sep)` with an
    explicit one-character separator, `sep.join(parts)`, `str.strip()`, and the
    concatenation of the chunks a stream delivers. Python 2 `str` is a byte string; a
    byte is modelled as a `char`. */
module Text {

  /** Python's `s.split(c)`: the fields between occurrences of `c`, including empty
      fields, so that `"".split(c) == [""]` and `"a  b".split(" ") == ["a", "", "b"]`.
      Defined from the end of `s`, one character at a time. */
  function Split(s: string, c: char): (r: seq<string>)
    ensures |r| >= 1
    ensures forall i :: 0 <= i < |r| ==> c !in r[i]
    decreases |s|
  {
    if |s| == 0 then [""]
    else
      var fields := Split(s[..|s| - 1], c);
      var ch := s[|s| - 1];
      if ch == c then fields + [""]
      else fields[..|fields| - 1] + [fields[|fields| - 1] + [ch]]
  }

  /** Python's `sep.join(parts)`. */
  function Join(sep: string, parts: seq<string>): (r: string)
    decreases |parts|
  {
    if |parts| == 0 then ""
    else if |parts| == 1 then parts[0]
    else Join(sep, parts[..|parts| - 1]) + sep + parts[|parts| - 1]
  }

  /** The concatenation of a sequence of chunks, in order. */
  function Concat(chunks: seq<string>): string
    decreases |chunks|
  {
    if |chunks| == 0 then "" else Concat(chunks[..|chunks| - 1]) + chunks[|chunks| - 1]
  }

  /** `t` occurs in `s` at some position. */
  ghost predicate IsSubstring(t: string, s: string) {
    exists i, j :: 0 <= i <= j <= |s| && s[i..j] == t
  }

  /** `t` is a final segment of `s`. */
  ghost predicate IsSuffix(t: string, s: string) {
    |t| <= |s| && s[|s| - |t|..] == t
  }

  /** The characters Python 2's `str.strip()` removes (C `isspace`). */
  predicate IsSpace(ch: char) {
    ch == ' ' || ch == '\t' || ch == '\n' || ch == '\r' || ch == '\U{B}' || ch == '\U{C}'
  }

  function StripLeft(s: string): (r: string)
    ensures IsSuffix(r, s)
    ensures forall i :: 0 <= i < |s| - |r| ==> IsSpace(s[i])
    ensures r == [] || !IsSpace(r[0])
    decreases |s|
  {
    if |s| > 0 && IsSpace(s[0]) then StripLeft(s[1..]) else s
  }

  function StripRight(s: string): (r: string)
    ensures |r| <= |s| && s[..|r|] == r
    ensures forall i :: |r| <= i < |s| ==> IsSpace(s[i])
    ensures r == [] || !IsSpace(r[|r| - 1])
    decreases |s|
  {
    if |s| > 0 && IsSpace(s[|s| - 1]) then StripRight(s[..|s| - 1]) else s
  }

  /** Python's `s.strip()`. */
  function Strip(s: string): (r: string)
    ensures |r| <= |s|
  {
    StripRight(StripLeft(s))
  }

  /** Every character of `s` is whitespace. */
  ghost predicate AllSpace(s: string) {
    forall j :: 0 <= j < |s| ==> IsSpace(s[j])
  }

  /** `r` is what remains of `s` once its first `i` characters, all whitespace, and the
      whitespace after position `i + |r|` are removed, and `r` neither starts nor ends
      with whitespace. */
  ghost predicate TrimmedAt(s: string, i: nat, r: string) {
    && i + |r| <= |s| && s[i..i + |r|] == r
    && (forall j :: 0 <= j < i ==> IsSpace(s[j]))
    && (forall j :: i + |r| <= j < |s| ==> IsSpace(s[j]))
    && (r != [] ==> !IsSpace(r[0]) && !IsSpace(r[|r| - 1]))
  }

  /** `Strip(s)` is the piece of `s` left after removing exactly the leading and the
      trailing whitespace. */
  lemma StripRemovesOuterSpace(s: string)
    ensures TrimmedAt(s, |s| - |StripLeft(s)|, Strip(s))
  {
    var left := StripLeft(s);
    assert Strip(s) == StripRight(left);
    LeftTrimmedByStripLeft(s);
    RightTrimmedByStripRight(left);
    TrimmedPiece(s, left, Strip(s));
  }

  /** `Strip(s)` occurs in `s`, and it is empty exactly when `s` is all whitespace. */
  lemma StripEmptyIffAllSpace(s: string)
    ensures Strip(s) == [] <==> AllSpace(s)
    ensures IsSubstring(Strip(s), s)
  {
    StripRemovesOuterSpace(s);
    TrimmedFacts(s, |s| - |StripLeft(s)|, Strip(s));
  }

  /** A trimmed piece occurs in the string, and is empty exactly when the string is all
      whitespace. */
  lemma TrimmedFacts(s: string, i: nat, r: string)
    requires TrimmedAt(s, i, r)
    ensures r == [] <==> AllSpace(s)
    ensures IsSubstring(r, s)
  {
    if r != [] {
      assert s[i] == r[0];
    }
  }

  /** There is only one trimmed piece of a string, so `TrimmedAt` pins `Strip` down. */
  lemma TrimmedIsUnique(s: string, i: nat, r: string, i': nat, r': string)
    requires TrimmedAt(s, i, r) && TrimmedAt(s, i', r')
    ensures r == r'
  {
    TrimmedFacts(s, i, r);
    TrimmedFacts(s, i', r');
    if r != [] && r' != [] {
      assert !IsSpace(s[i]) && !IsSpace(s[i']) by {
        assert s[i] == r[0] && s[i'] == r'[0];
      }
      assert i == i';
      var e, e' := i + |r| - 1, i' + |r'| - 1;
      assert !IsSpace(s[e]) && !IsSpace(s[e']) by {
        assert s[e] == r[|r| - 1] && s[e'] == r'[|r'| - 1];
      }
      assert e == e';
    }
  }

  /** `left` is `s` without its leading whitespace. */
  ghost predicate LeftTrimmed(s: string, left: string) {
    && IsSuffix(left, s) && (left == [] || !IsSpace(left[0]))
    && forall j :: 0 <= j < |s| - |left| ==> IsSpace(s[j])
  }

  /** `r` is `t` without its trailing whitespace. */
  ghost predicate RightTrimmed(t: string, r: string) {
    && |r| <= |t| && t[..|r|] == r && (r == [] || !IsSpace(r[|r| - 1]))
    && forall j :: |r| <= j < |t| ==> IsSpace(t[j])
  }

  lemma LeftTrimmedByStripLeft(s: string)
    ensures LeftTrimmed(s, StripLeft(s))
  {
  }

  lemma RightTrimmedByStripRight(t: string)
    ensures RightTrimmed(t, StripRight(t))
  {
  }

  /** The two halves of `Strip` put together. */
  lemma TrimmedPiece(s: string, left: string, r: string)
    requires LeftTrimmed(s, left) && RightTrimmed(left, r)
    ensures TrimmedAt(s, |s| - |left|, r)
  {
    var i := |s| - |left|;
    PrefixOfSuffix(s, left, r);
    if left != [] {
      assert |r| > 0;
      assert r[0] == left[0];
    }
  }

  /** A prefix `r` of a final segment `left` of `s`, followed in `left` by whitespace
      only, sits in `s` where `left` starts, and only whitespace follows it. */
  lemma PrefixOfSuffix(s: string, left: string, r: string)
    requires IsSuffix(left, s)
    requires |r| <= |left| && left[..|r|] == r
    requires forall j :: |r| <= j < |left| ==> IsSpace(left[j])
    ensures var i := |s| - |left|;
      && i + |r| <= |s| && s[i..i + |r|] == r
      && (forall j :: i + |r| <= j < |s| ==> IsSpace(s[j]))
      && IsSubstring(r, s)
  {
    var i := |s| - |left|;
    assert s[i..i + |r|] == s[i..][..|r|];
    forall j | i + |r| <= j < |s|
      ensures IsSpace(s[j])
    {
      assert s[j] == left[j - i];
    }
  }

  /** Appending a part to a join adds the separator and the part. */
  lemma JoinSnoc(sep: string, parts: seq<string>, p: string)
    requires |parts| >= 1
    ensures Join(sep, parts + [p]) == Join(sep, parts) + sep + p
  {
    assert (parts + [p])[..|parts|] == parts;
  }

  /** Extending the last part of a join extends the join. */
  lemma JoinExtendLast(sep: string, parts: seq<string>, x: string)
    requires |parts| >= 1
    ensures Join(sep, parts[..|parts| - 1] + [parts[|parts| - 1] + x]) == Join(sep, parts) + x
  {
    var init := parts[..|parts| - 1];
    if |parts| > 1 {
      JoinSnoc(sep, init, parts[|parts| - 1] + x);
      assert init + [parts[|parts| - 1]] == parts;
      JoinSnoc(sep, init, parts[|parts| - 1]);
    }
  }

  /** Splitting a string extended by one character: a separator opens a new empty field,
      any other character extends the last field. */
  lemma SplitSnoc(init: string, ch: char, c: char)
    ensures var fields := Split(init, c);
      Split(init + [ch], c)
        == if ch == c then fields + [""]
           else fields[..|fields| - 1] + [fields[|fields| - 1] + [ch]]
  {
    assert (init + [ch])[..|init|] == init;
  }

  /** Joining the fields of a split with the separator gives back the original string. */
  lemma {:induction false} JoinSplit(s: string, c: char)
    ensures Join([c], Split(s, c)) == s
    decreases |s|
  {
    if |s| > 0 {
      var init, ch := s[..|s| - 1], s[|s| - 1];
      var fields := Split(init, c);
      JoinSplit(init, c);
      assert init + [ch] == s;
      SplitSnoc(init, ch, c);
      if ch == c {
        JoinSnoc([c], fields, "");
      } else {
        JoinExtendLast([c], fields, [ch]);
      }
    }
  }

  /** A string without the separator splits into itself alone. */
  lemma {:induction false} SplitNoSeparator(s: string, c: char)
    requires c !in s
    ensures Split(s, c) == [s]
    decreases |s|
  {
    if |s| > 0 {
      SplitNoSeparator(s[..|s| - 1], c);
      assert s[..|s| - 1] + [s[|s| - 1]] == s;
    }
  }

  /** Appending a separator and a separator-free field adds exactly that field. */
  lemma {:induction false} SplitAppendField(a: string, b: string, c: char)
    requires c !in b
    ensures Split(a + [c] + b, c) == Split(a, c) + [b]
    decreases |b|
  {
    var s := a + [c] + b;
    if |b| == 0 {
      assert s[..|s| - 1] == a;
    } else {
      var b' := b[..|b| - 1];
      SplitAppendField(a, b', c);
      assert s[..|s| - 1] == a + [c] + b';
      assert b' + [b[|b| - 1]] == b;
    }
  }

  /** Splitting a join recovers the parts when no part contains the separator. */
  lemma {:induction false} SplitJoin(parts: seq<string>, c: char)
    requires |parts| >= 1
    requires forall i :: 0 <= i < |parts| ==> c !in parts[i]
    ensures Split(Join([c], parts), c) == parts
    decreases |parts|
  {
    if |parts| == 1 {
      SplitNoSeparator(parts[0], c);
    } else {
      var init := parts[..|parts| - 1];
      SplitJoin(init, c);
      SplitAppendField(Join([c], init), parts[|parts| - 1], c);
      assert init + [parts[|parts| - 1]] == parts;
    }
  }

  /** A join of two or more parts starts with the first part and the separator. */
  lemma {:induction false} JoinFront(sep: string, parts: seq<string>)
    requires |parts| >= 2
    ensures Join(sep, parts) == parts[0] + sep + Join(sep, parts[1..])
    decreases |parts|
  {
    if |parts| > 2 {
      var init := parts[..|parts| - 1];
      JoinFront(sep, init);
      assert init[1..] == parts[1..][..|parts| - 2];
    }
  }

  /** The first field of a split: the whole string when the separator does not occur,
      otherwise the text before its first occurrence. */
  lemma SplitFirstField(s: string, c: char)
    ensures var r := Split(s, c);
      (|r| == 1 && r[0] == s && c !in s)
      || (|r| > 1 && |r[0]| < |s| && s[..|r[0]|] == r[0] && s[|r[0]|] == c)
  {
    var r := Split(s, c);
    JoinSplit(s, c);
    if |r| > 1 {
      JoinFront([c], r);
      assert s == r[0] + [c] + Join([c], r[1..]);
      assert s[..|r[0]|] == r[0];
    }
  }

  /** A character occurs in a join exactly when it occurs in a part, or in the separator
      between two parts. */
  lemma {:induction false} JoinHasChar(sep: string, parts: seq<string>, ch: char)
    ensures ch in Join(sep, parts)
        <==> (exists i :: 0 <= i < |parts| && ch in parts[i]) || (|parts| >= 2 && ch in sep)
    decreases |parts|
  {
    if |parts| >= 2 {
      var init := parts[..|parts| - 1];
      JoinHasChar(sep, init, ch);
      if ch in Join(sep, parts) && ch !in sep && ch !in parts[|parts| - 1] {
        assert ch in Join(sep, init);
        if |init| >= 2 {
          var i :| 0 <= i < |init| && ch in init[i];
          assert ch in parts[i];
        } else {
          assert ch in parts[0];
        }
      }
      if exists i :: 0 <= i < |parts| && ch in parts[i] {
        var i :| 0 <= i < |parts| && ch in parts[i];
        if i < |parts| - 1 {
          assert ch in init[i];
        }
      }
    }
  }
}
