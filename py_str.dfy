/**
 * The Python `str` operations the tool relies on -- `sep.join`, `split`,
 * `strip`, `replace` and slicing -- modelled on `seq<char>`, each with the
 * property that makes it usable: a round trip or a characterisation that
 * does not depend on how it is computed.
 */
module PyStr {

  /** Python's whitespace test (`str.isspace` on one character): the
      characters `str.strip()` removes and `str.split()` splits on. */
  predicate IsSpace(c: char)
  {
    || ('\t' <= c <= '\r')
    || ('\U{1c}' <= c <= '\U{1f}')
    || c == ' '
    || c == '\U{85}'
    || c == '\U{a0}'
    || c == '\U{1680}'
    || ('\U{2000}' <= c <= '\U{200a}')
    || c == '\U{2028}'
    || c == '\U{2029}'
    || c == '\U{202f}'
    || c == '\U{205f}'
    || c == '\U{3000}'
  }

  predicate AllSpace(s: string)
  {
    forall i :: 0 <= i < |s| ==> IsSpace(s[i])
  }

  predicate NoSpace(s: string)
  {
    forall i :: 0 <= i < |s| ==> !IsSpace(s[i])
  }

  /** Neither starting nor ending with whitespace: what `strip` returns. */
  predicate Trimmed(s: string)
  {
    s == [] || (!IsSpace(s[0]) && !IsSpace(s[|s| - 1]))
  }

  /** A token as `str.split()` produces it: non-empty, without whitespace. */
  predicate IsToken(s: string)
  {
    s != [] && NoSpace(s)
  }

  // ---------------------------------------------------------------------
  // sep.join(parts) and s.split(sep)
  // ---------------------------------------------------------------------

  /** `sep.join(parts)` for a one-character separator. */
  function Join(parts: seq<string>, sep: char): string
  {
    if |parts| == 0 then ""
    else if |parts| == 1 then parts[0]
    else parts[0] + [sep] + Join(parts[1..], sep)
  }

  /** The first part begins the join and the last part ends it. */
  lemma {:induction false} JoinFirstLast(parts: seq<string>, sep: char)
    requires |parts| >= 1
    ensures parts[0] <= Join(parts, sep)
    ensures var text, last := Join(parts, sep), parts[|parts| - 1];
            |last| <= |text| && text[|text| - |last|..] == last
  {
    if |parts| > 1 {
      JoinFirstLast(parts[1..], sep);
      var rest := Join(parts[1..], sep);
      assert Join(parts, sep) == (parts[0] + [sep]) + rest;
    }
  }

  /** `s.split(sep)` for a one-character separator: the pieces between
      separators, so never empty (`"".split(sep) == [""]`). */
  function Split(s: string, sep: char): (r: seq<string>)
    ensures |r| >= 1
    ensures forall i :: 0 <= i < |r| ==> sep !in r[i]
  {
    if s == [] then [""]
    else
      var rest := Split(s[1..], sep);
      if s[0] == sep then [""] + rest
      else [[s[0]] + rest[0]] + rest[1..]
  }

  lemma JoinConsHead(c: char, parts: seq<string>, sep: char)
    requires |parts| >= 1
    ensures Join([[c] + parts[0]] + parts[1..], sep) == [c] + Join(parts, sep)
  {
    var ps := [[c] + parts[0]] + parts[1..];
    if |parts| > 1 {
      assert ps[1..] == parts[1..];
    }
  }

  /** Joining the pieces of a split gives back the string. */
  lemma {:induction false} JoinSplit(s: string, sep: char)
    ensures Join(Split(s, sep), sep) == s
  {
    if s != [] {
      JoinSplit(s[1..], sep);
      var rest := Split(s[1..], sep);
      if s[0] == sep {
        assert ([""] + rest)[1..] == rest;
      } else {
        JoinConsHead(s[0], rest, sep);
      }
    }
  }

  /** A character other than the separator joins the first piece. */
  lemma SplitCons(x: char, u: string, sep: char)
    requires x != sep
    ensures Split([x] + u, sep) == [[x] + Split(u, sep)[0]] + Split(u, sep)[1..]
  {
    assert ([x] + u)[1..] == u;
  }

  lemma {:induction false} SplitPrefix(a: string, t: string, sep: char)
    requires sep !in a
    ensures Split(a + t, sep) == [a + Split(t, sep)[0]] + Split(t, sep)[1..]
  {
    var rest := Split(t, sep);
    if a != [] {
      var tail := a[1..];
      assert sep !in tail && a[0] != sep;
      assert a + t == [a[0]] + (tail + t);
      SplitCons(a[0], tail + t, sep);
      SplitPrefix(tail, t, sep);
      assert [a[0]] + (tail + rest[0]) == a + rest[0];
    } else {
      assert a + t == t && a + rest[0] == rest[0];
      assert [rest[0]] + rest[1..] == rest;
    }
  }

  /** Splitting the join of separator-free pieces gives back the pieces. */
  lemma {:induction false} SplitJoin(parts: seq<string>, sep: char)
    requires |parts| >= 1
    requires forall i :: 0 <= i < |parts| ==> sep !in parts[i]
    ensures Split(Join(parts, sep), sep) == parts
  {
    if |parts| == 1 {
      SplitPrefix(parts[0], "", sep);
      assert parts[0] + "" == parts[0] && Split("", sep) == [""];
    } else {
      var u := Join(parts[1..], sep);
      SplitJoin(parts[1..], sep);
      assert ([sep] + u)[0] == sep && ([sep] + u)[1..] == u;
      assert Split([sep] + u, sep) == [""] + parts[1..];
      assert parts[0] + [sep] + u == parts[0] + ([sep] + u);
      SplitPrefix(parts[0], [sep] + u, sep);
      assert parts[0] + "" == parts[0];
      assert ([""] + parts[1..])[1..] == parts[1..];
      assert [parts[0]] + parts[1..] == parts;
    }
  }

  /** Joining at least two parts puts the separator between the joins of
      the two halves. */
  lemma {:induction false} JoinAppend(a: seq<string>, b: seq<string>, sep: char)
    requires |a| >= 1 && |b| >= 1
    ensures Join(a + b, sep) == Join(a, sep) + [sep] + Join(b, sep)
  {
    if |a| > 1 {
      assert (a + b)[1..] == a[1..] + b;
      JoinAppend(a[1..], b, sep);
    } else {
      assert (a + b)[1..] == b;
    }
  }

  /** The join of the first parts, and a separator, begin the join of all. */
  lemma JoinPrefix(a: seq<string>, b: seq<string>, sep: char)
    requires |a| >= 1 && |b| >= 1
    ensures Join(a, sep) + [sep] <= Join(a + b, sep)
  {
    JoinAppend(a, b, sep);
  }

  /** The join of at least two parts ends with a separator and the last
      part. */
  lemma JoinLast(parts: seq<string>, sep: char)
    requires |parts| >= 2
    ensures var text, last := Join(parts, sep), parts[|parts| - 1];
            |last| + 1 <= |text| && text[|text| - |last| - 1..] == [sep] + last
  {
    var init, last := parts[..|parts| - 1], parts[|parts| - 1];
    assert init + [last] == parts;
    JoinAppend(init, [last], sep);
    var head := Join(init, sep);
    assert Join(parts, sep) == head + ([sep] + last);
  }

  /** `part in whole` for two strings: `part` occurs somewhere in `whole`. */
  ghost predicate Contains(whole: string, part: string)
  {
    exists i :: 0 <= i <= |whole| && part <= whole[i..]
  }

  /** A text occurs in any text built around it. */
  lemma ContainsInfix(pre: string, mid: string, post: string)
    ensures Contains(pre + mid + post, mid)
  {
    assert mid <= (pre + mid + post)[|pre|..];
  }

  /** Occurring in a part of a text is occurring in the text. */
  lemma ContainsTrans(whole: string, part: string, piece: string)
    requires Contains(whole, part) && Contains(part, piece)
    ensures Contains(whole, piece)
  {
    var i :| 0 <= i <= |whole| && part <= whole[i..];
    var j :| 0 <= j <= |part| && piece <= part[j..];
    assert piece <= whole[i + j..];
  }

  /** Every part of a join occurs in the joined text. */
  lemma {:induction false} JoinHasPart(parts: seq<string>, sep: char, k: nat)
    requires k < |parts|
    ensures Contains(Join(parts, sep), parts[k])
  {
    var whole := Join(parts, sep);
    if |parts| == 1 || k == 0 {
      assert parts[k] <= whole[0..];
    } else {
      JoinHasPart(parts[1..], sep, k - 1);
      var rest := Join(parts[1..], sep);
      var i :| 0 <= i <= |rest| && parts[k] <= rest[i..];
      var off := |parts[0]| + 1;
      assert whole == parts[0] + [sep] + rest;
      assert whole[off + i..] == rest[i..];
    }
  }

  /** The first and last characters of a join come from the first and the
      last part. */
  lemma {:induction false} JoinEnds(parts: seq<string>, sep: char)
    requires |parts| >= 1 && forall i :: 0 <= i < |parts| ==> parts[i] != []
    ensures Join(parts, sep) != []
    ensures Join(parts, sep)[0] == parts[0][0]
    ensures Join(parts, sep)[|Join(parts, sep)| - 1] == parts[|parts| - 1][|parts[|parts| - 1]| - 1]
  {
    if |parts| > 1 {
      JoinEnds(parts[1..], sep);
    }
  }

  /** Tokens joined by a separator neither start nor end with whitespace. */
  lemma JoinTokensTrimmed(parts: seq<string>, sep: char)
    requires forall i :: 0 <= i < |parts| ==> IsToken(parts[i])
    ensures Trimmed(Join(parts, sep))
  {
    if parts != [] {
      var text := Join(parts, sep);
      assert IsToken(parts[0]) && IsToken(parts[|parts| - 1]);
      JoinEnds(parts, sep);
    }
  }

  // ---------------------------------------------------------------------
  // s.strip()
  // ---------------------------------------------------------------------

  /** `s.lstrip()`: the longest suffix of `s` not starting with whitespace. */
  function StripLeft(s: string): (r: string)
    ensures |r| <= |s| && r == s[|s| - |r|..]
    ensures AllSpace(s[..|s| - |r|])
    ensures r == [] || !IsSpace(r[0])
  {
    if s != [] && IsSpace(s[0]) then
      var r := StripLeft(s[1..]);
      assert s[..|s| - |r|] == [s[0]] + s[1..][..|s| - 1 - |r|];
      r
    else s
  }

  /** `s.rstrip()`: the longest prefix of `s` not ending with whitespace. */
  function StripRight(s: string): (r: string)
    ensures |r| <= |s| && r == s[..|r|]
    ensures AllSpace(s[|r|..])
    ensures r == [] || !IsSpace(r[|r| - 1])
  {
    if s != [] && IsSpace(s[|s| - 1]) then
      var r := StripRight(s[..|s| - 1]);
      assert s[|r|..] == s[..|s| - 1][|r|..] + [s[|s| - 1]];
      r
    else s
  }

  /** `r` sits in `s` at `k`, with only whitespace before and after it. */
  predicate PaddedAt(s: string, r: string, k: int)
  {
    0 <= k <= |s| - |r| && r == s[k..k + |r|] && AllSpace(s[..k]) && AllSpace(s[k + |r|..])
  }

  /** `rstrip` after `lstrip` leaves a trimmed text. */
  lemma StripBothTrimmed(s: string)
    ensures Trimmed(StripRight(StripLeft(s)))
  {
    var left := StripLeft(s);
    var r := StripRight(left);
    assert r != [] ==> r[0] == left[0];
  }

  /** A text padded at `k` inside a suffix of `s` that begins after
      whitespace is padded at the same place in `s`. */
  lemma PaddedInSuffix(s: string, left: string, r: string, k: nat)
    requires k <= |s| && left == s[k..] && AllSpace(s[..k])
    requires |r| <= |left| && r == left[..|r|] && AllSpace(left[|r|..])
    ensures PaddedAt(s, r, k)
  {
    assert s[k + |r|..] == left[|r|..];
  }

  /** `rstrip` after `lstrip` leaves the text between the two runs of
      whitespace they remove. */
  lemma StripBothPadded(s: string)
    ensures PaddedAt(s, StripRight(StripLeft(s)), |s| - |StripLeft(s)|)
  {
    var left := StripLeft(s);
    PaddedInSuffix(s, left, StripRight(left), |s| - |left|);
  }

  /** `s.strip()`: a text that neither starts nor ends with whitespace. */
  function Strip(s: string): (r: string)
    ensures Trimmed(r)
  {
    StripBothTrimmed(s);
    StripRight(StripLeft(s))
  }

  /** What `strip` returns is found in `s` between two runs of whitespace. */
  lemma StripFound(s: string)
    ensures exists k :: PaddedAt(s, Strip(s), k)
  {
    StripBothPadded(s);
    assert PaddedAt(s, Strip(s), |s| - |StripLeft(s)|);
  }

  lemma {:induction false} StripLeftPadded(pre: string, t: string)
    requires AllSpace(pre)
    requires t == [] || !IsSpace(t[0])
    ensures StripLeft(pre + t) == t
  {
    if pre != [] {
      assert (pre + t)[1..] == pre[1..] + t;
      StripLeftPadded(pre[1..], t);
    }
  }

  lemma {:induction false} StripRightPadded(t: string, post: string)
    requires AllSpace(post)
    requires t == [] || !IsSpace(t[|t| - 1])
    ensures StripRight(t + post) == t
  {
    if post != [] {
      var p := post[..|post| - 1];
      assert (t + post)[..|t + post| - 1] == t + p;
      StripRightPadded(t, p);
    } else {
      assert t + post == t;
    }
  }

  /** `strip` removes exactly the whitespace padding around a text that
      neither starts nor ends with whitespace. */
  lemma StripPadded(pre: string, m: string, post: string)
    requires AllSpace(pre) && AllSpace(post)
    requires Trimmed(m)
    ensures Strip(pre + m + post) == m
  {
    if m == [] {
      assert pre + m + post == (pre + post) + [];
      StripLeftPadded(pre + post, []);
    } else {
      assert pre + m + post == pre + (m + post);
      StripLeftPadded(pre, m + post);
      StripRightPadded(m, post);
    }
  }

  /** `strip` removes trailing whitespace, such as the newline git prints
      after its output, from a trimmed text. */
  lemma StripTrailing(text: string, trailer: string)
    requires Trimmed(text) && AllSpace(trailer)
    ensures Strip(text + trailer) == text
  {
    assert AllSpace("");
    assert "" + text + trailer == text + trailer;
    StripPadded("", text, trailer);
  }

  // ---------------------------------------------------------------------
  // s.split()
  // ---------------------------------------------------------------------

  /** `s.split()` with no argument: the maximal runs of non-whitespace. */
  function SplitWhitespace(s: string): (r: seq<string>)
    ensures forall i :: 0 <= i < |r| ==> IsToken(r[i])
    ensures s != [] && !IsSpace(s[0]) ==> |r| >= 1 && r[0] != [] && r[0][0] == s[0]
  {
    if s == [] then []
    else
      var rest := SplitWhitespace(s[1..]);
      if IsSpace(s[0]) then rest
      else if |s| > 1 && !IsSpace(s[1]) then [[s[0]] + rest[0]] + rest[1..]
      else [[s[0]]] + rest
  }

  lemma {:induction false} SplitWhitespacePrefix(a: string, t: string)
    requires IsToken(a)
    requires t == [] || IsSpace(t[0])
    ensures SplitWhitespace(a + t) == [a] + SplitWhitespace(t)
  {
    var s := a + t;
    assert s[0] == a[0] && s[1..] == a[1..] + t;
    if |a| > 1 {
      assert IsToken(a[1..]) by {
        forall i | 0 <= i < |a[1..]| ensures !IsSpace(a[1..][i]) {
          assert a[1..][i] == a[i + 1];
        }
      }
      SplitWhitespacePrefix(a[1..], t);
      assert s[1] == a[1];
      assert [a[0]] + a[1..] == a;
    } else {
      assert [a[0]] == a;
    }
  }

  /** Splitting tokens joined by single spaces gives back the tokens. */
  lemma {:induction false} SplitWhitespaceJoin(parts: seq<string>)
    requires forall i :: 0 <= i < |parts| ==> IsToken(parts[i])
    ensures SplitWhitespace(Join(parts, ' ')) == parts
  {
    if |parts| == 1 {
      assert parts[0] + "" == parts[0];
      SplitWhitespacePrefix(parts[0], "");
    } else if |parts| > 1 {
      var u := Join(parts[1..], ' ');
      SplitWhitespaceJoin(parts[1..]);
      assert parts[0] + [' '] + u == parts[0] + ([' '] + u);
      SplitWhitespacePrefix(parts[0], [' '] + u);
      assert ([' '] + u)[1..] == u;
    }
  }

  // ---------------------------------------------------------------------
  // s[:n], s.replace(old, new)
  // ---------------------------------------------------------------------

  /** `s[:n]` */
  function Prefix(s: string, n: nat): (r: string)
    ensures |r| == if |s| < n then |s| else n
    ensures r <= s
  {
    if |s| <= n then s else s[..n]
  }

  /** `s.replace(pat, rep)` for a one-character `pat`. */
  function ReplaceChar(s: string, pat: char, rep: string): string
  {
    if s == [] then [] else (if s[0] == pat then rep else [s[0]]) + ReplaceChar(s[1..], pat, rep)
  }

  /** `s.replace(a + b, [rep])` for a two-character pattern: occurrences
      are replaced left to right without overlapping. */
  function ReplacePair(s: string, a: char, b: char, rep: char): string
  {
    if |s| < 2 then s
    else if s[0] == a && s[1] == b then [rep] + ReplacePair(s[2..], a, b, rep)
    else [s[0]] + ReplacePair(s[1..], a, b, rep)
  }

  /** A character that does not start the pattern is copied, and the
      replacement goes on after it. */
  lemma ReplacePairKeep(x: char, rest: string, a: char, b: char, rep: char)
    requires x != a || rest == [] || rest[0] != b
    ensures ReplacePair([x] + rest, a, b, rep) == [x] + ReplacePair(rest, a, b, rep)
  {
    assert ([x] + rest)[1..] == rest;
  }

  /** An occurrence of the pattern at the start is replaced, and the
      replacement goes on after it. */
  lemma ReplacePairHit(rest: string, a: char, b: char, rep: char)
    ensures ReplacePair([a, b] + rest, a, b, rep) == [rep] + ReplacePair(rest, a, b, rep)
  {
    assert ([a, b] + rest)[2..] == rest;
  }

  lemma {:induction false} ReplaceCharAppend(s: string, t: string, pat: char, rep: string)
    ensures ReplaceChar(s + t, pat, rep) == ReplaceChar(s, pat, rep) + ReplaceChar(t, pat, rep)
  {
    if s != [] {
      assert (s + t)[1..] == s[1..] + t;
      ReplaceCharAppend(s[1..], t, pat, rep);
    } else {
      assert s + t == t;
    }
  }

  /** Replacing a character that does not occur changes nothing, and a
      replacement that changes nothing means the character did not occur
      (for a replacement other than the character itself). */
  lemma {:induction false} ReplaceCharIdentity(s: string, pat: char, rep: string)
    requires rep != [pat]
    ensures ReplaceChar(s, pat, rep) == s <==> pat !in s
  {
    if s != [] {
      ReplaceCharIdentity(s[1..], pat, rep);
      var tail := ReplaceChar(s[1..], pat, rep);
      if s[0] == pat {
        ReplaceCharLength(s[1..], pat, rep);
        if rep + tail == s {
          // Comparing lengths forces |rep| == 1, and then rep == [pat].
          assert false;
        }
      } else {
        assert s == [s[0]] + s[1..];
      }
    }
  }

  /** A non-empty replacement never shortens the text, an empty one never
      lengthens it. */
  lemma {:induction false} ReplaceCharLength(s: string, pat: char, rep: string)
    ensures |rep| >= 1 ==> |ReplaceChar(s, pat, rep)| >= |s|
    ensures |rep| == 0 ==> |ReplaceChar(s, pat, rep)| <= |s|
  {
    if s != [] {
      ReplaceCharLength(s[1..], pat, rep);
    }
  }

  // ---------------------------------------------------------------------
  // Reading a process's output in text mode
  // ---------------------------------------------------------------------

  /** The newline translation of text-mode reading (universal newlines):
      `\r\n` and a lone `\r` both become `\n`; every other character is
      kept. */
  function UniversalNewlines(s: string): string
    decreases |s|
  {
    if s == [] then []
    else if s[0] == '\r' then "\n" + UniversalNewlines(if |s| > 1 && s[1] == '\n' then s[2..] else s[1..])
    else [s[0]] + UniversalNewlines(s[1..])
  }

  /** No `\r` survives the translation. */
  lemma {:induction false} UniversalNewlinesNoReturn(s: string)
    ensures '\r' !in UniversalNewlines(s)
    decreases |s|
  {
    if s != [] {
      if s[0] == '\r' {
        UniversalNewlinesNoReturn(if |s| > 1 && s[1] == '\n' then s[2..] else s[1..]);
      } else {
        UniversalNewlinesNoReturn(s[1..]);
      }
    }
  }

  /** The translation changes a text exactly when it holds a `\r`. */
  lemma {:induction false} UniversalNewlinesIdentity(s: string)
    ensures UniversalNewlines(s) == s <==> '\r' !in s
  {
    if '\r' in s {
      UniversalNewlinesNoReturn(s);
    } else {
      UniversalNewlinesKeep(s);
    }
  }

  lemma {:induction false} UniversalNewlinesKeep(s: string)
    requires '\r' !in s
    ensures UniversalNewlines(s) == s
  {
    if s != [] {
      assert s[0] != '\r' && '\r' !in s[1..];
      UniversalNewlinesKeep(s[1..]);
      assert [s[0]] + s[1..] == s;
    }
  }

  /** The translation of a text is all whitespace exactly when the text
      is. */
  lemma {:induction false} UniversalNewlinesSpace(s: string)
    ensures AllSpace(UniversalNewlines(s)) <==> AllSpace(s)
    decreases |s|
  {
    if s != [] {
      var rest := if s[0] == '\r' && |s| > 1 && s[1] == '\n' then s[2..] else s[1..];
      UniversalNewlinesSpace(rest);
      var t := UniversalNewlines(s);
      if s[0] == '\r' {
        assert t == "\n" + UniversalNewlines(rest);
      } else {
        assert t == [s[0]] + UniversalNewlines(rest);
      }
      assert t[0] == (if s[0] == '\r' then '\n' else s[0]) && t[1..] == UniversalNewlines(rest);
      assert s[1..] == rest || (s[1] == '\n' && s[2..] == rest);
      var u := UniversalNewlines(rest);
      var skip := |s| - |rest|;
      assert s[skip..] == rest;
      if AllSpace(t) {
        forall i | 0 <= i < |u|
          ensures IsSpace(u[i])
        {
          assert u[i] == t[i + 1];
        }
        forall i | 0 <= i < |s|
          ensures IsSpace(s[i])
        {
          if i >= skip {
            assert s[i] == rest[i - skip];
          }
        }
      }
      if AllSpace(s) {
        forall i | 0 <= i < |rest|
          ensures IsSpace(rest[i])
        {
          assert rest[i] == s[i + skip];
        }
      }
    }
  }

  /** The translation distributes over a split that does not separate
      a `\r` from the character after it. */
  lemma {:induction false} UniversalNewlinesAppend(a: string, b: string)
    requires a == [] || a[|a| - 1] != '\r'
    ensures UniversalNewlines(a + b) == UniversalNewlines(a) + UniversalNewlines(b)
    decreases |a|
  {
    if a == [] {
      assert a + b == b;
    } else if a[0] == '\r' && a[1] == '\n' {
      assert (a + b)[2..] == a[2..] + b;
      UniversalNewlinesAppend(a[2..], b);
    } else {
      assert (a + b)[1..] == a[1..] + b;
      UniversalNewlinesAppend(a[1..], b);
    }
  }

  /** Tokens joined by a separator other than `\r` hold no `\r`. */
  lemma {:induction false} TokensNoReturn(parts: seq<string>, sep: char)
    requires sep != '\r'
    requires forall i :: 0 <= i < |parts| ==> IsToken(parts[i])
    ensures '\r' !in Join(parts, sep)
  {
    if parts != [] {
      assert IsToken(parts[0]) && IsSpace('\r');
      if |parts| > 1 {
        TokensNoReturn(parts[1..], sep);
      }
    }
  }

  /** The translation keeps the first and the last character of a text
      that has no whitespace at either end. */
  lemma {:induction false} UniversalNewlinesTrimmed(s: string)
    requires Trimmed(s)
    ensures Trimmed(UniversalNewlines(s))
  {
    if s != [] {
      UniversalNewlinesLast(s);
    }
  }

  lemma {:induction false} UniversalNewlinesLast(s: string)
    requires s != [] && !IsSpace(s[|s| - 1])
    ensures var t := UniversalNewlines(s);
            t != [] && t[|t| - 1] == s[|s| - 1] && (s[0] != '\r' ==> t[0] == s[0])
    decreases |s|
  {
    if s[0] == '\r' {
      var rest := if s[1] == '\n' then s[2..] else s[1..];
      assert rest != [] && rest[|rest| - 1] == s[|s| - 1];
      UniversalNewlinesLast(rest);
    } else if |s| > 1 {
      UniversalNewlinesLast(s[1..]);
    }
  }
}
