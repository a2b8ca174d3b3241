/**
 * The parts of java.lang.String and java.lang.Character that the core relies on,
 * written out over `string` (a sequence of Unicode scalar values).
 */
module JavaText {

  /** Character.isWhitespace: the Unicode space, line and paragraph separators except the
      three no-break spaces, plus the ASCII controls TAB..CR and FS..US. */
  predicate IsJavaWhitespace(c: char) {
    ('\U{0009}' <= c <= '\U{000D}') || ('\U{001C}' <= c <= '\U{0020}')
    || c == '\U{1680}' || ('\U{2000}' <= c <= '\U{2006}') || ('\U{2008}' <= c <= '\U{200A}')
    || c == '\U{2028}' || c == '\U{2029}' || c == '\U{205F}' || c == '\U{3000}'
  }

  /** String.isBlank: empty, or whitespace only. */
  predicate IsBlank(s: string) {
    forall i | 0 <= i < |s| :: IsJavaWhitespace(s[i])
  }

  /** String.length(): the number of UTF-16 code units (two for a char above U+FFFF). */
  function Utf16Length(s: string): (n: nat)
    ensures |s| <= n <= 2 * |s|
  {
    if s == [] then 0 else (if s[0] as int > 0xFFFF then 2 else 1) + Utf16Length(s[1..])
  }

  predicate StartsWith(s: string, p: string) {
    |p| <= |s| && s[..|p|] == p
  }

  predicate EndsWith(s: string, p: string) {
    |p| <= |s| && s[|s| - |p|..] == p
  }

  /** String.contains. */
  predicate Contains(s: string, p: string) {
    exists i | 0 <= i <= |s| :: StartsWith(s[i..], p)
  }

  /** The chars String.trim removes: every char up to and including U+0020. */
  predicate IsTrimmable(c: char) {
    c <= ' '
  }

  /** Neither end holds a char that String.trim would remove. */
  predicate Trimmed(s: string) {
    |s| == 0 || (!IsTrimmable(s[0]) && !IsTrimmable(s[|s| - 1]))
  }

  function LeadingTrimmable(s: string): (k: nat)
    ensures k <= |s|
    ensures forall i | 0 <= i < k :: IsTrimmable(s[i])
    ensures k == |s| || !IsTrimmable(s[k])
  {
    if |s| > 0 && IsTrimmable(s[0]) then 1 + LeadingTrimmable(s[1..]) else 0
  }

  function TrailingTrimmable(s: string): (k: nat)
    ensures k <= |s|
    ensures forall i | |s| - k <= i < |s| :: IsTrimmable(s[i])
    ensures k == |s| || !IsTrimmable(s[|s| - 1 - k])
  {
    if |s| > 0 && IsTrimmable(s[|s| - 1]) then 1 + TrailingTrimmable(s[..|s| - 1]) else 0
  }

  /** String.trim. */
  function Trim(s: string): string {
    var t := s[LeadingTrimmable(s)..];
    t[..|t| - TrailingTrimmable(t)]
  }

  lemma TrimProperties(s: string)
    ensures Trimmed(Trim(s))
    ensures Trimmed(s) ==> Trim(s) == s
  {
  }

  /** Replaces every non-overlapping occurrence of `pat`, scanning left to right
      (String.replace with a literal target, and replaceAll with a pattern that
      matches only that literal). */
  function ReplaceLiteral(s: string, pat: string, rep: string): (r: string)
    requires |pat| > 0
    decreases |s|
  {
    if s == [] then []
    else if StartsWith(s, pat) then rep + ReplaceLiteral(s[|pat|..], pat, rep)
    else [s[0]] + ReplaceLiteral(s[1..], pat, rep)
  }

  /** Every char of a replaced string comes from the input or the replacement. */
  lemma {:induction false} ReplaceLiteralChars(s: string, pat: string, rep: string)
    requires |pat| > 0
    ensures forall c | c in ReplaceLiteral(s, pat, rep) :: c in s || c in rep
    decreases |s|
  {
    if s == [] {
    } else if StartsWith(s, pat) {
      ReplaceLiteralChars(s[|pat|..], pat, rep);
      forall c | c in s[|pat|..] ensures c in s {
        var i :| 0 <= i < |s[|pat|..]| && s[|pat|..][i] == c;
        assert s[|pat| + i] == c;
      }
    } else {
      ReplaceLiteralChars(s[1..], pat, rep);
    }
  }

  /** With nothing to replace, replacing changes nothing. */
  lemma {:induction false} ReplaceLiteralAbsent(s: string, pat: string, rep: string)
    requires |pat| > 0 && !Contains(s, pat)
    ensures ReplaceLiteral(s, pat, rep) == s
    decreases |s|
  {
    if s != [] {
      assert s[0..] == s;
      assert !StartsWith(s, pat);
      forall i | 0 <= i <= |s[1..]| ensures !StartsWith(s[1..][i..], pat) {
        assert s[1..][i..] == s[i + 1..];
      }
      ReplaceLiteralAbsent(s[1..], pat, rep);
    }
  }

  /** If the replaced text starts with `w`, and `w` cannot begin inside a replacement,
      the original text starts with `w` as well. */
  lemma {:induction false} ReplaceLiteralPrefix(t: string, pat: string, rep: string, w: string)
    requires |pat| > 0 && |rep| > 0 && rep[0] !in w
    ensures StartsWith(ReplaceLiteral(t, pat, rep), w) ==> StartsWith(t, w)
    decreases |w|
  {
    var r := ReplaceLiteral(t, pat, rep);
    if w != [] && t != [] {
      if StartsWith(t, pat) {
        assert r[0] == rep[0] && w[0] in w;
      } else {
        var tail := ReplaceLiteral(t[1..], pat, rep);
        assert r == [t[0]] + tail;
        assert rep[0] !in w[1..] by {
          forall j | 0 <= j < |w[1..]| ensures w[1..][j] != rep[0] {
            assert w[1..][j] == w[j + 1] && w[j + 1] in w;
          }
        }
        ReplaceLiteralPrefix(t[1..], pat, rep, w[1..]);
        if StartsWith(r, w) {
          assert tail[..|w| - 1] == r[1..|w|] == w[1..];
          assert t[..|w|] == [t[0]] + t[1..][..|w| - 1];
        }
      }
    }
  }

  /** After a replacement whose chars are foreign to the target, no occurrence of the
      target is left: none survives the scan and none is formed across a seam. */
  lemma {:induction false} ReplaceLiteralRemovesAll(s: string, pat: string, rep: string)
    requires |pat| > 0 && |rep| > 0
    requires forall c | c in rep :: c !in pat
    ensures !Contains(ReplaceLiteral(s, pat, rep), pat)
    decreases |s|
  {
    var r := ReplaceLiteral(s, pat, rep);
    if s == [] {
    } else if StartsWith(s, pat) {
      var tail := ReplaceLiteral(s[|pat|..], pat, rep);
      ReplaceLiteralRemovesAll(s[|pat|..], pat, rep);
      forall i | 0 <= i <= |r| ensures !StartsWith(r[i..], pat) {
        if i < |rep| {
          assert r[i] == rep[i] && rep[i] in rep && pat[0] in pat;
        } else {
          assert r[i..] == tail[i - |rep|..];
        }
      }
    } else {
      var tail := ReplaceLiteral(s[1..], pat, rep);
      ReplaceLiteralRemovesAll(s[1..], pat, rep);
      assert r == [s[0]] + tail;
      forall i | 0 <= i <= |r| ensures !StartsWith(r[i..], pat) {
        if i == 0 {
          assert rep[0] !in pat[1..] by {
            forall j | 0 <= j < |pat[1..]| ensures pat[1..][j] != rep[0] {
              assert pat[1..][j] == pat[j + 1] && pat[j + 1] in pat && rep[0] in rep;
            }
          }
          ReplaceLiteralPrefix(s[1..], pat, rep, pat[1..]);
        } else {
          assert r[i..] == tail[i - 1..];
        }
      }
    }
  }

  /** Replacing skips over a prefix that holds no char that could start the target. */
  lemma {:induction false} ReplaceLiteralSkip(x: string, y: string, pat: string, rep: string)
    requires |pat| > 0 && pat[0] !in x
    ensures ReplaceLiteral(x + y, pat, rep) == x + ReplaceLiteral(y, pat, rep)
    decreases |x|
  {
    if x != [] {
      assert x[0] in x && (x + y)[0] == x[0];
      assert !StartsWith(x + y, pat);
      assert (x + y)[1..] == x[1..] + y;
      assert pat[0] !in x[1..] by {
        forall j | 0 <= j < |x[1..]| ensures x[1..][j] != pat[0] {
          assert x[1..][j] == x[j + 1] && x[j + 1] in x;
        }
      }
      ReplaceLiteralSkip(x[1..], y, pat, rep);
      assert [x[0]] + x[1..] == x;
    } else {
      assert x + y == y;
    }
  }

  /** The number of leading `c`s. */
  function LeadingRun(s: string, c: char): (k: nat)
    ensures k <= |s|
    ensures forall i | 0 <= i < k :: s[i] == c
    ensures k == |s| || s[k] != c
  {
    if s != [] && s[0] == c then 1 + LeadingRun(s[1..], c) else 0
  }

  /** A target made of one repeated char starts a string exactly when the string's run of
      that char is at least as long. */
  lemma RunStartsWith(s: string, pat: string, c: char)
    requires forall i | 0 <= i < |pat| :: pat[i] == c
    ensures StartsWith(s, pat) <==> LeadingRun(s, c) >= |pat|
  {
    var k := LeadingRun(s, c);
    if k >= |pat| {
      assert s[..|pat|] == pat;
    }
  }

  /** Removing a one-char target keeps a leading run that is too short to be one. */
  lemma {:induction false} RemoveRunKeepsShortLead(s: string, pat: string, c: char)
    requires |pat| > 0 && forall i | 0 <= i < |pat| :: pat[i] == c
    requires LeadingRun(s, c) < |pat|
    ensures LeadingRun(ReplaceLiteral(s, pat, ""), c) == LeadingRun(s, c)
    decreases |s|
  {
    if s != [] {
      RunStartsWith(s, pat, c);
      var tail := ReplaceLiteral(s[1..], pat, "");
      var r := [s[0]] + tail;
      assert ReplaceLiteral(s, pat, "") == r;
      assert r[1..] == tail;
      if s[0] == c {
        RemoveRunKeepsShortLead(s[1..], pat, c);
      }
    }
  }

  /** Removing a target made of one repeated char removes it for good: the pieces left on
      either side of a removed occurrence never join into a new one. */
  lemma {:induction false} RemoveRunRemovesAll(s: string, pat: string, c: char)
    requires |pat| > 0 && forall i | 0 <= i < |pat| :: pat[i] == c
    ensures !Contains(ReplaceLiteral(s, pat, ""), pat)
    decreases |s|
  {
    var r := ReplaceLiteral(s, pat, "");
    if s == [] {
    } else if StartsWith(s, pat) {
      RemoveRunRemovesAll(s[|pat|..], pat, c);
      assert r == ReplaceLiteral(s[|pat|..], pat, "");
    } else {
      var tail := ReplaceLiteral(s[1..], pat, "");
      RemoveRunRemovesAll(s[1..], pat, c);
      assert r == [s[0]] + tail;
      forall i | 0 <= i <= |r| ensures !StartsWith(r[i..], pat) {
        if i == 0 {
          RunStartsWith(r, pat, c);
          if s[0] == c {
            RunStartsWith(s, pat, c);
            RemoveRunKeepsShortLead(s[1..], pat, c);
            assert r[1..] == tail;
          }
        } else {
          assert r[i..] == tail[i - 1..];
        }
      }
    }
  }

  /** Trim keeps a contiguous slice of its input. */
  lemma TrimIsSlice(s: string)
    ensures exists a, b | 0 <= a <= b <= |s| :: Trim(s) == s[a..b]
  {
    var a := LeadingTrimmable(s);
    var t := s[a..];
    var b := a + |t| - TrailingTrimmable(t);
    assert Trim(s) == s[a..b];
  }

  /** What a slice contains, the whole string contains. */
  lemma ContainsSlice(s: string, a: int, b: int, p: string)
    requires 0 <= a <= b <= |s| && Contains(s[a..b], p)
    ensures Contains(s, p)
  {
    var i :| 0 <= i <= b - a && StartsWith(s[a..b][i..], p);
    assert |p| <= b - a - i;
    assert s[a + i..][..|p|] == s[a..b][i..][..|p|] by {
      forall k | 0 <= k < |p| ensures s[a + i..][..|p|][k] == s[a..b][i..][..|p|][k] {
        assert s[a + i..][..|p|][k] == s[a + i + k];
        assert s[a..b][i..][..|p|][k] == s[a + i + k];
      }
    }
    assert StartsWith(s[a + i..], p);
  }

  predicate IsAsciiDigit(c: char) {
    '0' <= c <= '9'
  }

  predicate AllDigits(s: string) {
    forall i | 0 <= i < |s| :: IsAsciiDigit(s[i])
  }

  /** The value of a string of decimal digits, most significant first. */
  function DigitsValue(s: string): nat
    requires AllDigits(s)
  {
    if s == [] then 0 else 10 * DigitsValue(s[..|s| - 1]) + (s[|s| - 1] as int - '0' as int)
  }

  /** The pieces between the occurrences of `sep`, empty pieces included. */
  function Pieces(s: string, sep: char): (r: seq<string>)
    ensures |r| >= 1
    ensures forall k | 0 <= k < |r| :: sep !in r[k]
  {
    if s == [] then [[]]
    else
      var rest := Pieces(s[1..], sep);
      if s[0] == sep then [[]] + rest else [[s[0]] + rest[0]] + rest[1..]
  }

  function DropTrailingEmpty(ps: seq<string>): (r: seq<string>)
    ensures |r| <= |ps| && r == ps[..|r|]
    ensures r == [] || r[|r| - 1] != []
  {
    if ps != [] && ps[|ps| - 1] == [] then DropTrailingEmpty(ps[..|ps| - 1]) else ps
  }

  /** String.split around a single ordinary char: the whole string when the separator
      does not occur, otherwise the pieces with trailing empty pieces removed. */
  function Split(s: string, sep: char): (r: seq<string>)
    ensures forall k | 0 <= k < |r| :: sep !in r[k]
    ensures sep !in s ==> r == [s]
    ensures sep in s ==> r == [] || r[|r| - 1] != []
  {
    if sep !in s then [s] else DropTrailingEmpty(Pieces(s, sep))
  }

  /** The pieces glued back together with `sep` between neighbours. */
  function Join(ps: seq<string>, sep: char): string
  {
    if ps == [] then []
    else if |ps| == 1 then ps[0]
    else Join(ps[..|ps| - 1], sep) + [sep] + ps[|ps| - 1]
  }

  /** `s` without its trailing run of `sep`. */
  function TrimTrailing(s: string, sep: char): (r: string)
    ensures |r| <= |s| && r == s[..|r|]
    ensures r == [] || r[|r| - 1] != sep
    ensures forall i | |r| <= i < |s| :: s[i] == sep
  {
    if s != [] && s[|s| - 1] == sep then TrimTrailing(s[..|s| - 1], sep) else s
  }

  lemma {:induction false} JoinCons(p: string, ps: seq<string>, sep: char)
    requires ps != []
    ensures Join([p] + ps, sep) == p + [sep] + Join(ps, sep)
    decreases |ps|
  {
    if |ps| == 1 {
      assert ([p] + ps)[..1] == [p];
    } else {
      var init := ps[..|ps| - 1];
      assert ([p] + ps)[..|ps|] == [p] + init;
      JoinCons(p, init, sep);
    }
  }

  /** Gluing the pieces back together gives the string again. */
  lemma {:induction false} JoinPieces(s: string, sep: char)
    ensures Join(Pieces(s, sep), sep) == s
  {
    if s != [] {
      var rest := Pieces(s[1..], sep);
      JoinPieces(s[1..], sep);
      assert s == [s[0]] + s[1..];
      if s[0] == sep {
        JoinCons([], rest, sep);
      } else if |rest| == 1 {
        assert Join([[s[0]] + rest[0]], sep) == [s[0]] + rest[0];
      } else {
        JoinHeadExtend(s[0], rest, sep);
      }
    }
  }

  /** Prefixing a char to the first piece prefixes it to the joined string. */
  lemma JoinHeadExtend(c: char, rest: seq<string>, sep: char)
    requires |rest| >= 2
    ensures Join([[c] + rest[0]] + rest[1..], sep) == [c] + Join(rest, sep)
  {
    var tail := rest[1..];
    JoinCons([c] + rest[0], tail, sep);
    JoinCons(rest[0], tail, sep);
    assert [rest[0]] + tail == rest;
  }

  /** Dropping the trailing empty pieces drops exactly the trailing run of separators. */
  lemma {:induction false} JoinDropTrailingEmpty(ps: seq<string>, sep: char)
    requires forall k | 0 <= k < |ps| :: sep !in ps[k]
    ensures Join(DropTrailingEmpty(ps), sep) == TrimTrailing(Join(ps, sep), sep)
    decreases |ps|
  {
    if ps == [] {
    } else if ps[|ps| - 1] != [] {
      var last := ps[|ps| - 1];
      var j := Join(ps, sep);
      assert j[|j| - 1] == last[|last| - 1];
      assert last[|last| - 1] != sep;
    } else if |ps| == 1 {
      assert ps[..0] == [];
    } else {
      var init := ps[..|ps| - 1];
      JoinDropTrailingEmpty(init, sep);
      var j := Join(ps, sep);
      assert j == Join(init, sep) + [sep];
      assert j[..|j| - 1] == Join(init, sep);
    }
  }

  /** String.split loses only the trailing separators: joining its pieces with the
      separator gives back the string up to its trailing run of separators. */
  lemma SplitJoin(s: string, sep: char)
    ensures Join(Split(s, sep), sep) == TrimTrailing(s, sep)
  {
    if sep in s {
      JoinPieces(s, sep);
      JoinDropTrailingEmpty(Pieces(s, sep), sep);
    } else if s != [] {
      assert s[|s| - 1] != sep;
    }
  }
}
