/**
 * The table-of-contents cleanup (`cleanToc`) of the two index services, as the chain
 * of regular-expression and literal rewrites it applies, each written as a
 * left-to-right scan the way java.util.regex finds non-overlapping matches.
 */
module TocSanitizer {
  import opened JavaText

  const NBSP: char := '\U{00A0}'
  const NbspEntity: string := "&nbsp;"

  /** `\s` of java.util.regex without UNICODE_CHARACTER_CLASS: [ \t\n\x0B\f\r]. */
  predicate IsRegexSpace(c: char) {
    c == ' ' || c == '\t' || c == '\n' || c == '\U{000B}' || c == '\U{000C}' || c == '\r'
  }

  /** The first index at or after `i` that does not hold a regex space. */
  function SkipSpaces(s: string, i: nat): (j: nat)
    requires i <= |s|
    ensures i <= j <= |s|
    ensures j == |s| || !IsRegexSpace(s[j])
    decreases |s| - i
  {
    if i < |s| && IsRegexSpace(s[i]) then SkipSpaces(s, i + 1) else i
  }

  /** Length of the match of `(?i)<br\s*\/?>` at the start of `s`, or 0 when it does not
      match there. `(?i)` folds ASCII letters only. */
  function BreakTagLength(s: string): (n: nat)
    ensures n <= |s|
    ensures n > 0 ==> n >= 4 && s[0] == '<' && s[n - 1] == '>'
  {
    if |s| >= 3 && s[0] == '<' && (s[1] == 'b' || s[1] == 'B') && (s[2] == 'r' || s[2] == 'R') then
      var j := SkipSpaces(s, 3);
      var k := if j < |s| && s[j] == '/' then j + 1 else j;
      if k < |s| && s[k] == '>' then k + 1 else 0
    else 0
  }

  /** Step 1: replaceAll("(?i)<br\\s*\/?>", "\n"). */
  function ReplaceBreaks(s: string): string
    decreases |s|
  {
    if s == [] then []
    else if BreakTagLength(s) > 0 then "\n" + ReplaceBreaks(s[BreakTagLength(s)..])
    else [s[0]] + ReplaceBreaks(s[1..])
  }

  /** Index of the first '>' in `s`. */
  function IndexOfClose(s: string): (k: nat)
    requires '>' in s
    ensures k < |s| && s[k] == '>' && '>' !in s[..k]
  {
    if s[0] == '>' then 0 else 1 + IndexOfClose(s[1..])
  }

  /** Step 2: replaceAll("<[^>]*>", ""). A '<' opens a match exactly when some '>'
      follows it; the match ends at the first such '>'. */
  function StripTags(s: string): string
    decreases |s|
  {
    if s == [] then []
    else if s[0] == '<' && '>' in s[1..] then StripTags(s[1..][IndexOfClose(s[1..]) + 1..])
    else [s[0]] + StripTags(s[1..])
  }

  /** Step 3: replace(" ", " "). */
  function ReplaceNbsp(s: string): (r: string)
    ensures |r| == |s|
    ensures forall i | 0 <= i < |s| :: r[i] == (if s[i] == NBSP then ' ' else s[i])
  {
    seq(|s|, i requires 0 <= i < |s| => if s[i] == NBSP then ' ' else s[i])
  }

  /** Step 5: replaceAll("\\n+", "\n"): each run of newlines becomes one newline. */
  function CollapseNewlines(s: string): string
    decreases |s|
  {
    if |s| <= 1 then s
    else if s[0] == '\n' && s[1] == '\n' then CollapseNewlines(s[1..])
    else [s[0]] + CollapseNewlines(s[1..])
  }

  /** cleanToc of BookIndexServiceImpl: steps 1-3, then replace("&nbsp;", " "), then
      steps 5 and trim. What it returns has no tags left (so no `<br>`), no U+00A0,
      no "&nbsp;", no two adjacent newlines, and no leading or trailing char that
      String.trim removes. */
  function CleanToc(raw: string): (r: string)
    ensures Clean(r)
    ensures !Contains(r, NbspEntity)
  {
    var s2 := StripTags(ReplaceBreaks(raw));
    StripTagsTagFree(ReplaceBreaks(raw));
    var s3 := ReplaceNbsp(s2);
    ReplaceNbspTagFree(s2);
    var s4 := ReplaceLiteral(s3, NbspEntity, " ");
    ReplaceEntityTagFree(s3);
    ReplaceLiteralChars(s3, NbspEntity, " ");
    ReplaceLiteralRemovesAll(s3, NbspEntity, " ");
    var s5 := CollapseNewlines(s4);
    CollapseNewlinesTagFree(s4);
    CollapseNewlinesChars(s4);
    CollapseNewlinesNoDouble(s4);
    CollapseNewlinesNoEntity(s4);
    TrimKeeps(s5);
    TrimNoEntity(s5);
    Trim(s5)
  }

  /** cleanToc of the older BookIndexService: the same chain without the "&nbsp;" step.
      It promises the same shape, except that "&nbsp;" may survive. */
  function CleanTocLegacy(raw: string): (r: string)
    ensures Clean(r)
  {
    var s2 := StripTags(ReplaceBreaks(raw));
    StripTagsTagFree(ReplaceBreaks(raw));
    var s3 := ReplaceNbsp(s2);
    ReplaceNbspTagFree(s2);
    var s5 := CollapseNewlines(s3);
    CollapseNewlinesTagFree(s3);
    CollapseNewlinesChars(s3);
    CollapseNewlinesNoDouble(s3);
    TrimKeeps(s5);
    Trim(s5)
  }

  // ---------------------------------------------------------------------------
  // The shape of a cleaned text

  /** No '<' is followed, anywhere later, by a '>': nothing is left that `<[^>]*>`
      (or a `<br>` tag) could match. */
  predicate TagFree(s: string) {
    forall i, j | 0 <= i < j < |s| :: s[i] == '<' ==> s[j] != '>'
  }

  /** Everything the two services promise of a cleaned table of contents. */
  predicate Clean(s: string) {
    && TagFree(s)
    && NBSP !in s
    && !Contains(s, "\n\n")
    && Trimmed(s)
  }

  lemma TagFreeSlice(s: string, a: nat, b: nat)
    requires TagFree(s) && a <= b <= |s|
    ensures TagFree(s[a..b])
  {
    forall i, j | 0 <= i < j < b - a && s[a..b][i] == '<' ensures s[a..b][j] != '>' {
      assert s[a..b][i] == s[a + i] && s[a..b][j] == s[a + j];
    }
  }

  lemma TagFreeCons(c: char, t: string)
    requires TagFree(t) && (c == '<' ==> '>' !in t)
    ensures TagFree([c] + t)
  {
    var s := [c] + t;
    forall i, j | 0 <= i < j < |s| && s[i] == '<' ensures s[j] != '>' {
      assert s[j] == t[j - 1];
      if i > 0 {
        assert s[i] == t[i - 1];
      }
    }
  }

  lemma TagFreeConcat(a: string, b: string)
    requires TagFree(a) && TagFree(b) && '<' !in a
    ensures TagFree(a + b)
  {
    var s := a + b;
    forall i, j | 0 <= i < j < |s| && s[i] == '<' ensures s[j] != '>' {
      if i >= |a| {
        assert s[i] == b[i - |a|] && s[j] == b[j - |a|];
      }
    }
  }

  lemma {:induction false} StripTagsChars(s: string)
    ensures forall c | c in StripTags(s) :: c in s
    decreases |s|
  {
    if s == [] {
    } else if s[0] == '<' && '>' in s[1..] {
      var rest := s[1..][IndexOfClose(s[1..]) + 1..];
      StripTagsChars(rest);
      forall c | c in rest ensures c in s {
        var i :| 0 <= i < |rest| && rest[i] == c;
        assert c == s[IndexOfClose(s[1..]) + 2 + i];
      }
    } else {
      StripTagsChars(s[1..]);
    }
  }

  /** Tag stripping leaves no '<' before a '>': a '<' it keeps has no '>' after it. */
  lemma {:induction false} StripTagsTagFree(s: string)
    ensures TagFree(StripTags(s))
    decreases |s|
  {
    if s == [] {
    } else if s[0] == '<' && '>' in s[1..] {
      StripTagsTagFree(s[1..][IndexOfClose(s[1..]) + 1..]);
    } else {
      StripTagsTagFree(s[1..]);
      StripTagsChars(s[1..]);
      TagFreeCons(s[0], StripTags(s[1..]));
    }
  }

  lemma {:induction false} CollapseNewlinesChars(s: string)
    ensures forall c | c in CollapseNewlines(s) :: c in s
    ensures |s| > 0 ==> |CollapseNewlines(s)| > 0 && CollapseNewlines(s)[0] == s[0]
    decreases |s|
  {
    if |s| > 1 {
      CollapseNewlinesChars(s[1..]);
    }
  }

  /** After collapsing, no two newlines are adjacent. */
  lemma {:induction false} CollapseNewlinesNoDouble(s: string)
    ensures !Contains(CollapseNewlines(s), "\n\n")
    decreases |s|
  {
    var r := CollapseNewlines(s);
    if |s| <= 1 {
      assert r == s;
      forall i | 0 <= i <= |r| ensures !StartsWith(r[i..], "\n\n") {
      }
    } else if s[0] == '\n' && s[1] == '\n' {
      CollapseNewlinesNoDouble(s[1..]);
    } else {
      var tail := CollapseNewlines(s[1..]);
      CollapseNewlinesNoDouble(s[1..]);
      CollapseNewlinesChars(s[1..]);
      assert r == [s[0]] + tail;
      forall i | 0 <= i <= |r| ensures !StartsWith(r[i..], "\n\n") {
        if i > 0 {
          assert r[i..] == tail[i - 1..];
          assert !StartsWith(tail[i - 1..], "\n\n");
        } else if |r| >= 2 {
          assert tail[0] == s[1] && r[0..] == r;
          assert r[..2] == [s[0], s[1]];
        }
      }
    }
  }

  lemma {:induction false} CollapseNewlinesTagFree(s: string)
    requires TagFree(s)
    ensures TagFree(CollapseNewlines(s))
    decreases |s|
  {
    if |s| > 1 {
      TagFreeSlice(s, 1, |s|);
      CollapseNewlinesTagFree(s[1..]);
      if !(s[0] == '\n' && s[1] == '\n') {
        CollapseNewlinesChars(s[1..]);
        if s[0] == '<' {
          forall j | 0 <= j < |s[1..]| ensures s[1..][j] != '>' {
            assert s[1..][j] == s[j + 1];
          }
        }
        TagFreeCons(s[0], CollapseNewlines(s[1..]));
      }
    }
  }

  /** Replacing "&nbsp;" by a space neither creates a '<' nor moves one past a '>'. */
  lemma {:induction false} ReplaceEntityTagFree(s: string)
    requires TagFree(s)
    ensures TagFree(ReplaceLiteral(s, NbspEntity, " "))
    decreases |s|
  {
    if s == [] {
    } else if StartsWith(s, NbspEntity) {
      TagFreeSlice(s, |NbspEntity|, |s|);
      ReplaceEntityTagFree(s[|NbspEntity|..]);
      TagFreeConcat(" ", ReplaceLiteral(s[|NbspEntity|..], NbspEntity, " "));
    } else {
      TagFreeSlice(s, 1, |s|);
      ReplaceEntityTagFree(s[1..]);
      ReplaceLiteralChars(s[1..], NbspEntity, " ");
      if s[0] == '<' {
        forall j | 0 <= j < |s[1..]| ensures s[1..][j] != '>' {
          assert s[1..][j] == s[j + 1];
        }
      }
      TagFreeCons(s[0], ReplaceLiteral(s[1..], NbspEntity, " "));
    }
  }

  lemma ReplaceNbspTagFree(s: string)
    requires TagFree(s)
    ensures TagFree(ReplaceNbsp(s)) && NBSP !in ReplaceNbsp(s)
  {
  }

  lemma NoDoubleNewlineSlice(s: string, a: nat, b: nat)
    requires !Contains(s, "\n\n") && a <= b <= |s|
    ensures !Contains(s[a..b], "\n\n")
  {
    forall i | 0 <= i <= b - a ensures !StartsWith(s[a..b][i..], "\n\n") {
      assert !StartsWith(s[a + i..], "\n\n");
      if i + 2 <= b - a {
        assert s[a..b][i..][..2] == s[a + i..][..2];
      }
    }
  }

  lemma TrimKeeps(s: string)
    requires TagFree(s) && NBSP !in s && !Contains(s, "\n\n")
    ensures Clean(Trim(s))
  {
    TrimProperties(s);
    var a := LeadingTrimmable(s);
    var t := s[a..];
    var b := |t| - TrailingTrimmable(t);
    var u := s[a..a + b];
    assert Trim(s) == u;
    TagFreeSlice(s, a, a + b);
    NoDoubleNewlineSlice(s, a, a + b);
    NoCharSlice(s, a, a + b, NBSP);
    assert Clean(u);
  }

  lemma NoCharSlice(s: string, a: nat, b: nat, ch: char)
    requires ch !in s && a <= b <= |s|
    ensures ch !in s[a..b]
  {
    forall i | 0 <= i < b - a ensures s[a..b][i] != ch {
      assert s[a..b][i] == s[a + i];
    }
  }

  // ---------------------------------------------------------------------------
  // Output properties

  /** Collapsing newlines cannot assemble "&nbsp;", which holds no newline. */
  lemma {:induction false} CollapseNewlinesNoEntity(s: string)
    requires !Contains(s, NbspEntity)
    ensures !Contains(CollapseNewlines(s), NbspEntity)
    decreases |s|
  {
    var r := CollapseNewlines(s);
    if |s| > 1 {
      var tail := CollapseNewlines(s[1..]);
      assert !Contains(s[1..], NbspEntity) by {
        forall i | 0 <= i <= |s[1..]| ensures !StartsWith(s[1..][i..], NbspEntity) {
          assert s[1..][i..] == s[i + 1..];
        }
      }
      CollapseNewlinesNoEntity(s[1..]);
      if !(s[0] == '\n' && s[1] == '\n') {
        assert r == [s[0]] + tail;
        forall i | 0 <= i <= |r| ensures !StartsWith(r[i..], NbspEntity) {
          if i > 0 {
            assert r[i..] == tail[i - 1..];
          } else {
            CollapsePrefixEntity(s);
            assert r[0..] == r && s[0..] == s;
          }
        }
      }
    }
  }

  /** If the collapsed text starts with "&nbsp;" so does the original: the only chars a
      collapse drops are newlines, and "&nbsp;" has none. */
  lemma {:induction false} CollapsePrefixEntity(s: string)
    ensures StartsWith(CollapseNewlines(s), NbspEntity) ==> StartsWith(s, NbspEntity)
  {
    var r := CollapseNewlines(s);
    if |s| > 1 && StartsWith(r, NbspEntity) {
      if s[0] == '\n' && s[1] == '\n' {
        CollapseNewlinesChars(s[1..]);
      } else {
        var tail := CollapseNewlines(s[1..]);
        assert r == [s[0]] + tail;
        CollapseKeepsWord(s[1..], "nbsp;");
        assert tail[..5] == r[1..6] == "nbsp;";
        assert s[..6] == [s[0]] + s[1..][..5];
      }
    }
  }

  /** A word without newlines at the head of a collapsed text stands at the head of the
      original. */
  lemma {:induction false} CollapseKeepsWord(t: string, w: string)
    requires '\n' !in w
    ensures StartsWith(CollapseNewlines(t), w) ==> StartsWith(t, w)
    decreases |w|
  {
    var r := CollapseNewlines(t);
    if |w| > 0 && StartsWith(r, w) {
      assert w[0] in w;
      if |t| <= 1 {
      } else if t[0] == '\n' && t[1] == '\n' {
        CollapseNewlinesChars(t[1..]);
      } else {
        var tail := CollapseNewlines(t[1..]);
        assert r == [t[0]] + tail;
        assert '\n' !in w[1..] by {
          forall j | 0 <= j < |w[1..]| ensures w[1..][j] != '\n' {
            assert w[1..][j] == w[j + 1] && w[j + 1] in w;
          }
        }
        assert tail[..|w| - 1] == r[1..|w|] == w[1..];
        CollapseKeepsWord(t[1..], w[1..]);
        assert t[..|w|] == [t[0]] + t[1..][..|w| - 1];
      }
    }
  }

  lemma TrimNoEntity(s: string)
    requires !Contains(s, NbspEntity)
    ensures !Contains(Trim(s), NbspEntity)
  {
    var a := LeadingTrimmable(s);
    var t := s[a..];
    var b := |t| - TrailingTrimmable(t);
    var r := Trim(s);
    assert r == s[a..a + b];
    forall i | 0 <= i <= |r| ensures !StartsWith(r[i..], NbspEntity) {
      assert !StartsWith(s[a + i..], NbspEntity);
      if i + 6 <= |r| {
        assert r[i..][..6] == s[a + i..][..6];
      }
    }
  }

  // ---------------------------------------------------------------------------
  // Idempotence

  lemma {:induction false} ReplaceBreaksTagFree(s: string)
    requires TagFree(s)
    ensures ReplaceBreaks(s) == s
    decreases |s|
  {
    if s != [] {
      TagFreeSlice(s, 1, |s|);
      ReplaceBreaksTagFree(s[1..]);
    }
  }

  lemma {:induction false} StripTagsTagFreeIdentity(s: string)
    requires TagFree(s)
    ensures StripTags(s) == s
    decreases |s|
  {
    if s != [] {
      TagFreeSlice(s, 1, |s|);
      StripTagsTagFreeIdentity(s[1..]);
    }
  }

  lemma ReplaceNbspIdentity(s: string)
    requires NBSP !in s
    ensures ReplaceNbsp(s) == s
  {
  }

  lemma {:induction false} CollapseNewlinesIdentity(s: string)
    requires !Contains(s, "\n\n")
    ensures CollapseNewlines(s) == s
    decreases |s|
  {
    if |s| > 1 {
      assert !StartsWith(s[0..], "\n\n");
      assert s[0..] == s;
      NoDoubleNewlineSlice(s, 1, |s|);
      assert s[1..|s|] == s[1..];
      CollapseNewlinesIdentity(s[1..]);
    }
  }

  /** Every step of the chain leaves a clean text as it is. */
  lemma CleanIsFixedPoint(s: string)
    requires Clean(s) && !Contains(s, NbspEntity)
    ensures CleanToc(s) == s
  {
    ReplaceBreaksTagFree(s);
    StripTagsTagFreeIdentity(s);
    ReplaceNbspIdentity(s);
    ReplaceLiteralAbsent(s, NbspEntity, " ");
    CollapseNewlinesIdentity(s);
    TrimProperties(s);
  }

  /** cleanToc is idempotent: cleaning a cleaned table of contents changes nothing. */
  lemma CleanTocIdempotent(raw: string)
    ensures CleanToc(CleanToc(raw)) == CleanToc(raw)
  {
    CleanIsFixedPoint(CleanToc(raw));
  }

  /** The older cleanToc is idempotent too. */
  lemma CleanTocLegacyIdempotent(raw: string)
    ensures CleanTocLegacy(CleanTocLegacy(raw)) == CleanTocLegacy(raw)
  {
    var s := CleanTocLegacy(raw);
    ReplaceBreaksTagFree(s);
    StripTagsTagFreeIdentity(s);
    ReplaceNbspIdentity(s);
    CollapseNewlinesIdentity(s);
    TrimProperties(s);
  }

  // ---------------------------------------------------------------------------
  // The two versions compared

  lemma {:induction false} ReplaceBreaksChars(s: string)
    ensures forall c | c in ReplaceBreaks(s) :: c in s || c == '\n'
    decreases |s|
  {
    if s != [] {
      var n := BreakTagLength(s);
      var rest := if n > 0 then s[n..] else s[1..];
      ReplaceBreaksChars(rest);
      forall c | c in rest ensures c in s {
        var i :| 0 <= i < |rest| && rest[i] == c;
        assert c == s[|s| - |rest| + i];
      }
    }
  }

  /** Where the raw text holds no '&', the newer cleanToc and the older one agree: the
      "&nbsp;" step is the only difference between them. */
  lemma CleanTocVersionsAgree(raw: string)
    requires '&' !in raw
    ensures CleanToc(raw) == CleanTocLegacy(raw)
  {
    var s1 := ReplaceBreaks(raw);
    ReplaceBreaksChars(raw);
    var s2 := StripTags(s1);
    StripTagsChars(s1);
    var s3 := ReplaceNbsp(s2);
    assert '&' !in s3 by {
      forall i | 0 <= i < |s3| ensures s3[i] != '&' {
        assert s2[i] in s2;
      }
    }
    AbsentHead(s3, NbspEntity);
    ReplaceLiteralAbsent(s3, NbspEntity, " ");
  }

  /** The older cleanToc leaves an "&nbsp;" entity in place, where the newer one turns it
      into a space (CleanTocEntity). */
  lemma CleanTocLegacyKeepsEntity(a: string, b: string)
    requires PlainText(a) && PlainText(b)
    requires |a| > 0 && !IsTrimmable(a[0]) && |b| > 0 && !IsTrimmable(b[|b| - 1])
    ensures CleanTocLegacy(a + NbspEntity + b) == a + NbspEntity + b
  {
    PlainTextMembers(a);
    PlainTextMembers(b);
    var x := a + NbspEntity + b;
    assert '<' !in x && NBSP !in x && '\n' !in x;
    NoTagsNoNbsp(x);
    AbsentHead(x, "\n\n");
    CollapseNewlinesIdentity(x);
    assert x[0] == a[0] && x[|x| - 1] == b[|b| - 1];
    TrimProperties(x);
  }

  // ---------------------------------------------------------------------------
  // Worked examples from the services' tests

  lemma NoOpenTail(a: string)
    requires |a| > 0 && '<' !in a
    ensures a[0] != '<' && '<' !in a[1..]
  {
    assert a[0] in a;
    forall ch | ch in a[1..] ensures ch != '<' {
      var k :| 0 <= k < |a[1..]| && a[1..][k] == ch;
      assert a[k + 1] == ch;
    }
  }

  /** Text without a '<' passes through the break rewrite unchanged. */
  lemma {:induction false} PlainTextBreaks(a: string, b: string)
    requires '<' !in a
    ensures ReplaceBreaks(a + b) == a + ReplaceBreaks(b)
    decreases |a|
  {
    if a != [] {
      var s := a + b;
      NoOpenTail(a);
      assert s[0] == a[0] && s[1..] == a[1..] + b;
      assert BreakTagLength(s) == 0;
      assert ReplaceBreaks(s) == [a[0]] + ReplaceBreaks(a[1..] + b);
      PlainTextBreaks(a[1..], b);
      assert a == [a[0]] + a[1..];
      assert [a[0]] + (a[1..] + ReplaceBreaks(b)) == ([a[0]] + a[1..]) + ReplaceBreaks(b);
    } else {
      assert a + b == b;
    }
  }

  /** Text without a '<' passes through tag stripping unchanged. */
  lemma {:induction false} PlainTextTags(a: string, b: string)
    requires '<' !in a
    ensures StripTags(a + b) == a + StripTags(b)
    decreases |a|
  {
    if a != [] {
      var s := a + b;
      NoOpenTail(a);
      assert s[0] == a[0] && s[1..] == a[1..] + b;
      assert StripTags(s) == [a[0]] + StripTags(a[1..] + b);
      PlainTextTags(a[1..], b);
      assert a == [a[0]] + a[1..];
      assert [a[0]] + (a[1..] + StripTags(b)) == ([a[0]] + a[1..]) + StripTags(b);
    } else {
      assert a + b == b;
    }
  }

  lemma PlainTextBoth(a: string, b: string)
    requires '<' !in a
    ensures ReplaceBreaks(a + b) == a + ReplaceBreaks(b)
    ensures StripTags(a + b) == a + StripTags(b)
  {
    PlainTextBreaks(a, b);
    PlainTextTags(a, b);
  }

  lemma SampleCloseTag()
    ensures ReplaceBreaks("</b>") == "</b>" && StripTags("</b>") == []
  {
    var c := "</b>";
    assert BreakTagLength(c) == 0;
    assert c[1..] == "/b>";
    assert "/b>"[1..] == "b>";
    assert "b>"[1..] == ">";
    assert ReplaceBreaks(">") == ">";
    assert ReplaceBreaks("b>") == "b>";
    assert ReplaceBreaks("/b>") == "/b>";
    assert IndexOfClose(c[1..]) == 2;
  }

  lemma BoldTagKept(rest: string)
    requires ReplaceBreaks(rest) == rest
    ensures ReplaceBreaks("<b>" + rest) == "<b>" + rest
  {
    var t := "<b>" + rest;
    assert t[2] == '>';
    assert BreakTagLength(t) == 0;
    assert t[1..] == "b>" + rest;
    PlainTextBreaks("b>", rest);
  }

  lemma BoldTagStripped(rest: string)
    ensures StripTags("<b>" + rest) == StripTags(rest)
  {
    var t := "<b>" + rest;
    assert t[1..][1] == '>';
    assert IndexOfClose(t[1..]) == 1;
    assert t[1..][2..] == rest;
  }

  lemma BreakTag(b: string)
    ensures ReplaceBreaks("<br>" + b) == "\n" + ReplaceBreaks(b)
  {
    var t := "<br>" + b;
    assert t[0] == '<' && t[1] == 'b' && t[2] == 'r' && t[3] == '>';
    assert SkipSpaces(t, 3) == 3;
    assert BreakTagLength(t) == 4;
    assert t[4..] == b;
  }

  /** A text containing `p[0]` nowhere contains `p`. */
  lemma AbsentHead(s: string, p: string)
    requires |p| > 0 && p[0] !in s
    ensures !Contains(s, p)
  {
    forall i | 0 <= i <= |s| ensures !StartsWith(s[i..], p) {
      if i < |s| {
        assert s[i..][0] == s[i];
      }
    }
  }

  lemma CloseTagAfterPlain(c: string)
    requires '<' !in c
    ensures ReplaceBreaks(c + "</b>") == c + "</b>"
  {
    SampleCloseTag();
    PlainTextBoth(c, "</b>");
  }

  lemma BoldPairVanishes(c: string)
    requires '<' !in c
    ensures StripTags("<b>" + (c + "</b>")) == c
  {
    BoldTagStripped(c + "</b>");
    SampleCloseTag();
    PlainTextTags(c, "</b>");
  }

  /** The two groupings of the sample's pieces the proofs below move between. */
  lemma RegroupBreakAndBold(a: string, b: string, c: string)
    ensures a + ("\n" + (b + ("<b>" + (c + "</b>")))) == a + "\n" + b + "<b>" + c + "</b>"
    ensures a + "\n" + b + "<b>" + c + "</b>" == (a + "\n" + b) + ("<b>" + (c + "</b>"))
    ensures a + "<br>" + b + "<b>" + c + "</b>" == a + ("<br>" + (b + ("<b>" + (c + "</b>"))))
  {
  }

  lemma BreaksOfBreakAndBold(a: string, b: string, c: string)
    requires '<' !in a && '<' !in b && '<' !in c
    ensures ReplaceBreaks(a + ("<br>" + (b + ("<b>" + (c + "</b>"))))) == a + "\n" + b + "<b>" + c + "</b>"
  {
    var r1 := c + "</b>";
    CloseTagAfterPlain(c);
    var r2 := "<b>" + r1;
    BoldTagKept(r1);
    var r3 := b + r2;
    PlainTextBreaks(b, r2);
    var r4 := "<br>" + r3;
    BreakTag(r3);
    PlainTextBreaks(a, r4);
    RegroupBreakAndBold(a, b, c);
  }

  lemma TagsOfBreakAndBold(a: string, b: string, c: string)
    requires '<' !in a && '<' !in b && '<' !in c
    ensures StripTags(a + "\n" + b + "<b>" + c + "</b>") == a + "\n" + b + c
  {
    var z := a + "\n" + b;
    assert '<' !in z;
    BoldPairVanishes(c);
    PlainTextTags(z, "<b>" + (c + "</b>"));
    RegroupBreakAndBold(a, b, c);
  }

  lemma TagStepsBreakAndBold(a: string, b: string, c: string)
    requires '<' !in a && '<' !in b && '<' !in c
    ensures StripTags(ReplaceBreaks(a + "<br>" + b + "<b>" + c + "</b>")) == a + "\n" + b + c
  {
    RegroupBreakAndBold(a, b, c);
    BreaksOfBreakAndBold(a, b, c);
    TagsOfBreakAndBold(a, b, c);
  }

  /** A text without U+00A0, '&' or a doubled newline, with no trimmable char at either
      end, is left as it is by the steps that follow tag stripping. */
  lemma PlainTextTail(y: string)
    requires NBSP !in y && '&' !in y && !Contains(y, "\n\n") && Trimmed(y)
    ensures Trim(CollapseNewlines(ReplaceLiteral(ReplaceNbsp(y), NbspEntity, " "))) == y
  {
    ReplaceNbspIdentity(y);
    AbsentHead(y, NbspEntity);
    ReplaceLiteralAbsent(y, NbspEntity, " ");
    CollapseNewlinesIdentity(y);
    TrimProperties(y);
  }

  /** Text that none of the rewrites touches: no '<', U+00A0, '&' or newline. */
  predicate PlainText(s: string) {
    forall i | 0 <= i < |s| :: s[i] != '<' && s[i] != NBSP && s[i] != '&' && s[i] != '\n'
  }

  lemma PlainTextMembers(s: string)
    requires PlainText(s)
    ensures '<' !in s && NBSP !in s && '&' !in s && '\n' !in s
  {
  }

  /** Joining two newline-free texts with one newline makes no doubled newline. */
  lemma OneNewline(p: string, q: string)
    requires '\n' !in p && '\n' !in q
    ensures !Contains(p + "\n" + q, "\n\n")
  {
    var y := p + "\n" + q;
    forall i | 0 <= i <= |y| ensures !StartsWith(y[i..], "\n\n") {
      if i + 2 <= |y| {
        assert y[i..][..2] == [y[i], y[i + 1]];
        if i < |p| {
          assert y[i] == p[i] && p[i] in p;
        } else {
          assert y[i + 1] == q[i - |p|] && q[i - |p|] in q;
        }
      }
    }
  }

  /** Plain text around a `<br>` and a `<b>…</b>` pair: the break becomes a line break
      and the bold tags vanish, as in the sample of BookIndexServiceImplTest. */
  lemma CleanTocBreakAndBold(a: string, b: string, c: string)
    requires PlainText(a) && PlainText(b) && PlainText(c)
    requires |a| > 0 && !IsTrimmable(a[0]) && |c| > 0 && !IsTrimmable(c[|c| - 1])
    ensures CleanToc(a + "<br>" + b + "<b>" + c + "</b>") == a + "\n" + b + c
  {
    PlainTextMembers(a);
    PlainTextMembers(b);
    PlainTextMembers(c);
    TagStepsBreakAndBold(a, b, c);
    var y := a + "\n" + b + c;
    assert y == a + "\n" + (b + c);
    OneNewline(a, b + c);
    assert NBSP !in y && '&' !in y;
    assert y[0] == a[0] && y[|y| - 1] == c[|c| - 1];
    PlainTextTail(y);
  }

  /** Text that holds no char of the target's head passes through a literal replacement. */
  lemma {:induction false} ReplaceLiteralPlainPrefix(a: string, r: string, pat: string, rep: string)
    requires |pat| > 0 && pat[0] !in a
    ensures ReplaceLiteral(a + r, pat, rep) == a + ReplaceLiteral(r, pat, rep)
    decreases |a|
  {
    if a == [] {
      assert a + r == r;
    } else {
      var s := a + r;
      assert a[0] in a && s[0] == a[0] && s[1..] == a[1..] + r;
      assert pat[0] !in a[1..] by {
        forall ch | ch in a[1..] ensures ch != pat[0] {
          var k :| 0 <= k < |a[1..]| && a[1..][k] == ch;
          assert a[k + 1] == ch;
        }
      }
      ReplaceLiteralPlainPrefix(a[1..], r, pat, rep);
      assert a == [a[0]] + a[1..];
      assert [a[0]] + (a[1..] + ReplaceLiteral(r, pat, rep)) == ([a[0]] + a[1..]) + ReplaceLiteral(r, pat, rep);
    }
  }

  /** Text without a '<' or U+00A0 passes the first three steps unchanged. */
  lemma NoTagsNoNbsp(x: string)
    requires '<' !in x && NBSP !in x
    ensures ReplaceNbsp(StripTags(ReplaceBreaks(x))) == x
  {
    PlainTextBoth(x, []);
    assert x + [] == x;
    assert ReplaceBreaks([]) == [] && StripTags([]) == [];
    ReplaceNbspIdentity(x);
  }

  lemma EntityReplaced(a: string, b: string)
    requires '&' !in a && '&' !in b
    ensures ReplaceLiteral(a + NbspEntity + b, NbspEntity, " ") == a + " " + b
  {
    ReplaceLiteralPlainPrefix(a, NbspEntity + b, NbspEntity, " ");
    assert a + NbspEntity + b == a + (NbspEntity + b);
    var t := NbspEntity + b;
    assert StartsWith(t, NbspEntity) && t[|NbspEntity|..] == b;
    AbsentHead(b, NbspEntity);
    ReplaceLiteralAbsent(b, NbspEntity, " ");
  }

  /** The char-level facts about an entity between plain texts. */
  lemma EntityPieces(a: string, b: string)
    requires PlainText(a) && PlainText(b)
    requires |a| > 0 && !IsTrimmable(a[0]) && |b| > 0 && !IsTrimmable(b[|b| - 1])
    ensures '<' !in a + NbspEntity + b && NBSP !in a + NbspEntity + b
    ensures '&' !in a && '&' !in b
    ensures !Contains(a + " " + b, "\n\n") && Trimmed(a + " " + b)
  {
    PlainTextMembers(a);
    PlainTextMembers(b);
    var y := a + " " + b;
    assert '\n' !in y;
    AbsentHead(y, "\n\n");
    assert y[0] == a[0] && y[|y| - 1] == b[|b| - 1];
  }

  /** An "&nbsp;" entity between plain texts becomes a single space. */
  lemma CleanTocEntity(a: string, b: string)
    requires PlainText(a) && PlainText(b)
    requires |a| > 0 && !IsTrimmable(a[0]) && |b| > 0 && !IsTrimmable(b[|b| - 1])
    ensures CleanToc(a + NbspEntity + b) == a + " " + b
  {
    EntityPieces(a, b);
    NoTagsNoNbsp(a + NbspEntity + b);
    EntityReplaced(a, b);
    CollapseNewlinesIdentity(a + " " + b);
    TrimProperties(a + " " + b);
  }

  /** The pieces of the entity sample. */
  lemma EntitySamplePieces(raw: string, a: string, b: string)
    requires raw == "Chapter 1.&nbsp;Start" && a == raw[..10] && b == raw[16..]
    ensures PlainText(a) && PlainText(b) && |a| > 0 && |b| > 0
    ensures !IsTrimmable(a[0]) && !IsTrimmable(b[|b| - 1])
    ensures raw == a + NbspEntity + b && a + " " + b == "Chapter 1. Start"
  {
    assert a == "Chapter 1." && b == "Start";
  }

  /** The entity sample of BookIndexServiceImplTest. */
  lemma CleanTocEntitySample(raw: string)
    requires raw == "Chapter 1.&nbsp;Start"
    ensures CleanToc(raw) == "Chapter 1. Start"
  {
    var a, b := raw[..10], raw[16..];
    EntitySamplePieces(raw, a, b);
    CleanTocEntity(a, b);
  }

  /** The pieces of the break-and-bold sample. */
  lemma SamplePieces(raw: string, a: string, b: string, c: string)
    requires raw == "1. 서론<br>2. 본론<b>중요</b>"
    requires a == raw[..5] && b == raw[9..14] && c == raw[17..19]
    ensures PlainText(a) && PlainText(b) && PlainText(c) && |a| > 0 && |c| > 0
    ensures !IsTrimmable(a[0]) && !IsTrimmable(c[|c| - 1])
    ensures raw == a + "<br>" + b + "<b>" + c + "</b>"
    ensures a + "\n" + b + c == "1. 서론\n2. 본론중요"
  {
    assert a == "1. 서론" && b == "2. 본론" && c == "중요";
  }

  /** The sample of BookIndexServiceImplTest. */
  lemma CleanTocSample(raw: string)
    requires raw == "1. 서론<br>2. 본론<b>중요</b>"
    ensures CleanToc(raw) == "1. 서론\n2. 본론중요"
  {
    var a, b, c := raw[..5], raw[9..14], raw[17..19];
    SamplePieces(raw, a, b, c);
    CleanTocBreakAndBold(a, b, c);
  }
}
