/**
 * CategoryParser: reads the category CSV (Korean Decimal Classification codes and
 * names) into one category per code, each linked to its parent category. The CSV
 * tokenising is outside the model: the input is the list of lines after the header,
 * each already split into fields. The result is the id-to-category map the parser
 * builds; the list it returns holds that map's values in hash order.
 */
module CategoryParser {
  import opened Wrappers
  import opened JavaText
  import opened JavaNumbers

  /** A category; `parent` is the id of the parent category object, if one was linked. */
  datatype Category = Category(id: int, name: string, parent: Option<int>)

  /** The NumberFormatException Long.parseLong throws for the id field. */
  datatype ParseError = NumberFormat(input: string)

  /** getParentCode: decided on the decimal form of the code, so the leading zeros of
      a code like "010" are gone by then. */
  function GetParentCode(code: int): (r: Option<int>)
    ensures code >= 0 && r.Some? ==> 0 <= r.value <= code && r.value % 10 == 0
  {
    ParentByFormBounds(DecimalString(code), code);
    ParentByForm(DecimalString(code), code)
  }

  /** The rule of getParentCode on the decimal form `s` of `code`. */
  function ParentByForm(s: string, code: int): Option<int> {
    if |s| == 3 && EndsWith(s, "00") then None
    else if |s| == 3 && EndsWith(s, "0") then Some(JavaDiv(code, 100) * 100)
    else Some(JavaDiv(code, 10) * 10)
  }

  /** A line that the filter keeps: two fields or more and a non-blank first field. */
  predicate Accepted(line: seq<string>) {
    |line| >= 2 && Trim(line[0]) != ""
  }

  /** The id Long.parseLong reads from a line's first field. */
  function IdOf(line: seq<string>): Option<int>
    requires |line| >= 1
  {
    ParseLong(Trim(line[0]))
  }

  /** The first pass: each accepted line puts its id and trimmed name into the map, a
      later line replacing an earlier one; the first unparsable id aborts the parse. */
  function CollectNames(lines: seq<seq<string>>): (r: Result<map<int, string>, ParseError>)
    ensures r.Err? ==> exists i | 0 <= i < |lines| ::
      Accepted(lines[i]) && IdOf(lines[i]).None? && r.error == NumberFormat(Trim(lines[i][0]))
  {
    if lines == [] then Ok(map[])
    else
      var k := |lines| - 1;
      match CollectNames(lines[..k])
      case Err(e) =>
        assert forall i | 0 <= i < k :: lines[..k][i] == lines[i];
        Err(e)
      case Ok(names) =>
        var line := lines[k];
        if !Accepted(line) then Ok(names)
        else match IdOf(line)
          case None => Err(NumberFormat(Trim(line[0])))
          case Some(id) => Ok(names[id := Trim(line[1])])
  }

  /** The parent a category is linked to: the map entry for its parent code, and none
      when there is no parent code or no entry for it. */
  function ParentLink(names: map<int, string>, id: int): (p: Option<int>)
    ensures p.Some? ==> p.value in names && GetParentCode(id) == p
    ensures p.None? ==> GetParentCode(id).None? || GetParentCode(id).value !in names
  {
    match GetParentCode(id)
    case None => None
    case Some(code) => if code in names then Some(code) else None
  }

  /** The second pass: every category linked to its parent. */
  function LinkParents(names: map<int, string>): (r: map<int, Category>)
    ensures r.Keys == names.Keys
    ensures forall id | id in r ::
      && r[id].id == id && r[id].name == names[id]
      && (r[id].parent.Some? <==> GetParentCode(id).Some? && GetParentCode(id).value in names)
      && (r[id].parent.Some? ==> r[id].parent == GetParentCode(id))
  {
    map id | id in names :: Category(id, names[id], ParentLink(names, id))
  }

  /** The result of parse: it fails exactly when an accepted line has an unparsable id,
      and otherwise holds one category per id, linked exactly when its parent code is
      an id too. */
  function ParseCategories(lines: seq<seq<string>>): (r: Result<map<int, Category>, ParseError>)
    ensures r.Ok? <==> forall i | 0 <= i < |lines| && Accepted(lines[i]) :: IdOf(lines[i]).Some?
    ensures r.Ok? ==> forall id | id in r.value ::
      && r.value[id].id == id
      && (r.value[id].parent.Some? <==> GetParentCode(id).Some? && GetParentCode(id).value in r.value)
  {
    CollectNamesSucceeds(lines);
    match CollectNames(lines)
    case Err(e) => Err(e)
    case Ok(names) => Ok(LinkParents(names))
  }

  /** parse: the line pass followed by the linking pass over the map's entries. */
  method Parse(lines: seq<seq<string>>) returns (r: Result<map<int, Category>, ParseError>)
    ensures r == ParseCategories(lines)
  {
    var names: map<int, string> := map[];
    var i := 0;
    while i < |lines|
      invariant 0 <= i <= |lines|
      invariant CollectNames(lines[..i]) == Ok(names)
    {
      assert lines[..i + 1][..i] == lines[..i];
      var line := lines[i];
      if |line| >= 2 && Trim(line[0]) != "" {
        var id := ParseLong(Trim(line[0]));
        if id.None? {
          CollectNamesErrorSticks(lines, i + 1);
          return Err(NumberFormat(Trim(line[0])));
        }
        names := names[id.value := Trim(line[1])];
      }
      i := i + 1;
    }
    assert lines[..i] == lines;
    // The linking pass sets every category's parent in one sweep over the map.
    var linked := map id | id in names :: Category(id, names[id], ParentLink(names, id));
    return Ok(linked);
  }

  // ---------------------------------------------------------------------------
  // Properties of the parse

  /** Once a prefix of the lines fails, the whole parse fails with the same error. */
  lemma {:induction false} CollectNamesErrorSticks(lines: seq<seq<string>>, n: nat)
    requires n <= |lines| && CollectNames(lines[..n]).Err?
    ensures CollectNames(lines) == CollectNames(lines[..n])
    decreases |lines| - n
  {
    if n < |lines| {
      assert lines[..n + 1][..n] == lines[..n];
      CollectNamesErrorSticks(lines, n + 1);
    } else {
      assert lines[..n] == lines;
    }
  }

  /** The parse succeeds exactly when every accepted line has a parsable id. */
  lemma {:induction false} CollectNamesSucceeds(lines: seq<seq<string>>)
    ensures CollectNames(lines).Ok? <==>
      forall i | 0 <= i < |lines| && Accepted(lines[i]) :: IdOf(lines[i]).Some?
  {
    if lines != [] {
      var k := |lines| - 1;
      CollectNamesSucceeds(lines[..k]);
      assert forall i | 0 <= i < k :: lines[..k][i] == lines[i];
    }
  }

  /** The first accepted line with an unparsable id is the one reported. */
  lemma {:induction false} CollectNamesFirstError(lines: seq<seq<string>>, i: nat)
    requires i < |lines| && Accepted(lines[i]) && IdOf(lines[i]).None?
    requires forall j | 0 <= j < i && Accepted(lines[j]) :: IdOf(lines[j]).Some?
    ensures CollectNames(lines) == Err(NumberFormat(Trim(lines[i][0])))
  {
    var pre := lines[..i];
    CollectNamesSucceeds(pre);
    assert forall j | 0 <= j < i :: pre[j] == lines[j];
    assert lines[..i + 1][..i] == pre;
    CollectNamesErrorSticks(lines, i + 1);
  }

  /** Line i is the last accepted line with this id. */
  predicate LastWith(lines: seq<seq<string>>, i: int, id: int) {
    0 <= i < |lines| && LineId(lines[i]) == Some(id)
    && forall j | i < j < |lines| :: LineId(lines[j]) != Some(id)
  }

  /** The id a line puts into the map: none when the filter drops the line. */
  function LineId(line: seq<string>): Option<int> {
    if Accepted(line) then IdOf(line) else None
  }

  /** Every accepted line's id is parsed into the map. */
  lemma {:induction false} CollectNamesCovers(lines: seq<seq<string>>)
    requires CollectNames(lines).Ok?
    ensures forall i | 0 <= i < |lines| && Accepted(lines[i]) ::
      IdOf(lines[i]).Some? && IdOf(lines[i]).value in CollectNames(lines).value
  {
    if lines != [] {
      var k := |lines| - 1;
      var pre := lines[..k];
      assert forall i | 0 <= i < k :: pre[i] == lines[i];
      CollectNamesCovers(pre);
    }
  }

  /** Each parsed id comes from an accepted line, and its name is the one on the last
      accepted line with that id. */
  lemma {:induction false} CollectNamesLastWins(lines: seq<seq<string>>)
    requires CollectNames(lines).Ok?
    ensures forall id | id in CollectNames(lines).value ::
      exists i :: LastWith(lines, i, id) && CollectNames(lines).value[id] == Trim(lines[i][1])
  {
    if lines != [] {
      var k := |lines| - 1;
      var pre := lines[..k];
      CollectNamesLastWins(pre);
      var names := CollectNames(pre).value;
      var m := CollectNames(lines).value;
      forall id | id in m
        ensures exists i :: LastWith(lines, i, id) && m[id] == Trim(lines[i][1])
      {
        if Accepted(lines[k]) && IdOf(lines[k]) == Some(id) {
          assert LastWith(lines, k, id);
        } else {
          var i :| LastWith(pre, i, id) && names[id] == Trim(pre[i][1]);
          LastWithExtend(lines, i, id);
        }
      }
    }
  }

  lemma LastWithExtend(lines: seq<seq<string>>, i: int, id: int)
    requires lines != [] && LastWith(lines[..|lines| - 1], i, id)
    requires LineId(lines[|lines| - 1]) != Some(id)
    ensures LastWith(lines, i, id) && lines[i] == lines[..|lines| - 1][i]
  {
    var pre := lines[..|lines| - 1];
    assert lines[i] == pre[i];
    forall j | i < j < |lines| ensures LineId(lines[j]) != Some(id) {
      if j < |pre| {
        assert pre[j] == lines[j];
      }
    }
  }

  // ---------------------------------------------------------------------------
  // Properties of getParentCode

  /** On three-digit codes the rule is the classification's: X00 is top level, XY0
      belongs to X00, and XYZ to XY0. */
  lemma ParentOfThreeDigitCode(code: int)
    requires 100 <= code <= 999
    ensures GetParentCode(code) == None <==> code % 100 == 0
    ensures code % 100 != 0 && code % 10 == 0 ==> GetParentCode(code) == Some(code / 100 * 100)
    ensures code % 10 != 0 ==> GetParentCode(code) == Some(code / 10 * 10)
  {
    var s := DecimalString(code);
    DigitsLength(code);
    DigitsTail(code);
    assert EndsWith(s, "0") <==> s[2] == '0';
    assert EndsWith(s, "00") <==> s[1] == '0' && s[2] == '0';
    assert code % 100 == 0 <==> code % 10 == 0 && (code / 10) % 10 == 0;
  }

  /** For a non-negative code the parent code, whatever the form it is read from, is a
      multiple of 10 no larger than the code. */
  lemma ParentByFormBounds(s: string, code: int)
    ensures code >= 0 && ParentByForm(s, code).Some? ==>
      0 <= ParentByForm(s, code).value <= code && ParentByForm(s, code).value % 10 == 0
  {
    if code >= 0 {
      JavaDivRoundsTowardZero(code, 100);
      JavaDivRoundsTowardZero(code, 10);
      assert JavaDiv(code, 100) * 100 == (JavaDiv(code, 100) * 10) * 10;
    }
  }

  /** A non-negative multiple of 10 that does not have exactly three digits is its own
      parent: 0 and 10 (the codes "000" and "010") among them. */
  lemma SelfParentCodes(code: int)
    requires code >= 0 && code % 10 == 0 && !(100 <= code <= 999)
    ensures GetParentCode(code) == Some(code)
  {
    DigitsLength(code);
  }

  /** The parent code of "010" as the classification intends it: "000". */
  lemma SelfParentSample()
    ensures GetParentCode(10) == Some(10)
    ensures KdcParentCode(10) == Some(0)
  {
    SelfParentCodes(10);
  }

  /** getParentCode as the classification intends it, on the three-digit code whatever
      its leading zeros: X00 is top level, XY0 belongs to X00, XYZ to XY0. */
  function KdcParentCode(code: int): (p: Option<int>)
    requires 0 <= code <= 999
    ensures p.Some? ==> 0 <= p.value < code && p.value % 10 == 0
  {
    if code % 100 == 0 then None
    else if code % 10 == 0 then Some(code / 100 * 100)
    else Some(code / 10 * 10)
  }

  /** With the intended rule, every chain of parents ends at a top-level code within two
      steps, so no category is its own ancestor. */
  lemma KdcParentChainsEnd(code: int)
    requires 0 <= code <= 999
    ensures var p := KdcParentCode(code);
      p.None? || KdcParentCode(p.value).None? || KdcParentCode(KdcParentCode(p.value).value).None?
  {
  }

  /** The code as written agrees with the intended rule on every code from 100 to 999,
      and differs on every multiple of 10 below 100. */
  lemma ParentCodeVersionsAgree(code: int)
    requires 0 <= code <= 999
    ensures 100 <= code ==> GetParentCode(code) == KdcParentCode(code)
    ensures code < 100 && code % 10 == 0 ==> GetParentCode(code) != KdcParentCode(code)
  {
    if 100 <= code {
      ParentOfThreeDigitCode(code);
    } else if code % 10 == 0 {
      SelfParentCodes(code);
    }
  }
}
