/**
 * The `ternary-format` rule: a conditional expression whose branches are not themselves
 * conditionals must be laid out as
 *
 *     condition
 *       ? whenTrue
 *       : whenFalse
 *
 * with the condition two columns right of a reference line's indentation. The rule computes
 * the ideal line/column spans of the five parts, compares them with the actual spans and,
 * when they differ, proposes one replacement that rebuilds the expression's text.
 */
module TernaryFormat {
  import opened Wrappers
  import opened NodeRuleHelpers
  import Util

  const FAILURE_MESSAGE := "Incorrectly formatted ternary operator."

  /** A zero-based line and column, as the compiler reports positions. */
  datatype LineAndCharacter = LineAndCharacter(line: int, character: int)

  datatype StartAndEndInfo = StartAndEndInfo(start: LineAndCharacter, end: LineAndCharacter)

  /** The spans of the five parts of a conditional expression. */
  datatype ConditionalExpressionLineAndCharacterInfo = ConditionalExpressionLineAndCharacterInfo(
    condition: StartAndEndInfo,
    questionToken: StartAndEndInfo,
    whenTrue: StartAndEndInfo,
    colonToken: StartAndEndInfo,
    whenFalse: StartAndEndInfo)

  /** A child of the expression's parent, with its span; `id` stands for node identity. */
  datatype Child = Child(id: int, span: StartAndEndInfo)

  /**
   * What the compiler supplies about one conditional expression: the node among its
   * parent's children, the parts' spans and texts, the length of the whole expression's
   * text, the offset of the condition's start, and whether a branch is itself a conditional.
   */
  datatype ConditionalExpression = ConditionalExpression(
    self: Child,
    siblings: seq<Child>,
    info: ConditionalExpressionLineAndCharacterInfo,
    conditionText: string,
    questionTokenText: string,
    whenTrueText: string,
    colonTokenText: string,
    whenFalseText: string,
    textLength: int,
    conditionStartOffset: int,
    whenTrueIsConditional: bool,
    whenFalseIsConditional: bool)

  /** The nodes the rule is handed. */
  datatype TernaryNode = ConditionalNode(expr: ConditionalExpression) | OtherNode

  /** A line of the source file: its offset and its length without the line break. */
  datatype LineRange = LineRange(pos: int, contentLength: int)

  datatype SourceFile = SourceFile(text: string, lineRanges: seq<LineRange>)

  /**
   * The two ways the rule throws: reading a line before the first (or past the last) one,
   * and repeating a string a negative number of times.
   */
  datatype TernaryError = LineRangeUndefined | NegativeRepeat

  type Violation = InvalidNode<ConditionalExpression>

  /** Lines above and spaces before one part in the rebuilt text. */
  datatype Gap = Gap(linesAbove: int, spacesBefore: int)

  // ---- reference line and indentation ----

  /** The characters JavaScript's `\s` matches. */
  predicate IsJsWhitespace(c: char) {
    c == ' ' || c == '\t' || c == '\n' || c == '\U{B}' || c == '\U{C}' || c == '\r'
    || c == '\U{A0}' || c == '\U{1680}' || '\U{2000}' <= c <= '\U{200A}' || c == '\U{2028}'
    || c == '\U{2029}' || c == '\U{202F}' || c == '\U{205F}' || c == '\U{3000}' || c == '\U{FEFF}'
  }

  /** `line.search(/\S/)`: the index of the first non-whitespace character, or -1. */
  function FirstNonWhitespace(line: string): (r: int)
    ensures -1 <= r < |line|
    ensures r == -1 <==> forall j :: 0 <= j < |line| ==> IsJsWhitespace(line[j])
    ensures r >= 0 ==> !IsJsWhitespace(line[r]) && forall j :: 0 <= j < r ==> IsJsWhitespace(line[j])
  {
    if line == [] then -1
    else if !IsJsWhitespace(line[0]) then 0
    else
      var k := FirstNonWhitespace(line[1..]);
      if k == -1 then -1 else k + 1
  }

  /** The indentation of a line: its leading whitespace, or 0 for a blank line. */
  function Indentation(line: string): (r: nat)
    ensures (forall j :: 0 <= j < |line| ==> IsJsWhitespace(line[j])) ==> r == 0
    ensures (exists j :: 0 <= j < |line| && !IsJsWhitespace(line[j])) ==>
      r < |line| && !IsJsWhitespace(line[r]) && forall j :: 0 <= j < r ==> IsJsWhitespace(line[j])
  {
    var indentEnd := FirstNonWhitespace(line);
    if indentEnd == -1 then 0 else indentEnd
  }

  function Clamp(x: int, len: nat): (r: nat)
    ensures r <= len
  {
    if x < 0 then 0 else if x > len then len else x
  }

  /** JavaScript's `text.substring(a, b)`: both ends clamped to the text, swapped if reversed. */
  function Substring(text: string, a: int, b: int): (r: string)
    ensures |r| <= |text|
    ensures 0 <= a <= b <= |text| ==> r == text[a..b]
  {
    var s, e := Clamp(a, |text|), Clamp(b, |text|);
    if s <= e then text[s..e] else text[e..s]
  }

  /** The index of the reference line: the condition's own line, or the line above it. */
  function ReferenceLineIndex(info: ConditionalExpressionLineAndCharacterInfo, conditionOnSameLine: bool): int {
    if conditionOnSameLine then info.condition.start.line else info.condition.start.line - 1
  }

  /** The reference line's text; an index outside the file's lines throws. */
  function ReferenceLine(file: SourceFile, info: ConditionalExpressionLineAndCharacterInfo,
                         conditionOnSameLine: bool): (r: Result<string, TernaryError>)
    ensures var i := ReferenceLineIndex(info, conditionOnSameLine);
      (r.Ok? <==> 0 <= i < |file.lineRanges|)
      && (r.Ok? ==> r.value == Substring(file.text, file.lineRanges[i].pos,
                                         file.lineRanges[i].pos + file.lineRanges[i].contentLength))
  {
    var i := ReferenceLineIndex(info, conditionOnSameLine);
    if 0 <= i < |file.lineRanges| then
      var range := file.lineRanges[i];
      Ok(Substring(file.text, range.pos, range.pos + range.contentLength))
    else Err(LineRangeUndefined)
  }

  // ---- the ideal layout ----

  /** The number of lines a span covers. */
  function LineCount(span: StartAndEndInfo): int {
    span.end.line - span.start.line + 1
  }

  /** The number of columns a span covers, for a span on one line. */
  function Width(span: StartAndEndInfo): int {
    span.end.character - span.start.character
  }

  /** Moves a span down by `d` lines, keeping its columns. */
  predicate ShiftedDown(ideal: StartAndEndInfo, actual: StartAndEndInfo, d: int) {
    ideal.start.line == actual.start.line + d && ideal.end.line == actual.end.line + d
  }

  /** A token span: one line, one column wide. */
  predicate OneColumnToken(span: StartAndEndInfo) {
    span.start.line == span.end.line && Width(span) == 1
  }

  /** A branch placed one column after its token, keeping its shape. */
  predicate BranchAfter(ideal: StartAndEndInfo, token: StartAndEndInfo, actual: StartAndEndInfo) {
    && ideal.start == LineAndCharacter(token.end.line, token.end.character + 1)
    && LineCount(ideal) == LineCount(actual)
    && (LineCount(actual) == 1 ==> Width(ideal) == Width(actual))
    && (LineCount(actual) != 1 ==> ideal.end.character == actual.end.character)
  }

  /**
   * The spans the five parts should have, given the actual spans, the reference line's
   * indentation and whether the preceding sibling ends on the condition's line.
   */
  function IdealLayout(actual: ConditionalExpressionLineAndCharacterInfo, indentation: int,
                       conditionOnSameLine: bool): (ideal: ConditionalExpressionLineAndCharacterInfo)
    ensures ideal.condition.start.character == indentation + 2
    ensures ShiftedDown(ideal.condition, actual.condition, if conditionOnSameLine then 1 else 0)
    ensures Width(ideal.condition) == Width(actual.condition)
    ensures OneColumnToken(ideal.questionToken)
    ensures ideal.questionToken.start == LineAndCharacter(ideal.condition.end.line + 1, ideal.condition.start.character + 2)
    ensures BranchAfter(ideal.whenTrue, ideal.questionToken, actual.whenTrue)
    ensures OneColumnToken(ideal.colonToken)
    ensures ideal.colonToken.start.character == ideal.questionToken.start.character
    ensures ideal.colonToken.start.line == ideal.whenTrue.end.line + (if LineCount(actual.whenTrue) > 1 then 2 else 1)
    ensures BranchAfter(ideal.whenFalse, ideal.colonToken, actual.whenFalse)
  {
    var shift := if conditionOnSameLine then 1 else 0;
    var condition := StartAndEndInfo(
      LineAndCharacter(actual.condition.start.line + shift, indentation + 2),
      LineAndCharacter(actual.condition.end.line + shift,
                       indentation + 2 + actual.condition.end.character - actual.condition.start.character));
    var questionToken := StartAndEndInfo(
      LineAndCharacter(condition.end.line + 1, condition.start.character + 2),
      LineAndCharacter(condition.end.line + 1, condition.start.character + 2 + 1));
    var whenTrueLineCount := actual.whenTrue.end.line - actual.whenTrue.start.line + 1;
    var whenTrue := StartAndEndInfo(
      LineAndCharacter(questionToken.end.line, questionToken.end.character + 1),
      LineAndCharacter(questionToken.end.line + (whenTrueLineCount - 1),
                       if whenTrueLineCount == 1
                       then questionToken.end.character + actual.whenTrue.end.character - actual.whenTrue.start.character + 1
                       else actual.whenTrue.end.character));
    var colonLine := whenTrue.end.line + (if whenTrueLineCount > 1 then 2 else 1);
    var colonToken := StartAndEndInfo(
      LineAndCharacter(colonLine, questionToken.start.character),
      LineAndCharacter(colonLine, questionToken.end.character));
    var whenFalseLineCount := actual.whenFalse.end.line - actual.whenFalse.start.line + 1;
    var whenFalse := StartAndEndInfo(
      LineAndCharacter(colonToken.end.line, colonToken.end.character + 1),
      LineAndCharacter(colonToken.end.line + (whenFalseLineCount - 1),
                       if whenFalseLineCount == 1
                       then colonToken.end.character + actual.whenFalse.end.character - actual.whenFalse.start.character + 1
                       else actual.whenFalse.end.character));
    ConditionalExpressionLineAndCharacterInfo(condition, questionToken, whenTrue, colonToken, whenFalse)
  }

  // ---- the replacement text ----

  /** `c.repeat(n)` for a non-negative `n`. */
  function RepeatChar(c: char, n: nat): (r: string)
    ensures |r| == n && forall i :: 0 <= i < n ==> r[i] == c
  {
    if n == 0 then [] else [c] + RepeatChar(c, n - 1)
  }

  /**
   * Lines above and spaces before each of the five parts: the condition keeps its lines
   * unless the ideal start is below the actual end, and each later part is measured from
   * the ideal position of the part before it.
   */
  function Gaps(ideal: ConditionalExpressionLineAndCharacterInfo,
                actual: ConditionalExpressionLineAndCharacterInfo): (r: seq<Gap>)
    ensures |r| == 5
  {
    GapsBelow(ideal, ideal.condition.start.line - actual.condition.end.line)
  }

  /**
   * The gaps of an ideal layout once the condition's lines above are fixed: the later parts
   * depend on the ideal layout alone.
   */
  function GapsBelow(ideal: ConditionalExpressionLineAndCharacterInfo, conditionLinesAbove: int): (r: seq<Gap>)
    ensures |r| == 5 && r[0].linesAbove == conditionLinesAbove
  {
    var conditionSpacesBefore := if conditionLinesAbove > 0 then ideal.condition.start.character else 0;
    var questionTokenLinesAbove := ideal.questionToken.start.line - ideal.condition.end.line;
    var questionTokenSpacesBefore := ideal.questionToken.start.character
      - (if questionTokenLinesAbove == 0 then conditionSpacesBefore + 1 else 0);
    var whenTrueLinesAbove := ideal.whenTrue.start.line - ideal.questionToken.end.line;
    var whenTrueSpacesBefore := ideal.whenTrue.start.character
      - (if whenTrueLinesAbove == 0 then questionTokenSpacesBefore + 1 else 0);
    var colonTokenLinesAbove := ideal.colonToken.start.line - ideal.whenTrue.end.line;
    var colonTokenSpacesBefore := ideal.colonToken.start.character
      - (if colonTokenLinesAbove == 0 then whenTrueSpacesBefore + 1 else 0);
    var whenFalseLinesAbove := ideal.whenFalse.start.line - ideal.colonToken.end.line;
    var whenFalseSpacesBefore := ideal.whenFalse.start.character
      - (if whenFalseLinesAbove == 0 then colonTokenSpacesBefore + 1 else 0);
    [Gap(conditionLinesAbove, conditionSpacesBefore), Gap(questionTokenLinesAbove, questionTokenSpacesBefore),
     Gap(whenTrueLinesAbove, whenTrueSpacesBefore), Gap(colonTokenLinesAbove, colonTokenSpacesBefore),
     Gap(whenFalseLinesAbove, whenFalseSpacesBefore)]
  }

  predicate NegativeGap(g: Gap) {
    g.linesAbove < 0 || g.spacesBefore < 0
  }

  /** The texts of the five parts, in source order. */
  function PartTexts(node: ConditionalExpression): seq<string> {
    [node.conditionText, node.questionTokenText, node.whenTrueText, node.colonTokenText, node.whenFalseText]
  }

  /**
   * Each part preceded by its newlines and spaces; a negative count makes `repeat` throw.
   */
  function RebuildText(parts: seq<string>, gaps: seq<Gap>): (r: Result<string, TernaryError>)
    requires |parts| == |gaps|
    ensures r.Err? <==> exists i :: 0 <= i < |gaps| && NegativeGap(gaps[i])
    ensures r.Err? ==> r.error == NegativeRepeat
  {
    if parts == [] then Ok([])
    else if NegativeGap(gaps[0]) then Err(NegativeRepeat)
    else match RebuildText(parts[1..], gaps[1..])
      case Err(e) => (assert exists i :: 1 <= i < |gaps| && NegativeGap(gaps[i]) by {
                        var i :| 0 <= i < |gaps[1..]| && NegativeGap(gaps[1..][i]);
                        assert gaps[i + 1] == gaps[1..][i];
                      }
                      Err(e))
      case Ok(rest) =>
        (assert forall i :: 1 <= i < |gaps| ==> gaps[i] == gaps[1..][i - 1];
         Ok(RepeatChar('\n', gaps[0].linesAbove) + RepeatChar(' ', gaps[0].spacesBefore) + parts[0] + rest))
  }

  /**
   * Nothing when the ideal spans equal the actual ones field by field; otherwise one
   * violation on the node whose single replacement rewrites the node's text from the
   * condition's start.
   */
  function CompareIdealToActual(node: ConditionalExpression, ideal: ConditionalExpressionLineAndCharacterInfo,
                                actual: ConditionalExpressionLineAndCharacterInfo): (r: Result<seq<Violation>, TernaryError>)
    ensures r == Ok([]) <==> ideal == actual
    ensures r.Err? <==> ideal != actual && exists i :: 0 <= i < 5 && NegativeGap(Gaps(ideal, actual)[i])
    ensures r.Ok? && r.value != [] ==>
      && |r.value| == 1
      && r.value[0].node == node
      && r.value[0].message == Some(FAILURE_MESSAGE)
      && |r.value[0].replacements| == 1
      && r.value[0].replacements[0].start == node.conditionStartOffset
      && r.value[0].replacements[0].length == node.textLength
      && Ok(r.value[0].replacements[0].text) == RebuildText(PartTexts(node), Gaps(ideal, actual))
  {
    if ideal == actual then Ok([])
    else match RebuildText(PartTexts(node), Gaps(ideal, actual))
      case Err(e) => Err(e)
      case Ok(text) =>
        Ok([MarkAsInvalidNode(node, FAILURE_MESSAGE, [Replacement(node.conditionStartOffset, node.textLength, text)])])
  }

  // ---- checking one conditional expression ----

  function SpanOf(child: Option<Child>): Option<StartAndEndInfo> {
    if child.None? then None else Some(child.value.span)
  }

  /** The span of the sibling the scan over the parent's children settles on. */
  function SiblingBeforeInfo(node: ConditionalExpression): Option<StartAndEndInfo> {
    SpanOf(Util.SiblingBeforeOf(node.siblings, node.self))
  }

  /** The preceding sibling ends on the line the condition starts on. */
  predicate ConditionOnSameLine(siblingBefore: Option<StartAndEndInfo>, info: ConditionalExpressionLineAndCharacterInfo) {
    siblingBefore.Some? && siblingBefore.value.end.line == info.condition.start.line
  }

  /** What `checkNonNested` returns (or throws) for a conditional expression. */
  function CheckNonNestedSpec(node: ConditionalExpression, file: SourceFile): Result<seq<Violation>, TernaryError> {
    var conditionOnSameLine := ConditionOnSameLine(SiblingBeforeInfo(node), node.info);
    match ReferenceLine(file, node.info, conditionOnSameLine)
    case Err(e) => Err(e)
    case Ok(line) =>
      CompareIdealToActual(node, IdealLayout(node.info, Indentation(line), conditionOnSameLine), node.info)
  }

  /** The source's `checkNonNested`: a scan for the preceding sibling, then the layout check. */
  method CheckNonNested(node: ConditionalExpression, file: SourceFile) returns (r: Result<seq<Violation>, TernaryError>)
    ensures r == CheckNonNestedSpec(node, file)
  {
    var siblingBeforeInfo: Option<StartAndEndInfo> := None;
    var foundNode := false;
    for k := 0 to |node.siblings|
      invariant foundNode <==> node.self in node.siblings[..k]
      invariant siblingBeforeInfo == SpanOf(Util.SiblingBeforeOf(node.siblings[..k], node.self))
    {
      Util.SiblingBeforeStep(node.siblings, k, node.self);
      var child := node.siblings[k];
      if child == node.self {
        foundNode := true;
      } else if !foundNode {
        siblingBeforeInfo := Some(child.span);
      }
      assert node.siblings[..k + 1] == node.siblings[..k] + [child];
    }
    assert node.siblings[..|node.siblings|] == node.siblings;
    var conditionOnSameLine := ConditionOnSameLine(siblingBeforeInfo, node.info);
    var line := ReferenceLine(file, node.info, conditionOnSameLine);
    if line.Err? {
      return Err(line.error);
    }
    var ideal := IdealLayout(node.info, Indentation(line.value), conditionOnSameLine);
    r := CompareIdealToActual(node, ideal, node.info);
  }

  /**
   * The rule function: a conditional expression is checked only when neither branch is a
   * conditional, and its children are never visited; any other node yields nothing and is
   * descended into.
   */
  method RuleEntryPoint(node: TernaryNode, file: SourceFile) returns (r: Result<RuleFunctionResult<ConditionalExpression>, TernaryError>)
    ensures node.OtherNode? ==> r == Ok(RuleFunctionResult([], Some(false)))
    ensures node.ConditionalNode? && r.Ok? ==> r.value.skipChildren == Some(true)
    ensures node.ConditionalNode? && (node.expr.whenTrueIsConditional || node.expr.whenFalseIsConditional) ==>
      r == Ok(RuleFunctionResult([], Some(true)))
    ensures node.ConditionalNode? && !node.expr.whenTrueIsConditional && !node.expr.whenFalseIsConditional ==>
      (r.Err? <==> CheckNonNestedSpec(node.expr, file).Err?)
      && (r.Ok? ==> r.value.invalidNodes == CheckNonNestedSpec(node.expr, file).value)
  {
    if node.ConditionalNode? {
      var expr := node.expr;
      if !expr.whenTrueIsConditional && !expr.whenFalseIsConditional {
        var invalidNodes := CheckNonNested(expr, file);
        if invalidNodes.Err? {
          return Err(invalidNodes.error);
        }
        return Ok(RuleFunctionResult(invalidNodes.value, Some(true)));
      }
      return Ok(RuleFunctionResult([], Some(true)));
    }
    return Ok(RuleFunctionResult([], Some(false)));
  }
}
