/** Properties of the `ternary-format` rule's layout arithmetic and replacement text. */
module TernaryFormatProperties {
  import opened Wrappers
  import opened NodeRuleHelpers
  import Util
  import opened TernaryFormat

  /**
   * The ideal layout is stable: laying out an already ideal expression again (its condition
   * no longer shares a line with the sibling) changes nothing, so it is not reported again
   * as long as the reference line's indentation is unchanged.
   */
  lemma IdealLayoutIdempotent(actual: ConditionalExpressionLineAndCharacterInfo, indentation: int, sameLine: bool)
    ensures IdealLayout(IdealLayout(actual, indentation, sameLine), indentation, false) == IdealLayout(actual, indentation, sameLine)
  {
    var ideal := IdealLayout(actual, indentation, sameLine);
    assert LineCount(ideal.whenTrue) == LineCount(actual.whenTrue);
    assert LineCount(ideal.whenFalse) == LineCount(actual.whenFalse);
  }

  /**
   * The gaps of an ideal layout: the `?` and `:` lines are each preceded by a newline run and
   * `indentation + 4` spaces, each branch follows its token after exactly one space, and
   * the condition moves down only when its ideal start is below its actual end.
   */
  lemma IdealGaps(actual: ConditionalExpressionLineAndCharacterInfo, indentation: int, sameLine: bool)
    ensures var ideal := IdealLayout(actual, indentation, sameLine);
      var conditionLinesAbove := actual.condition.start.line + (if sameLine then 1 else 0) - actual.condition.end.line;
      Gaps(ideal, actual) == [
        Gap(conditionLinesAbove, if conditionLinesAbove > 0 then indentation + 2 else 0),
        Gap(1, ideal.questionToken.start.character),
        Gap(0, 1),
        Gap(if LineCount(actual.whenTrue) > 1 then 2 else 1, ideal.questionToken.start.character),
        Gap(0, 1)]
    ensures IdealLayout(actual, indentation, sameLine).questionToken.start.character == indentation + 4
  {
    var ideal := IdealLayout(actual, indentation, sameLine);
    var g := Gaps(ideal, actual);
    assert g[1] == Gap(1, indentation + 4);
    assert g[2] == Gap(0, 1);
  }

  /** One part preceded by its newlines and spaces. */
  function Piece(part: string, gap: Gap): string
    requires !NegativeGap(gap)
  {
    RepeatChar('\n', gap.linesAbove) + RepeatChar(' ', gap.spacesBefore) + part
  }

  /** Without negative gaps the rebuilt text is the pieces one after another. */
  lemma {:induction false} RebuildTextPieces(parts: seq<string>, gaps: seq<Gap>)
    requires |parts| == |gaps| && |gaps| > 0
    requires forall i :: 0 <= i < |gaps| ==> !NegativeGap(gaps[i])
    ensures RebuildText(parts, gaps) == Ok(Piece(parts[0], gaps[0]) + RebuildText(parts[1..], gaps[1..]).value)
    ensures RebuildText(parts[1..], gaps[1..]).Ok?
  {
    assert forall i :: 0 <= i < |gaps[1..]| ==> gaps[1..][i] == gaps[i + 1];
  }

  /**
   * The replacement text for an ideal layout, written out; it throws exactly when the
   * condition spans more lines than it is moved down.
   */
  lemma RebuiltText(node: ConditionalExpression, indentation: int, sameLine: bool)
    requires indentation >= 0
    ensures var ideal := IdealLayout(node.info, indentation, sameLine);
      var linesAbove := node.info.condition.start.line + (if sameLine then 1 else 0) - node.info.condition.end.line;
      RebuildText(PartTexts(node), Gaps(ideal, node.info)) ==
        if linesAbove < 0 then Err(NegativeRepeat)
        else Ok(RepeatChar('\n', linesAbove) + RepeatChar(' ', if linesAbove > 0 then indentation + 2 else 0)
                + node.conditionText
                + "\n" + RepeatChar(' ', indentation + 4) + node.questionTokenText
                + " " + node.whenTrueText
                + RepeatChar('\n', if LineCount(node.info.whenTrue) > 1 then 2 else 1)
                + RepeatChar(' ', indentation + 4) + node.colonTokenText
                + " " + node.whenFalseText)
  {
    var ideal := IdealLayout(node.info, indentation, sameLine);
    IdealGaps(node.info, indentation, sameLine);
    var g := Gaps(ideal, node.info);
    var p := PartTexts(node);
    var linesAbove := node.info.condition.start.line + (if sameLine then 1 else 0) - node.info.condition.end.line;
    if linesAbove < 0 {
      assert NegativeGap(g[0]);
    } else {
      RebuildTextPieces(p, g);
      RebuildTextPieces(p[1..], g[1..]);
      RebuildTextPieces(p[2..], g[2..]);
      RebuildTextPieces(p[3..], g[3..]);
      RebuildTextPieces(p[4..], g[4..]);
      assert p[1..][1..] == p[2..] && g[1..][1..] == g[2..];
      assert p[2..][1..] == p[3..] && g[2..][1..] == g[3..];
      assert p[3..][1..] == p[4..] && g[3..][1..] == g[4..];
      assert RebuildText(p[4..][1..], g[4..][1..]) == Ok([]);
      PiecesJoined(node, indentation, linesAbove, g);
    }
  }

  lemma PiecesJoined(node: ConditionalExpression, indentation: int, linesAbove: int, g: seq<Gap>)
    requires indentation >= 0 && linesAbove >= 0
    requires g == [Gap(linesAbove, if linesAbove > 0 then indentation + 2 else 0), Gap(1, indentation + 4), Gap(0, 1),
                   Gap(if LineCount(node.info.whenTrue) > 1 then 2 else 1, indentation + 4), Gap(0, 1)]
    ensures Piece(node.conditionText, g[0]) + (Piece(node.questionTokenText, g[1]) + (Piece(node.whenTrueText, g[2])
            + (Piece(node.colonTokenText, g[3]) + (Piece(node.whenFalseText, g[4]) + []))))
      == RepeatChar('\n', linesAbove) + RepeatChar(' ', if linesAbove > 0 then indentation + 2 else 0)
         + node.conditionText
         + "\n" + RepeatChar(' ', indentation + 4) + node.questionTokenText
         + " " + node.whenTrueText
         + RepeatChar('\n', if LineCount(node.info.whenTrue) > 1 then 2 else 1)
         + RepeatChar(' ', indentation + 4) + node.colonTokenText
         + " " + node.whenFalseText
  {
    assert RepeatChar('\n', 1) == "\n" && RepeatChar(' ', 1) == " " && RepeatChar('\n', 0) == [] && RepeatChar(' ', 0) == [];
    var head := RepeatChar('\n', linesAbove) + RepeatChar(' ', if linesAbove > 0 then indentation + 2 else 0);
    var indent := RepeatChar(' ', indentation + 4);
    var colonLines := RepeatChar('\n', if LineCount(node.info.whenTrue) > 1 then 2 else 1);
    var p0, p1, p2 := Piece(node.conditionText, g[0]), Piece(node.questionTokenText, g[1]), Piece(node.whenTrueText, g[2]);
    var p3, p4 := Piece(node.colonTokenText, g[3]), Piece(node.whenFalseText, g[4]);
    assert p0 == head + node.conditionText;
    assert p1 == "\n" + indent + node.questionTokenText;
    assert p2 == " " + node.whenTrueText;
    assert p3 == colonLines + indent + node.colonTokenText;
    assert p4 == " " + node.whenFalseText;
    assert p4 + [] == p4;
    Regroup(head, node.conditionText, "\n", indent, node.questionTokenText, node.whenTrueText,
            colonLines, node.colonTokenText, node.whenFalseText);
  }

  /** Regroups the five pieces of the rebuilt text into one left-to-right concatenation. */
  lemma Regroup(head: string, condition: string, newline: string, indent: string, question: string, whenTrue: string,
                colonLines: string, colon: string, whenFalse: string)
    ensures (head + condition) + ((newline + indent + question) + ((" " + whenTrue)
              + ((colonLines + indent + colon) + (" " + whenFalse))))
         == head + condition + newline + indent + question + " " + whenTrue + colonLines + indent + colon + " " + whenFalse
  {
  }

  /** A condition on the file's first line with no sibling ending there makes the rule throw. */
  lemma FirstLineConditionThrows(node: ConditionalExpression, file: SourceFile)
    requires node.info.condition.start.line == 0
    requires !ConditionOnSameLine(SiblingBeforeInfo(node), node.info)
    ensures CheckNonNestedSpec(node, file) == Err(LineRangeUndefined)
  {
    assert ReferenceLineIndex(node.info, false) == -1;
  }

  /**
   * A badly laid out expression whose multi-line condition stays put (it does not follow a
   * sibling on the same line) makes the rule throw instead of reporting.
   */
  lemma UnmovedMultiLineConditionThrows(node: ConditionalExpression, file: SourceFile)
    requires !ConditionOnSameLine(SiblingBeforeInfo(node), node.info)
    requires node.info.condition.end.line > node.info.condition.start.line
    requires ReferenceLine(file, node.info, false).Ok?
    requires node.info != IdealLayout(node.info, Indentation(ReferenceLine(file, node.info, false).value), false)
    ensures CheckNonNestedSpec(node, file) == Err(NegativeRepeat)
  {
    var line := ReferenceLine(file, node.info, false).value;
    IdealGaps(node.info, Indentation(line), false);
    assert NegativeGap(Gaps(IdealLayout(node.info, Indentation(line), false), node.info)[0]);
  }

  // ---- the evidently intended behaviour on the two inputs that throw ----

  /**
   * The evidently intended gaps: the condition's lines above are measured from its actual
   * first line, so a condition that stays put is not moved, however many lines it spans.
   */
  function IntendedGaps(ideal: ConditionalExpressionLineAndCharacterInfo,
                        actual: ConditionalExpressionLineAndCharacterInfo): (r: seq<Gap>)
    ensures |r| == 5
  {
    GapsBelow(ideal, ideal.condition.start.line - actual.condition.start.line)
  }

  /**
   * For an ideal layout the intended gaps move the condition down by the sibling's line
   * alone, keep every later gap of the written ones, never go negative, and agree with the
   * written ones on a condition that fits on one line.
   */
  lemma IntendedGapsRebuild(node: ConditionalExpression, indentation: nat, sameLine: bool)
    ensures var ideal := IdealLayout(node.info, indentation, sameLine);
      var shift := if sameLine then 1 else 0;
      IntendedGaps(ideal, node.info) == [Gap(shift, if shift > 0 then indentation + 2 else 0)] + Gaps(ideal, node.info)[1..]
    ensures RebuildText(PartTexts(node), IntendedGaps(IdealLayout(node.info, indentation, sameLine), node.info)).Ok?
    ensures node.info.condition.end.line == node.info.condition.start.line ==>
      IntendedGaps(IdealLayout(node.info, indentation, sameLine), node.info)
        == Gaps(IdealLayout(node.info, indentation, sameLine), node.info)
  {
    var ideal := IdealLayout(node.info, indentation, sameLine);
    IdealGaps(node.info, indentation, sameLine);
    var g := IntendedGaps(ideal, node.info);
    assert g[1] == Gap(1, indentation + 4);
    assert g[2] == Gap(0, 1);
    assert forall i :: 0 <= i < 5 ==> !NegativeGap(g[i]);
  }

  /**
   * The evidently intended reference line: an index outside the file reads as an empty line,
   * so a condition on the file's first line is measured from column 0.
   */
  function ReferenceLineOrBlank(file: SourceFile, info: ConditionalExpressionLineAndCharacterInfo,
                                conditionOnSameLine: bool): (r: string)
    ensures ReferenceLine(file, info, conditionOnSameLine).Ok? ==> r == ReferenceLine(file, info, conditionOnSameLine).value
    ensures ReferenceLine(file, info, conditionOnSameLine).Err? ==> Indentation(r) == 0
  {
    match ReferenceLine(file, info, conditionOnSameLine)
    case Ok(line) => line
    case Err(_) => ""
  }

  /** The ideal layout the corrected check measures against. */
  function IntendedIdeal(node: ConditionalExpression, file: SourceFile): ConditionalExpressionLineAndCharacterInfo {
    var conditionOnSameLine := ConditionOnSameLine(SiblingBeforeInfo(node), node.info);
    IdealLayout(node.info, Indentation(ReferenceLineOrBlank(file, node.info, conditionOnSameLine)), conditionOnSameLine)
  }

  /**
   * The corrected `checkNonNested`: it never throws, reports exactly the expressions not in
   * their ideal layout, and agrees with the written check wherever that one returns and the
   * condition fits on one line.
   */
  function CheckNonNestedIntended(node: ConditionalExpression, file: SourceFile): (r: seq<Violation>)
    ensures r == [] <==> IntendedIdeal(node, file) == node.info
    ensures r != [] ==>
      && |r| == 1
      && r[0].node == node
      && r[0].message == Some(FAILURE_MESSAGE)
      && |r[0].replacements| == 1
      && r[0].replacements[0].start == node.conditionStartOffset
      && r[0].replacements[0].length == node.textLength
      && Ok(r[0].replacements[0].text) == RebuildText(PartTexts(node), IntendedGaps(IntendedIdeal(node, file), node.info))
    ensures CheckNonNestedSpec(node, file).Ok? && node.info.condition.end.line == node.info.condition.start.line ==>
      r == CheckNonNestedSpec(node, file).value
  {
    var conditionOnSameLine := ConditionOnSameLine(SiblingBeforeInfo(node), node.info);
    var indentation := Indentation(ReferenceLineOrBlank(file, node.info, conditionOnSameLine));
    IntendedGapsRebuild(node, indentation, conditionOnSameLine);
    var ideal := IdealLayout(node.info, indentation, conditionOnSameLine);
    if ideal == node.info then []
    else
      var text := RebuildText(PartTexts(node), IntendedGaps(ideal, node.info)).value;
      [MarkAsInvalidNode(node, FAILURE_MESSAGE, [Replacement(node.conditionStartOffset, node.textLength, text)])]
  }

  /** Corrected, a condition on the file's first line is checked against indentation 0. */
  lemma FirstLineConditionMeasuredFromColumnZero(node: ConditionalExpression, file: SourceFile)
    requires node.info.condition.start.line == 0
    requires !ConditionOnSameLine(SiblingBeforeInfo(node), node.info)
    ensures CheckNonNestedIntended(node, file) == [] <==> node.info == IdealLayout(node.info, 0, false)
  {
    assert ReferenceLine(file, node.info, false).Err?;
  }

  /** Corrected, a condition not on the sibling's line keeps its place: the rebuilt text starts with it. */
  lemma IntendedTextKeepsCondition(node: ConditionalExpression, indentation: nat)
    ensures var t := RebuildText(PartTexts(node), IntendedGaps(IdealLayout(node.info, indentation, false), node.info));
      t.Ok? && |node.conditionText| <= |t.value| && t.value[..|node.conditionText|] == node.conditionText
  {
    var g := IntendedGaps(IdealLayout(node.info, indentation, false), node.info);
    IntendedGapsRebuild(node, indentation, false);
    assert g[0] == Gap(0, 0);
    var parts := PartTexts(node);
    assert forall i :: 0 <= i < |g| ==> !NegativeGap(g[i]) by {
      assert RebuildText(parts, g).Ok?;
    }
    RebuildTextPieces(parts, g);
    assert Piece(parts[0], g[0]) == node.conditionText;
  }

  /**
   * Corrected, a badly laid out expression whose multi-line condition stays put is reported,
   * and its fix starts with the condition text itself: no line or space is inserted before it.
   */
  lemma UnmovedMultiLineConditionReported(node: ConditionalExpression, file: SourceFile)
    requires !ConditionOnSameLine(SiblingBeforeInfo(node), node.info)
    requires node.info.condition.end.line > node.info.condition.start.line
    requires ReferenceLine(file, node.info, false).Ok?
    requires node.info != IdealLayout(node.info, Indentation(ReferenceLine(file, node.info, false).value), false)
    ensures var r := CheckNonNestedIntended(node, file);
      |r| == 1 && |node.conditionText| <= |r[0].replacements[0].text|
      && r[0].replacements[0].text[..|node.conditionText|] == node.conditionText
  {
    var indentation := Indentation(ReferenceLine(file, node.info, false).value);
    assert IntendedIdeal(node, file) == IdealLayout(node.info, indentation, false);
    IntendedTextKeepsCondition(node, indentation);
  }

  /**
   * Among distinct children, the condition shares a line with its predecessor exactly when
   * the child just before the expression ends on the condition's first line.
   */
  lemma SameLineMeansPrecedingSibling(node: ConditionalExpression, i: nat)
    requires Util.Distinct(node.siblings) && i < |node.siblings| && node.siblings[i] == node.self
    ensures ConditionOnSameLine(SiblingBeforeInfo(node), node.info) <==>
      i > 0 && node.siblings[i - 1].span.end.line == node.info.condition.start.line
  {
    Util.SiblingsAreNeighbours(node.siblings, i);
  }

  /** A line indented by `n` spaces has indentation `n`. */
  lemma {:induction false} IndentationOfSpaces(n: nat, rest: string)
    requires rest != [] && !IsJsWhitespace(rest[0])
    ensures Indentation(RepeatChar(' ', n) + rest) == n
  {
    var line := RepeatChar(' ', n) + rest;
    assert line[n] == rest[0];
    assert forall j :: 0 <= j < n ==> line[j] == ' ';
  }
}
