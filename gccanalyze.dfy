/** The text-processing core of gccanalyze: the per-file include directory,
    the segmentation of GCC's captured diagnostic text into warning messages
    (split_warnings), the filter that drops "shadows a member of 'this'"
    warnings with its all-or-nothing fallback (filter_shadow), and the choice
    of what is written for one compiled file. */
module GccAnalyze {
  import opened Strings
  import opened Sequences
  import opened Segments

  /** GCC's marker in front of the flag name that tags a warning. */
  const WarningTag := "[-W"

  /** The ending of a warning about a local that shadows a member of `this`. */
  const ShadowSuffix := " shadows a member of 'this' [-Wshadow]"

  // ---------------------------------------------------------------------------
  // directory

  /** The include directory for a source file: its directory name, or "." when
      that is empty. `dirname` stands for os.path.dirname, whose
      platform-dependent behaviour is not modelled. */
  function Directory(filename: string, dirname: string -> string): (r: string)
    ensures r != ""
    ensures dirname(filename) != "" ==> r == dirname(filename)
    ensures dirname(filename) == "" ==> r == "."
  {
    var path := dirname(filename);
    if path != "" then path else "."
  }

  // ---------------------------------------------------------------------------
  // Lines of a diagnostic block

  /** A line that closes a warning message: it ends with `]` and contains `[-W`. */
  predicate IsTerminator(line: string)
  {
    EndsWith(line, "]") && Contains(line, WarningTag)
  }

  /** What one physical line contributes: itself stripped, or nothing when it
      is blank. */
  function Visible(line: string): seq<string>
  {
    var stripped := Strip(line);
    if stripped == "" then [] else [stripped]
  }

  /** A line contributes nothing exactly when it is blank. */
  lemma VisibleEmptyIff(line: string)
    ensures |Visible(line)| == 0 <==> AllSpace(line)
  {
    StripEmptyIff(line);
  }

  /** The stripped, non-blank lines of `lines`, in order. */
  function NonBlankLines(lines: seq<string>): seq<string>
  {
    FlatMap(lines, Visible)
  }

  /** The lines that segmentation sees: the stripped, non-blank physical lines
      of a diagnostic block. */
  function Content(text: string): seq<string>
  {
    NonBlankLines(Split(text, '\n'))
  }

  lemma NonBlankLinesSnoc(lines: seq<string>, line: string)
    ensures NonBlankLines(lines + [line]) == NonBlankLines(lines) + Visible(line)
  {
    assert (lines + [line])[..|lines|] == lines;
  }

  lemma NonBlankLinesStep(lines: seq<string>, i: int)
    requires 0 <= i < |lines|
    ensures NonBlankLines(lines[..i + 1]) == NonBlankLines(lines[..i]) + Visible(lines[i])
  {
    assert lines[..i + 1][..i] == lines[..i];
  }

  lemma NonBlankLinesSingle(line: string)
    ensures NonBlankLines([line]) == Visible(line)
  {
    NonBlankLinesSnoc([], line);
    assert [] + [line] == [line];
  }

  lemma NonBlankLinesConcat(a: seq<string>, b: seq<string>)
    ensures NonBlankLines(a + b) == NonBlankLines(a) + NonBlankLines(b)
  {
    FlatMapConcat(a, b, Visible);
  }

  /** At most one line survives per input line, and every survivor is
      non-empty and has no whitespace at either end. */
  lemma {:induction false} NonBlankLinesStripped(lines: seq<string>)
    ensures |NonBlankLines(lines)| <= |lines|
    ensures forall k :: 0 <= k < |NonBlankLines(lines)| ==>
              NonBlankLines(lines)[k] != "" && IsStripped(NonBlankLines(lines)[k])
    decreases |lines|
  {
    if |lines| != 0 {
      var init, last := lines[..|lines| - 1], lines[|lines| - 1];
      assert lines == init + [last];
      NonBlankLinesStripped(init);
      NonBlankLinesSnoc(init, last);
    }
  }

  /** A character that no input line contains is in no stripped line either. */
  lemma {:induction false} NonBlankLinesAvoid(lines: seq<string>, c: char)
    requires forall j :: 0 <= j < |lines| ==> c !in lines[j]
    ensures forall k :: 0 <= k < |NonBlankLines(lines)| ==> c !in NonBlankLines(lines)[k]
    decreases |lines|
  {
    if |lines| != 0 {
      var init, last := lines[..|lines| - 1], lines[|lines| - 1];
      assert lines == init + [last];
      NonBlankLinesAvoid(init, c);
      NonBlankLinesSnoc(init, last);
      StripAvoid(last, c);
    }
  }

  /** Every line segmentation sees is non-empty, stripped and one physical line. */
  lemma ContentLines(text: string)
    ensures forall k :: 0 <= k < |Content(text)| ==>
              Content(text)[k] != "" && IsStripped(Content(text)[k]) && '\n' !in Content(text)[k]
  {
    NonBlankLinesStripped(Split(text, '\n'));
    NonBlankLinesAvoid(Split(text, '\n'), '\n');
  }

  lemma {:induction false} ContentConcat(a: string, b: string)
    ensures Content(a + "\n" + b) == Content(a) + Content(b)
  {
    SplitConcat(a, b, '\n');
    NonBlankLinesConcat(Split(a, '\n'), Split(b, '\n'));
  }

  /** No line survives exactly when every line is blank. */
  lemma {:induction false} NonBlankLinesEmptyIff(lines: seq<string>)
    ensures |NonBlankLines(lines)| == 0 <==> forall j :: 0 <= j < |lines| ==> AllSpace(lines[j])
    decreases |lines|
  {
    if |lines| != 0 {
      var init, last := lines[..|lines| - 1], lines[|lines| - 1];
      assert lines == init + [last];
      NonBlankLinesEmptyIff(init);
      NonBlankLinesSnoc(init, last);
      VisibleEmptyIff(last);
    }
  }

  /** A block has no content lines exactly when it is all whitespace. */
  lemma ContentEmptyIff(text: string)
    ensures |Content(text)| == 0 <==> AllSpace(text)
  {
    JoinSplit(text, '\n');
    AllSpaceJoin("\n", Split(text, '\n'));
    NonBlankLinesEmptyIff(Split(text, '\n'));
  }

  lemma {:induction false} WeightNonBlankLines(sep: string, lines: seq<string>)
    ensures Weight(sep, NonBlankLines(lines)) <= Weight(sep, lines)
    decreases |lines|
  {
    if |lines| != 0 {
      var init, last := lines[..|lines| - 1], lines[|lines| - 1];
      assert lines == init + [last];
      NonBlankLinesSnoc(init, last);
      WeightNonBlankLines(sep, init);
      WeightConcat(sep, NonBlankLines(init), Visible(last));
      WeightConcat(sep, init, [last]);
    }
  }

  /** The content lines, joined by newlines, are no longer than the block. */
  lemma ContentLength(text: string)
    ensures |Join("\n", Content(text))| <= |text|
  {
    var lines := Split(text, '\n');
    if |Content(text)| != 0 {
      JoinLength("\n", Content(text));
      JoinLength("\n", lines);
      WeightNonBlankLines("\n", lines);
      JoinSplit(text, '\n');
    }
  }

  // ---------------------------------------------------------------------------
  // Messages

  /** Each group of lines joined by newlines. */
  function JoinEach(groups: seq<seq<string>>): (r: seq<string>)
    ensures |r| == |groups|
    ensures forall k :: 0 <= k < |groups| ==> r[k] == Join("\n", groups[k])
  {
    if |groups| == 0 then [] else [Join("\n", groups[0])] + JoinEach(groups[1..])
  }

  /** The physical lines of each message. */
  function LinesEach(messages: seq<string>): (r: seq<seq<string>>)
    ensures |r| == |messages|
    ensures forall k :: 0 <= k < |messages| ==> r[k] == Split(messages[k], '\n')
  {
    if |messages| == 0 then [] else [Split(messages[0], '\n')] + LinesEach(messages[1..])
  }

  /** The warning messages of a diagnostic block, in order. */
  function Messages(text: string): seq<string>
  {
    JoinEach(Segment(Content(text), IsTerminator))
  }

  lemma JoinEachConcat(a: seq<seq<string>>, b: seq<seq<string>>)
    ensures JoinEach(a + b) == JoinEach(a) + JoinEach(b)
  {
  }

  /** Closing the current message after lines already cut at a closing line
      adds that message, its lines joined by newlines, to the messages so far. */
  lemma CloseMessage(done: seq<string>, current: seq<string>, closes: string -> bool)
    requires |done| == 0 || closes(done[|done| - 1])
    requires |current| != 0
    requires forall j :: 0 <= j < |current| - 1 ==> !closes(current[j])
    ensures JoinEach(Segment(done + current, closes))
            == JoinEach(Segment(done, closes)) + [Join("\n", current)]
  {
    SegmentConcat(done, current, closes);
    SegmentSingle(current, closes);
    JoinEachConcat(Segment(done, closes), [current]);
  }

  /** The state of the `split_warnings` loop after the first `i` physical
      lines: the non-blank lines seen so far are the lines of the messages
      already closed (`done`, empty or ending with a closing line) followed by
      those of the current message, none of which closes it. */
  ghost predicate SplitState(lines: seq<string>, i: int, done: seq<string>, current: seq<string>, closes: string -> bool)
  {
    && 0 <= i <= |lines|
    && NonBlankLines(lines[..i]) == done + current
    && (|done| == 0 || closes(done[|done| - 1]))
    && (forall j :: 0 <= j < |current| ==> !closes(current[j]))
  }

  /** One turn of the loop keeps its state: a blank line is skipped, a closing
      line ends the current message, any other line joins it. */
  lemma SplitStep(lines: seq<string>, i: int, done: seq<string>, current: seq<string>, closes: string -> bool)
    requires SplitState(lines, i, done, current, closes) && i < |lines|
    ensures Strip(lines[i]) == "" ==> SplitState(lines, i + 1, done, current, closes)
    ensures Strip(lines[i]) != "" && closes(Strip(lines[i])) ==>
              SplitState(lines, i + 1, done + (current + [Strip(lines[i])]), [], closes)
    ensures Strip(lines[i]) != "" && !closes(Strip(lines[i])) ==>
              SplitState(lines, i + 1, done, current + [Strip(lines[i])], closes)
  {
    NonBlankLinesStep(lines, i);
    var line := Strip(lines[i]);
    if line != "" {
      assert Visible(lines[i]) == [line];
      assert done + current + [line] == done + (current + [line]);
      assert done + (current + [line]) + [] == done + (current + [line]);
    }
  }

  /** `split_warnings`: one pass over the physical lines of a block with an
      accumulator of the current message's lines. Each non-blank line, stripped,
      joins the current message; a line that ends with `]` and contains `[-W`
      closes it; whatever is left at the end is the last message. */
  method SplitWarnings(warnings: string) returns (messages: seq<string>)
    ensures messages == Messages(warnings)
  {
    var lines := Split(warnings, '\n');
    var current: seq<string> := [];
    ghost var done: seq<string> := [];
    messages := [];
    for i := 0 to |lines|
      invariant SplitState(lines, i, done, current, IsTerminator)
      invariant messages == JoinEach(Segment(done, IsTerminator))
    {
      SplitStep(lines, i, done, current, IsTerminator);
      var line := Strip(lines[i]);
      if line == "" {
        continue;
      }
      current := current + [line];
      if EndsWith(line, "]") && Contains(line, WarningTag) {
        CloseMessage(done, current, IsTerminator);
        messages := messages + [Join("\n", current)];
        done := done + current;
        current := [];
      }
    }
    assert lines[..|lines|] == lines;
    if |current| != 0 {
      CloseMessage(done, current, IsTerminator);
      messages := messages + [Join("\n", current)];
    } else {
      assert done + current == done;
    }
  }

  lemma {:induction false} JoinNonEmpty(sep: string, parts: seq<string>)
    requires |parts| != 0 && parts[0] != ""
    ensures Join(sep, parts) != ""
  {
  }

  lemma {:induction false} LinesOfJoinEach(groups: seq<seq<string>>)
    requires forall i :: 0 <= i < |groups| ==> |groups[i]| != 0
    requires forall i, j :: 0 <= i < |groups| && 0 <= j < |groups[i]| ==> '\n' !in groups[i][j]
    ensures LinesEach(JoinEach(groups)) == groups
  {
    var r := LinesEach(JoinEach(groups));
    forall i | 0 <= i < |groups| ensures r[i] == groups[i] {
      SplitJoin(groups[i], '\n');
    }
  }

  /** Read back line by line, the messages segment the content lines: none is
      lost, duplicated or reordered, every message has at least one line, a
      terminator sits only at the end of a message, and every message but the
      last ends with one. Each message is its lines joined by newlines. */
  lemma MessagesSegmentContent(text: string)
    ensures IsSegmentation(LinesEach(Messages(text)), Content(text), IsTerminator)
    ensures forall k :: 0 <= k < |Messages(text)| ==>
              Messages(text)[k] == Join("\n", LinesEach(Messages(text))[k])
  {
    var groups := Segment(Content(text), IsTerminator);
    SegmentIsSegmentation(Content(text), IsTerminator);
    ContentLines(text);
    assert forall i, j :: 0 <= i < |groups| && 0 <= j < |groups[i]| ==>
             groups[i][j] in Flatten(groups) by {
      forall i, j | 0 <= i < |groups| && 0 <= j < |groups[i]|
        ensures groups[i][j] in Flatten(groups)
      {
        FlattenMember(groups, i, j);
      }
    }
    LinesOfJoinEach(groups);
  }

  /** Every message is a non-empty string whose lines are stripped and non-blank. */
  lemma MessagesNonEmpty(text: string)
    ensures forall k :: 0 <= k < |Messages(text)| ==> Messages(text)[k] != ""
    ensures forall k, j :: 0 <= k < |Messages(text)| && 0 <= j < |LinesEach(Messages(text))[k]| ==>
              LinesEach(Messages(text))[k][j] != "" && IsStripped(LinesEach(Messages(text))[k][j])
  {
    var groups := LinesEach(Messages(text));
    MessagesSegmentContent(text);
    ContentLines(text);
    forall k, j | 0 <= k < |groups| && 0 <= j < |groups[k]|
      ensures groups[k][j] in Content(text)
    {
      FlattenMember(groups, k, j);
    }
    forall k | 0 <= k < |Messages(text)| ensures Messages(text)[k] != "" {
      JoinNonEmpty("\n", groups[k]);
    }
  }

  /** The messages are determined by the segmentation property alone. */
  lemma MessagesUnique(text: string, groups: seq<seq<string>>)
    requires IsSegmentation(groups, Content(text), IsTerminator)
    ensures Messages(text) == JoinEach(groups)
  {
    SegmentIsSegmentation(Content(text), IsTerminator);
    SegmentationUnique(groups, Segment(Content(text), IsTerminator), Content(text), IsTerminator);
  }

  /** Empty or whitespace-only text yields no message, and only such text does. */
  lemma MessagesEmptyIff(text: string)
    ensures |Messages(text)| == 0 <==> AllSpace(text)
  {
    ContentEmptyIff(text);
    if |Content(text)| != 0 {
      assert Segment(Content(text), IsTerminator) != [];
    }
  }

  /** Without a terminator line the whole content is at most one message. */
  lemma MessagesWithoutTerminator(text: string)
    requires forall k :: 0 <= k < |Content(text)| ==> !IsTerminator(Content(text)[k])
    ensures |Messages(text)| <= 1
    ensures |Content(text)| != 0 ==> Messages(text) == [Join("\n", Content(text))]
  {
    if |Content(text)| != 0 {
      SegmentSingle(Content(text), IsTerminator);
    }
  }

  /** A single terminated warning on one line is one message: that line, stripped. */
  lemma MessagesSingleWarning(text: string)
    requires '\n' !in text
    requires IsTerminator(Strip(text))
    ensures Messages(text) == [Strip(text)]
  {
    SplitNoSeparator(text, '\n');
    NonBlankLinesSingle(text);
    SegmentSingle([Strip(text)], IsTerminator);
  }

  /** Segmenting two blocks joined by a newline gives the messages of the first
      followed by those of the second, when the first has no content or its last
      content line is a terminator. */
  lemma MessagesConcat(a: string, b: string)
    requires |Content(a)| == 0 || IsTerminator(Content(a)[|Content(a)| - 1])
    ensures Messages(a + "\n" + b) == Messages(a) + Messages(b)
  {
    ContentConcat(a, b);
    SegmentConcat(Content(a), Content(b), IsTerminator);
    JoinEachConcat(Segment(Content(a), IsTerminator), Segment(Content(b), IsTerminator));
  }

  lemma {:induction false} JoinFlatten(groups: seq<seq<string>>)
    requires forall i :: 0 <= i < |groups| ==> |groups[i]| != 0
    ensures Join("\n", JoinEach(groups)) == Join("\n", Flatten(groups))
    decreases |groups|
  {
    if |groups| == 1 {
      assert Flatten(groups[1..]) == [];
      assert Flatten(groups) == groups[0] + [] == groups[0];
      assert JoinEach(groups) == [Join("\n", groups[0])];
    } else if |groups| > 1 {
      var rest := groups[1..];
      JoinFlatten(rest);
      FlattenNonEmptyGroups(rest);
      assert JoinEach(groups)[1..] == JoinEach(rest);
      JoinConcat("\n", groups[0], Flatten(rest));
    }
  }

  /** The messages joined again by newlines are the content lines joined by
      newlines, and so no longer than the block. */
  lemma MessagesLength(text: string)
    ensures Join("\n", Messages(text)) == Join("\n", Content(text))
    ensures |Join("\n", Messages(text))| <= |text|
  {
    SegmentIsSegmentation(Content(text), IsTerminator);
    JoinFlatten(Segment(Content(text), IsTerminator));
    ContentLength(text);
  }

  // ---------------------------------------------------------------------------
  // filter_shadow

  /** A warning about a local that shadows a member of `this`. */
  predicate IsMemberShadow(message: string)
  {
    EndsWith(message, ShadowSuffix)
  }

  /** The test the filter applies to each message. */
  predicate Kept(message: string)
  {
    message != "" && !IsMemberShadow(message)
  }

  /** The messages that pass the filter, in their original order. */
  function Survivors(messages: seq<string>): seq<string>
  {
    Filter(messages, Kept)
  }

  /** `filter_shadow`: the surviving messages joined by newlines, or the empty
      string when fewer than two survive. */
  function FilterShadow(warnings: string): string
  {
    var kept := Survivors(Messages(warnings));
    if |kept| < 2 then "" else Join("\n", kept)
  }

  /** Dropping messages never lengthens the joined text. */
  lemma {:induction false} WeightFilter(sep: string, messages: seq<string>, keep: string -> bool)
    ensures Weight(sep, Filter(messages, keep)) <= Weight(sep, messages)
    decreases |messages|
  {
    if |messages| != 0 {
      WeightFilter(sep, messages[1..], keep);
      var head := if keep(messages[0]) then [messages[0]] else [];
      WeightConcat(sep, head, Filter(messages[1..], keep));
    }
  }

  /** On segmented text the non-empty test never drops anything: a message
      survives exactly when it does not end with the shadow suffix. */
  lemma KeptMessages(text: string)
    ensures forall k :: 0 <= k < |Messages(text)| ==>
              (Kept(Messages(text)[k]) <==> !IsMemberShadow(Messages(text)[k]))
  {
    MessagesNonEmpty(text);
  }

  /** The survivors are exactly the messages that are not member-shadow
      warnings, in their original order and each as often as it occurs. */
  lemma SurvivorsOfMessages(warnings: string)
    ensures IsSubsequence(Survivors(Messages(warnings)), Messages(warnings))
    ensures forall k :: 0 <= k < |Survivors(Messages(warnings))| ==>
              !IsMemberShadow(Survivors(Messages(warnings))[k])
    ensures forall k :: 0 <= k < |Messages(warnings)| && !IsMemberShadow(Messages(warnings)[k]) ==>
              Messages(warnings)[k] in Survivors(Messages(warnings))
    ensures forall x :: multiset(Survivors(Messages(warnings)))[x] ==
              if IsMemberShadow(x) then 0 else multiset(Messages(warnings))[x]
  {
    var messages := Messages(warnings);
    MessagesNonEmpty(warnings);
    FilterKept(messages, Kept);
    FilterSubsequence(messages, Kept);
    FilterCount(messages, Kept);
    assert "" !in messages;
  }

  /** The all-or-nothing rule: the result is empty exactly when fewer than two
      messages survive, and otherwise it is the survivors joined by newlines. */
  lemma FilterShadowAllOrNothing(warnings: string)
    ensures FilterShadow(warnings) == "" <==> |Survivors(Messages(warnings))| < 2
    ensures FilterShadow(warnings) != "" ==> FilterShadow(warnings) == Join("\n", Survivors(Messages(warnings)))
  {
    var kept := Survivors(Messages(warnings));
    if |kept| >= 2 {
      FilterKept(Messages(warnings), Kept);
      JoinNonEmpty("\n", kept);
    }
  }

  /** The result of the filter is never longer than the messages it started
      from, joined by newlines, nor than the block itself. */
  lemma FilterShadowNoLonger(warnings: string)
    ensures |FilterShadow(warnings)| <= |Join("\n", Messages(warnings))|
    ensures |FilterShadow(warnings)| <= |warnings|
  {
    var messages := Messages(warnings);
    var kept := Survivors(messages);
    if |kept| >= 2 {
      JoinLength("\n", kept);
      JoinLength("\n", messages);
      WeightFilter("\n", messages, Kept);
    }
    MessagesLength(warnings);
  }

  /** When every message is a member-shadow warning the output is empty. */
  lemma FilterShadowAllShadow(warnings: string)
    requires forall k :: 0 <= k < |Messages(warnings)| ==> IsMemberShadow(Messages(warnings)[k])
    ensures FilterShadow(warnings) == ""
  {
    FilterNone(Messages(warnings), Kept);
  }

  /** Exactly one member-shadow warning among the messages: the others are
      returned, in order, joined by newlines, unless fewer than two of them
      are left, in which case the legitimate warning is lost too. */
  lemma FilterShadowOneShadow(warnings: string, k: nat)
    requires k < |Messages(warnings)|
    requires forall j :: 0 <= j < |Messages(warnings)| ==> (IsMemberShadow(Messages(warnings)[j]) <==> j == k)
    ensures |Messages(warnings)| <= 2 ==> FilterShadow(warnings) == ""
    ensures |Messages(warnings)| > 2 ==>
              FilterShadow(warnings) == Join("\n", Messages(warnings)[..k] + Messages(warnings)[k + 1..])
  {
    MessagesNonEmpty(warnings);
    FilterDropOne(Messages(warnings), k, Kept);
  }

  /** Two messages, one of them a member-shadow warning: the other, legitimate,
      warning is lost too, since only one survives. */
  lemma FilterShadowTwoWithOneShadow(warnings: string)
    requires |Messages(warnings)| == 2
    requires IsMemberShadow(Messages(warnings)[0]) != IsMemberShadow(Messages(warnings)[1])
    ensures FilterShadow(warnings) == ""
  {
    var k := if IsMemberShadow(Messages(warnings)[0]) then 0 else 1;
    FilterShadowOneShadow(warnings, k);
  }

  /** Three messages, exactly one of them a member-shadow warning: the other two
      are returned, in order, joined by a newline. */
  lemma FilterShadowThreeWithOneShadow(warnings: string, k: nat)
    requires |Messages(warnings)| == 3 && k < 3
    requires forall j :: 0 <= j < 3 ==> (IsMemberShadow(Messages(warnings)[j]) <==> j == k)
    ensures FilterShadow(warnings) == Join("\n", Messages(warnings)[..k] + Messages(warnings)[k + 1..])
  {
    FilterShadowOneShadow(warnings, k);
  }

  // ---------------------------------------------------------------------------
  // Output for one file

  /** The block written for one compiled file: the raw diagnostics when GCC
      failed or in strict-shadow mode, the filtered text otherwise, always
      followed by a newline. */
  function Output(returnCode: int, strictShadow: bool, warnings: string): (r: string)
    ensures |r| >= 1 && r[|r| - 1] == '\n'
    ensures returnCode != 0 || strictShadow ==> r[..|r| - 1] == warnings
    ensures returnCode == 0 && !strictShadow ==> r[..|r| - 1] == FilterShadow(warnings)
  {
    if returnCode != 0 then warnings + "\n"
    else (if strictShadow then warnings else FilterShadow(warnings)) + "\n"
  }

  /** Text without a newline is a single line. */
  lemma ContentSingleLine(text: string)
    requires '\n' !in text
    ensures Content(text) == Visible(text)
  {
    SplitNoSeparator(text, '\n');
    NonBlankLinesSingle(text);
  }

  /** A one-line warning at the head of a block is its first message. */
  lemma MessagesLeadingWarning(line: string, rest: string)
    requires '\n' !in line && IsTerminator(Strip(line))
    ensures Messages(line + "\n" + rest) == [Strip(line)] + Messages(rest)
  {
    ContentSingleLine(line);
    assert |Strip(line)| != 0;
    assert Content(line) == [Strip(line)];
    MessagesSingleWarning(line);
    MessagesConcat(line, rest);
  }

  /** A one-line warning followed by a newline is one message. */
  lemma MessagesTerminatedLine(line: string)
    requires '\n' !in line && IsTerminator(Strip(line))
    ensures Messages(line + "\n") == [Strip(line)]
  {
    MessagesLeadingWarning(line, "");
    MessagesEmptyIff("");
    assert line + "\n" + "" == line + "\n";
  }

  /** Two one-line warnings, each followed by a newline, are two messages. */
  lemma MessagesTwoWarnings(a: string, b: string)
    requires '\n' !in a && '\n' !in b
    requires IsTerminator(Strip(a)) && IsTerminator(Strip(b))
    ensures Messages(a + "\n" + b + "\n") == [Strip(a), Strip(b)]
  {
    var tail := b + "\n";
    MessagesTerminatedLine(b);
    MessagesLeadingWarning(a, tail);
    assert a + "\n" + b + "\n" == a + "\n" + tail;
  }

  /** A member-shadow warning as GCC prints it. */
  const ShadowLine := "warning: x" + ShadowSuffix

  /** Any other warning as GCC prints it. */
  const OtherLine := "warning: y [-Wunused]"

  /** The shadow suffix is tagged: its `[-Wshadow]` starts at index 28, where
      `[-W` occurs. */
  lemma ShadowSuffixFacts()
    ensures '\n' !in ShadowSuffix && ShadowSuffix[|ShadowSuffix| - 1] == ']'
    ensures OccursAt(ShadowSuffix, WarningTag, 28)
  {
  }

  lemma ShadowLineFacts()
    ensures '\n' !in ShadowLine && Strip(ShadowLine) == ShadowLine
    ensures IsTerminator(ShadowLine) && IsMemberShadow(ShadowLine)
  {
    var prefix := "warning: x";
    ShadowSuffixFacts();
    assert '\n' !in prefix;
    assert ShadowLine[|prefix|..] == ShadowSuffix;
    assert ShadowLine[|ShadowLine| - 1] == ']';
    assert IsStripped(ShadowLine);
    StripStripped(ShadowLine);
    assert ShadowLine[|prefix| + 28..|prefix| + 31] == ShadowSuffix[28..31];
    assert OccursAt(ShadowLine, WarningTag, |prefix| + 28);
    ContainsIff(ShadowLine, WarningTag);
  }

  lemma OtherLineFacts()
    ensures '\n' !in OtherLine && Strip(OtherLine) == OtherLine
    ensures IsTerminator(OtherLine) && Kept(OtherLine)
  {
    assert IsStripped(OtherLine) by {
      assert OtherLine[0] == 'w' && OtherLine[|OtherLine| - 1] == ']';
    }
    StripStripped(OtherLine);
    assert OccursAt(OtherLine, WarningTag, 11);
    ContainsIff(OtherLine, WarningTag);
    assert OtherLine[|OtherLine| - 2] != ShadowSuffix[|ShadowSuffix| - 2];
  }

  /** A successful run whose diagnostics are one member-shadow warning and one
      other warning prints only a newline: the fallback discards the survivor. */
  lemma OutputShadowAndOneWarning()
    ensures Output(0, false, ShadowLine + "\n" + OtherLine + "\n") == "\n"
  {
    ShadowLineFacts();
    OtherLineFacts();
    MessagesTwoWarnings(ShadowLine, OtherLine);
    FilterConcat([ShadowLine], [OtherLine], Kept);
    assert [ShadowLine] + [OtherLine] == [ShadowLine, OtherLine];
  }
}
