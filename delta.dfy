/**
 * The note delta of the save-and-extract flow (`extractNewContent` in
 * src/app/page.tsx): both texts are split into lines, the lines of the new
 * text that occur anywhere among the old text's lines are dropped, and the
 * rest are joined back with newlines. Membership is tested, not position,
 * so a line moved to another place counts as old.
 */
module Delta {
  import opened Text

  /** The `filter` step: the lines of `lines` that occur nowhere in `before`, in order. */
  function KeepAbsent(lines: seq<string>, before: seq<string>): seq<string>
  {
    if lines == [] then []
    else (if lines[0] in before then [] else [lines[0]]) + KeepAbsent(lines[1..], before)
  }

  /** A line is kept exactly when it is one of `lines` and not one of `before`. */
  lemma {:induction false} KeepAbsentMembers(lines: seq<string>, before: seq<string>)
    ensures forall l :: l in KeepAbsent(lines, before) <==> l in lines && l !in before
  {
    if lines != [] {
      KeepAbsentMembers(lines[1..], before);
      assert lines == [lines[0]] + lines[1..];
    }
  }

  /** The kept lines keep their relative order. */
  lemma {:induction false} KeepAbsentSubseq(lines: seq<string>, before: seq<string>)
    ensures Subseq(KeepAbsent(lines, before), lines)
  {
    if lines != [] {
      KeepAbsentSubseq(lines[1..], before);
      var rest := KeepAbsent(lines[1..], before);
      if lines[0] !in before {
        assert KeepAbsent(lines, before) == [lines[0]] + rest;
        assert ([lines[0]] + rest)[1..] == rest;
      } else {
        assert KeepAbsent(lines, before) == rest;
      }
    }
  }

  /** The filter keeps every copy: a line occurs in the result as often as
      in `lines` when it is not one of `before`, and not at all otherwise. */
  lemma {:induction false} KeepAbsentCounts(lines: seq<string>, before: seq<string>)
    ensures forall l ::
      multiset(KeepAbsent(lines, before))[l] == (if l in before then 0 else multiset(lines)[l])
  {
    if lines != [] {
      KeepAbsentCounts(lines[1..], before);
      assert lines == [lines[0]] + lines[1..];
    }
  }

  /** Nothing is kept when every line already occurs in `before`. */
  lemma {:induction false} KeepAbsentCovered(lines: seq<string>, before: seq<string>)
    requires forall i :: 0 <= i < |lines| ==> lines[i] in before
    ensures KeepAbsent(lines, before) == []
  {
    if lines != [] {
      KeepAbsentCovered(lines[1..], before);
    }
  }

  /** `addedLines`: the lines of the new text absent from the old text's lines. */
  function AddedLines(oldContent: string, newContent: string): seq<string>
  {
    KeepAbsent(Split(newContent), Split(oldContent))
  }

  /** `extractNewContent(oldContent, newContent)`. */
  function ExtractNewContent(oldContent: string, newContent: string): string
  {
    Join(AddedLines(oldContent, newContent))
  }

  /** The lines of the delta are the added lines, unless there are none, in
      which case the delta is the empty text. */
  lemma DeltaLines(oldContent: string, newContent: string)
    ensures AddedLines(oldContent, newContent) != [] ==>
      Split(ExtractNewContent(oldContent, newContent)) == AddedLines(oldContent, newContent)
    ensures AddedLines(oldContent, newContent) == [] ==> ExtractNewContent(oldContent, newContent) == ""
  {
    var added := AddedLines(oldContent, newContent);
    KeepAbsentMembers(Split(newContent), Split(oldContent));
    if added != [] {
      assert forall i :: 0 <= i < |added| ==> added[i] in Split(newContent);
      SplitJoin(added);
    }
  }

  /** Every line of a non-empty delta is a line of the new text and not a
      line of the old text. */
  lemma DeltaSound(oldContent: string, newContent: string)
    ensures var delta := ExtractNewContent(oldContent, newContent);
      delta != "" ==>
        forall l :: l in Split(delta) ==> l in Split(newContent) && l !in Split(oldContent)
  {
    DeltaLines(oldContent, newContent);
    KeepAbsentMembers(Split(newContent), Split(oldContent));
  }

  /** Every line of the new text that is not a line of the old text is a
      line of the delta. */
  lemma DeltaComplete(oldContent: string, newContent: string)
    ensures forall l :: l in Split(newContent) && l !in Split(oldContent) ==>
      l in Split(ExtractNewContent(oldContent, newContent))
  {
    DeltaLines(oldContent, newContent);
    KeepAbsentMembers(Split(newContent), Split(oldContent));
  }

  /** A non-empty delta holds each new line as often as the new text does. */
  lemma DeltaCounts(oldContent: string, newContent: string)
    ensures var delta := ExtractNewContent(oldContent, newContent);
      delta != "" ==>
        forall l ::
          multiset(Split(delta))[l] == (if l in Split(oldContent) then 0 else multiset(Split(newContent))[l])
  {
    DeltaLines(oldContent, newContent);
    KeepAbsentCounts(Split(newContent), Split(oldContent));
  }

  /** The lines of a non-empty delta appear in the same relative order as in
      the new text. */
  lemma DeltaKeepsOrder(oldContent: string, newContent: string)
    ensures var delta := ExtractNewContent(oldContent, newContent);
      delta != "" ==> Subseq(Split(delta), Split(newContent))
  {
    DeltaLines(oldContent, newContent);
    KeepAbsentSubseq(Split(newContent), Split(oldContent));
  }

  /** Saving unchanged text yields an empty delta. */
  lemma DeltaOfSelf(content: string)
    ensures ExtractNewContent(content, content) == ""
  {
    KeepAbsentCovered(Split(content), Split(content));
  }

  /** Appending a line to a saved note yields exactly that line. */
  lemma DeltaOfAppend(oldContent: string, newContent: string)
    requires oldContent == "a\nb" && newContent == "a\nb\nc"
    ensures ExtractNewContent(oldContent, newContent) == "c"
  {
    assert oldContent == "a" + "\n" + "b";
    assert newContent == "a" + "\n" + "b" + "\n" + "c";
    SplitTwo("a", "b");
    SplitThree("a", "b", "c");
    var before, lines := ["a", "b"], ["a", "b", "c"];
    assert lines[1..][1..] == ["c"];
    assert KeepAbsent(["c"], before) == ["c"];
    assert KeepAbsent(lines[1..], before) == ["c"];
  }

  /** Position is ignored: swapping two saved lines yields an empty delta. */
  lemma DeltaIgnoresPosition(oldContent: string, newContent: string)
    requires oldContent == "a\nb" && newContent == "b\na"
    ensures ExtractNewContent(oldContent, newContent) == ""
  {
    assert oldContent == "a" + "\n" + "b";
    assert newContent == "b" + "\n" + "a";
    SplitTwo("a", "b");
    SplitTwo("b", "a");
    KeepAbsentCovered(["b", "a"], ["a", "b"]);
  }

  /** Against an empty snapshot the old lines are `[""]`, so empty lines of
      the new text are dropped. */
  lemma DeltaFromEmptyDropsEmptyLines(oldContent: string, newContent: string)
    requires oldContent == "" && newContent == "x\n\ny"
    ensures ExtractNewContent(oldContent, newContent) == "x\ny"
  {
    assert newContent == "x" + "\n" + "" + "\n" + "y";
    SplitThree("x", "", "y");
    var before, lines := [""], ["x", "", "y"];
    assert lines[1..][1..] == ["y"];
    assert KeepAbsent(["y"], before) == ["y"];
    assert KeepAbsent(lines[1..], before) == ["y"];
    assert KeepAbsent(lines, before) == ["x", "y"];
    JoinCons("x", ["y"]);
  }

  /** A repeated new line is kept twice: against `"a"`, `"x\nx"` yields `"x\nx"`. */
  lemma DeltaKeepsRepeatedLine(oldContent: string, newContent: string)
    requires oldContent == "a" && newContent == "x\nx"
    ensures ExtractNewContent(oldContent, newContent) == "x\nx"
  {
    assert newContent == "x" + "\n" + "x";
    SplitSingle("a");
    SplitTwo("x", "x");
    var lines := ["x", "x"];
    assert lines[1..] == ["x"];
    assert KeepAbsent(["x"], ["a"]) == ["x"];
    assert KeepAbsent(lines, ["a"]) == ["x", "x"];
    JoinCons("x", ["x"]);
  }

  /** Against an empty snapshot a line of spaces is not empty, so it is kept:
      `"x\n \ny"` comes back whole. */
  lemma DeltaFromEmptyKeepsSpaceLine(oldContent: string, newContent: string)
    requires oldContent == "" && newContent == "x\n \ny"
    ensures ExtractNewContent(oldContent, newContent) == newContent
  {
    assert newContent == "x" + "\n" + " " + "\n" + "y";
    SplitThree("x", " ", "y");
    var lines := ["x", " ", "y"];
    assert lines[1..][1..] == ["y"];
    assert KeepAbsent(["y"], [""]) == ["y"];
    assert KeepAbsent(lines[1..], [""]) == [" ", "y"];
    assert KeepAbsent(lines, [""]) == lines;
    JoinSplit(newContent);
  }
}
