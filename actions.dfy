/**
 * Action items and the two pure steps of `extractActionsWithAI` in
 * src/app/page.tsx: turning the extraction service's reply into new items,
 * and appending to the list only those whose lower-cased text is not already
 * the lower-cased text of an existing item.
 */
module Actions {
  import opened Wrappers
  import opened Text

  /** An action item as the page keeps it: an id, the action's text, a
      creation time in milliseconds and where it came from. */
  datatype Action = Action(id: string, text: string, timestamp: int, source: string)

  /** The reply the extraction service gives when it finds nothing to do. */
  const NoActions: string := "NO_ACTIONS"

  /** The source tag of items produced by extraction. */
  const AiSource: string := "ai"

  /** The texts of a list of items, in order. */
  function Texts(items: seq<Action>): (texts: seq<string>)
  {
    seq(|items|, k requires 0 <= k < |items| => items[k].text)
  }

  // ---------------------------------------------------------------------
  // Parsing the reply
  // ---------------------------------------------------------------------

  /** The reply carries no items: the `actions` field is missing or null, is
      the empty string, or is exactly the sentinel. */
  predicate IsNoActions(reply: Option<string>) {
    reply.None? || reply.value == "" || reply.value == NoActions
  }

  /** Each line trimmed, one for one. */
  function TrimEach(lines: seq<string>): seq<string>
  {
    if lines == [] then [] else [Trim(lines[0])] + TrimEach(lines[1..])
  }

  /** The `filter(line => line.trim())` and `text.trim()` steps: the trimmed
      lines that are not blank, in order. */
  function ActionTexts(lines: seq<string>): seq<string>
  {
    if lines == [] then []
    else (if Trim(lines[0]) == "" then [] else [Trim(lines[0])]) + ActionTexts(lines[1..])
  }

  /** Every action text is non-empty and already trimmed. */
  lemma {:induction false} ActionTextsTrimmed(lines: seq<string>)
    ensures forall t :: t in ActionTexts(lines) ==> t != "" && Trim(t) == t
  {
    if lines != [] {
      ActionTextsTrimmed(lines[1..]);
      var head := if Trim(lines[0]) == "" then [] else [Trim(lines[0])];
      assert ActionTexts(lines) == head + ActionTexts(lines[1..]);
      if head != [] {
        TrimIdempotent(lines[0]);
        assert forall t :: t in head ==> t == Trim(lines[0]);
      }
    }
  }

  /** The action texts are the trimmed lines with the blank ones left out,
      in line order. */
  lemma {:induction false} ActionTextsSubseq(lines: seq<string>)
    ensures Subseq(ActionTexts(lines), TrimEach(lines))
  {
    if lines != [] {
      ActionTextsSubseq(lines[1..]);
      var rest := ActionTexts(lines[1..]);
      if Trim(lines[0]) != "" {
        assert ActionTexts(lines) == [Trim(lines[0])] + rest;
        assert ([Trim(lines[0])] + rest)[1..] == rest;
      } else {
        assert ActionTexts(lines) == rest;
      }
    }
  }

  /** Every line that is not blank contributes its trimmed text. */
  lemma {:induction false} ActionTextsComplete(lines: seq<string>)
    ensures forall i :: 0 <= i < |lines| && Trim(lines[i]) != "" ==> Trim(lines[i]) in ActionTexts(lines)
  {
    if lines != [] {
      ActionTextsComplete(lines[1..]);
      assert forall i :: 1 <= i < |lines| ==> lines[i] == lines[1..][i - 1];
    }
  }

  /** The filter keeps every copy: a non-empty trimmed text occurs among the
      action texts as often as among the trimmed lines, and `""` never. */
  lemma {:induction false} ActionTextsCounts(lines: seq<string>)
    ensures forall t ::
      multiset(ActionTexts(lines))[t] == (if t == "" then 0 else multiset(TrimEach(lines))[t])
  {
    if lines != [] {
      ActionTextsCounts(lines[1..]);
      var head := if Trim(lines[0]) == "" then [] else [Trim(lines[0])];
      assert ActionTexts(lines) == head + ActionTexts(lines[1..]);
      assert TrimEach(lines) == [Trim(lines[0])] + TrimEach(lines[1..]);
    }
  }

  /** There is one action text per line that does not trim to `""`. */
  lemma {:induction false} ActionTextsLength(lines: seq<string>)
    ensures |ActionTexts(lines)| + multiset(TrimEach(lines))[""] == |lines|
  {
    if lines != [] {
      ActionTextsLength(lines[1..]);
      assert TrimEach(lines) == [Trim(lines[0])] + TrimEach(lines[1..]);
    }
  }

  /** Trimming keeps the number of lines. */
  lemma {:induction false} TrimEachLength(lines: seq<string>)
    ensures |TrimEach(lines)| == |lines|
  {
    if lines != [] {
      TrimEachLength(lines[1..]);
    }
  }

  /** The `split('\n').filter(...).map(...)` chain: one item per non-blank
      line of the reply, the `k`-th with id `ids(k)` and time `clock(k)`,
      which stand for `Math.random` and `Date.now`. */
  function ParseActions(reply: string, ids: nat -> string, clock: nat -> int): seq<Action>
  {
    var texts := ActionTexts(Split(reply));
    seq(|texts|, k requires 0 <= k < |texts| => Action(ids(k), texts[k], clock(k), AiSource))
  }

  /** The `k`-th item of a reply is a non-empty trimmed text tagged "ai",
      with the `k`-th id and time. */
  lemma ParsedItemFields(reply: string, ids: nat -> string, clock: nat -> int)
    ensures var items := ParseActions(reply, ids, clock);
      forall k :: 0 <= k < |items| ==>
        items[k].text != "" && Trim(items[k].text) == items[k].text
        && items[k].id == ids(k) && items[k].timestamp == clock(k) && items[k].source == "ai"
  {
    var texts := ActionTexts(Split(reply));
    ActionTextsTrimmed(Split(reply));
    assert forall k :: 0 <= k < |texts| ==> texts[k] in texts;
  }

  /** The item texts are the trimmed reply lines with the blank ones left
      out, in line order, so there are no more items than lines. */
  lemma ParsedItemOrder(reply: string, ids: nat -> string, clock: nat -> int)
    ensures var items, lines := ParseActions(reply, ids, clock), Split(reply);
      Subseq(Texts(items), TrimEach(lines)) && |items| <= |lines|
  {
    var lines := Split(reply);
    ParsedTexts(reply, ids, clock);
    ActionTextsSubseq(lines);
    SubseqBounds(ActionTexts(lines), TrimEach(lines));
    TrimEachLength(lines);
  }

  /** Every non-blank line of the reply becomes an item with its trimmed text. */
  lemma ParsedItemsComplete(reply: string, ids: nat -> string, clock: nat -> int)
    ensures var items, lines := ParseActions(reply, ids, clock), Split(reply);
      forall i :: 0 <= i < |lines| && Trim(lines[i]) != "" ==> Trim(lines[i]) in Texts(items)
  {
    ParsedTexts(reply, ids, clock);
    ActionTextsComplete(Split(reply));
  }

  /** One item per non-blank reply line, repeated lines included: each
      non-empty trimmed line occurs among the item texts as often as among
      the trimmed lines. */
  lemma ParsedItemCounts(reply: string, ids: nat -> string, clock: nat -> int)
    ensures var items, trimmed := ParseActions(reply, ids, clock), TrimEach(Split(reply));
      |items| + multiset(trimmed)[""] == |Split(reply)|
      && forall t :: multiset(Texts(items))[t] == (if t == "" then 0 else multiset(trimmed)[t])
  {
    ParsedTexts(reply, ids, clock);
    ActionTextsCounts(Split(reply));
    ActionTextsLength(Split(reply));
  }

  /** Every parsed item is tagged "ai" and carries a non-empty trimmed line
      of the reply. */
  lemma ParsedItemMembers(reply: string, ids: nat -> string, clock: nat -> int)
    ensures forall x :: x in ParseActions(reply, ids, clock) ==>
      x.text != "" && x.source == AiSource && x.text in TrimEach(Split(reply))
  {
    var lines := Split(reply);
    var texts := ActionTexts(lines);
    ActionTextsTrimmed(lines);
    ActionTextsSubseq(lines);
    SubseqBounds(texts, TrimEach(lines));
    forall x | x in ParseActions(reply, ids, clock)
      ensures x.text != "" && x.source == AiSource && x.text in TrimEach(lines)
    {
      var k :| 0 <= k < |texts| && ParseActions(reply, ids, clock)[k] == x;
      assert x.text == texts[k] && texts[k] in texts;
    }
  }

  /** The texts of the items depend on the reply only, not on the ids and times. */
  lemma ParsedTexts(reply: string, ids: nat -> string, clock: nat -> int)
    ensures Texts(ParseActions(reply, ids, clock)) == ActionTexts(Split(reply))
  {
  }

  /** The texts parsed from a reply are the action texts of its lines. */
  lemma ParseOfLines(reply: string, lines: seq<string>, ids: nat -> string, clock: nat -> int)
    requires Split(reply) == lines
    ensures Texts(ParseActions(reply, ids, clock)) == ActionTexts(lines)
  {
    ParsedTexts(reply, ids, clock);
  }

  /** Two actions separated by a blank line yield exactly those two actions. */
  lemma ParseAroundBlankLine(a: string, b: string, ids: nat -> string, clock: nat -> int)
    requires '\n' !in a && a != [] && !IsSpace(a[0]) && !IsSpace(a[|a| - 1])
    requires '\n' !in b && b != [] && !IsSpace(b[0]) && !IsSpace(b[|b| - 1])
    ensures Texts(ParseActions(a + "\n" + "" + "\n" + b, ids, clock)) == [a, b]
  {
    ActionTextsAroundBlank(a, b);
    ParseOfThreeLines(a, "", b, ids, clock);
  }

  /** The blank middle line of three contributes nothing. */
  lemma ActionTextsAroundBlank(a: string, b: string)
    requires a != [] && !IsSpace(a[0]) && !IsSpace(a[|a| - 1])
    requires b != [] && !IsSpace(b[0]) && !IsSpace(b[|b| - 1])
    ensures ActionTexts([a, "", b]) == [a, b]
  {
    TrimUnchanged(a);
    TrimUnchanged(b);
    var lines := [a, "", b];
    assert lines[1..][1..] == [b];
    assert ActionTexts([b]) == [b];
    assert ActionTexts(lines[1..]) == [b];
  }

  /** A reply of three newline-free lines is parsed from those lines. */
  lemma ParseOfThreeLines(a: string, b: string, c: string, ids: nat -> string, clock: nat -> int)
    requires '\n' !in a && '\n' !in b && '\n' !in c
    ensures Texts(ParseActions(a + "\n" + b + "\n" + c, ids, clock)) == ActionTexts([a, b, c])
  {
    SplitThree(a, b, c);
    ParseOfLines(a + "\n" + b + "\n" + c, [a, b, c], ids, clock);
  }

  /** "Buy milk\n\nCall Bob" yields the items "Buy milk" and "Call Bob". */
  lemma ParseBuyMilkCallBob(ids: nat -> string, clock: nat -> int)
    ensures Texts(ParseActions("Buy milk\n\nCall Bob", ids, clock)) == ["Buy milk", "Call Bob"]
  {
    assert "Buy milk\n\nCall Bob" == "Buy milk" + "\n" + "" + "\n" + "Call Bob";
    ParseAroundBlankLine("Buy milk", "Call Bob", ids, clock);
  }

  /** A line given twice yields two items with that text. */
  lemma ParseRepeatedLine(a: string, ids: nat -> string, clock: nat -> int)
    requires '\n' !in a && a != [] && !IsSpace(a[0]) && !IsSpace(a[|a| - 1])
    ensures Texts(ParseActions(a + "\n" + a, ids, clock)) == [a, a]
  {
    SplitTwo(a, a);
    ParseOfLines(a + "\n" + a, [a, a], ids, clock);
    ActionTextsRepeated(a);
  }

  /** Both copies of a repeated trimmed line are kept. */
  lemma ActionTextsRepeated(a: string)
    requires a != [] && !IsSpace(a[0]) && !IsSpace(a[|a| - 1])
    ensures ActionTexts([a, a]) == [a, a]
  {
    TrimUnchanged(a);
    assert [a, a][1..] == [a];
    assert ActionTexts([a]) == [a];
  }

  /** A trailing newline adds no item: whatever the reply, the texts of
      `reply + "\n"` are those of `reply`. */
  lemma ParseTrailingNewline(reply: string, ids: nat -> string, clock: nat -> int)
    ensures Texts(ParseActions(reply + "\n", ids, clock)) == Texts(ParseActions(reply, ids, clock))
  {
    SplitTrailing(reply);
    ActionTextsAppendEmpty(Split(reply));
    ParsedTexts(reply + "\n", ids, clock);
    ParsedTexts(reply, ids, clock);
  }

  /** An empty last line contributes nothing. */
  lemma ActionTextsAppendEmpty(lines: seq<string>)
    ensures ActionTexts(lines + [""]) == ActionTexts(lines)
  {
    ActionTextsConcat(lines, [""]);
    ActionTextsOfEmptyLine();
    assert ActionTexts(lines) + [] == ActionTexts(lines);
  }

  /** The filter works line by line, so it distributes over concatenation. */
  lemma {:induction false} ActionTextsConcat(a: seq<string>, b: seq<string>)
    ensures ActionTexts(a + b) == ActionTexts(a) + ActionTexts(b)
  {
    if a == [] {
      assert a + b == b;
    } else {
      ActionTextsConcat(a[1..], b);
      ConcatTail(a, b);
      var head := if Trim(a[0]) == "" then [] else [Trim(a[0])];
      ConcatAssocSeq(head, ActionTexts(a[1..]), ActionTexts(b));
    }
  }

  /** An empty line alone has no action text. */
  lemma ActionTextsOfEmptyLine()
    ensures ActionTexts([""]) == []
  {
    assert Trim("") == "";
    assert [""][1..] == [];
  }

  /** A single trimmed line followed by a newline gives exactly that one item. */
  lemma ParseOneLineWithNewline(a: string, ids: nat -> string, clock: nat -> int)
    requires '\n' !in a && a != [] && !IsSpace(a[0]) && !IsSpace(a[|a| - 1])
    ensures Texts(ParseActions(a + "\n" + "", ids, clock)) == [a]
  {
    SplitTwo(a, "");
    ParseOfLines(a + "\n" + "", [a, ""], ids, clock);
    ActionTextsBeforeBlank(a);
  }

  /** A line followed by an empty line contributes only itself. */
  lemma ActionTextsBeforeBlank(a: string)
    requires a != [] && !IsSpace(a[0]) && !IsSpace(a[|a| - 1])
    ensures ActionTexts([a, ""]) == [a]
  {
    TrimUnchanged(a);
    assert Trim("") == "";
    assert ActionTexts([""]) == [];
    assert [a, ""][1..] == [""];
  }

  /** Only the exact sentinel is recognised: followed by a newline it is
      parsed as an action whose text is "NO_ACTIONS". */
  lemma SentinelIsExact(ids: nat -> string, clock: nat -> int)
    ensures !IsNoActions(Some("NO_ACTIONS\n"))
    ensures Texts(ParseActions("NO_ACTIONS\n", ids, clock)) == ["NO_ACTIONS"]
  {
    assert "NO_ACTIONS\n" == "NO_ACTIONS" + "\n" + "";
    assert |"NO_ACTIONS\n"| != |NoActions|;
    ParseOneLineWithNewline("NO_ACTIONS", ids, clock);
  }

  // ---------------------------------------------------------------------
  // The deduplicating merge
  // ---------------------------------------------------------------------

  /** `new Set(prevActions.map(a => a.text.toLowerCase()))`. */
  function LowerTexts(actions: seq<Action>): set<string>
  {
    set a | a in actions :: Lower(a.text)
  }

  /** `newActionItems.filter(action => !existingTexts.has(action.text.toLowerCase()))`. */
  function Unseen(batch: seq<Action>, seen: set<string>): seq<Action>
  {
    if batch == [] then []
    else (if Lower(batch[0].text) in seen then [] else [batch[0]]) + Unseen(batch[1..], seen)
  }

  /** An item survives exactly when it is in the batch and its lower-cased
      text has not been seen. */
  lemma {:induction false} UnseenMembers(batch: seq<Action>, seen: set<string>)
    ensures forall x :: x in Unseen(batch, seen) <==> x in batch && Lower(x.text) !in seen
  {
    if batch != [] {
      UnseenMembers(batch[1..], seen);
      assert batch == [batch[0]] + batch[1..];
    }
  }

  /** The survivors keep their batch order. */
  lemma {:induction false} UnseenSubseq(batch: seq<Action>, seen: set<string>)
    ensures Subseq(Unseen(batch, seen), batch)
  {
    if batch != [] {
      UnseenSubseq(batch[1..], seen);
      var rest := Unseen(batch[1..], seen);
      if Lower(batch[0].text) !in seen {
        assert Unseen(batch, seen) == [batch[0]] + rest;
        assert ([batch[0]] + rest)[1..] == rest;
      } else {
        assert Unseen(batch, seen) == rest;
      }
    }
  }

  /** The filter keeps every copy: an item occurs among the survivors as
      often as in the batch when its lower-cased text is unseen, and not at
      all otherwise. */
  lemma {:induction false} UnseenCounts(batch: seq<Action>, seen: set<string>)
    ensures forall x ::
      multiset(Unseen(batch, seen))[x] == (if Lower(x.text) in seen then 0 else multiset(batch)[x])
  {
    if batch != [] {
      UnseenCounts(batch[1..], seen);
      assert batch == [batch[0]] + batch[1..];
    }
  }

  /** Nothing survives when every lower-cased text has been seen. */
  lemma {:induction false} UnseenCovered(batch: seq<Action>, seen: set<string>)
    requires forall i :: 0 <= i < |batch| ==> Lower(batch[i].text) in seen
    ensures Unseen(batch, seen) == []
  {
    if batch != [] {
      UnseenCovered(batch[1..], seen);
    }
  }

  /** Which items survive depends on their texts only. */
  lemma {:induction false} UnseenByTexts(batch: seq<Action>, again: seq<Action>, seen: set<string>)
    requires Texts(again) == Texts(batch)
    ensures Unseen(batch, seen) == [] <==> Unseen(again, seen) == []
  {
    if batch != [] {
      assert |again| == |batch|;
      assert again[0].text == Texts(again)[0];
      assert Texts(again[1..]) == Texts(again)[1..];
      assert Texts(batch[1..]) == Texts(batch)[1..];
      UnseenByTexts(batch[1..], again[1..], seen);
    } else {
      assert |again| == 0;
    }
  }

  /** The `prev => [...prev, ...unique]` updater. */
  function Merge(prev: seq<Action>, batch: seq<Action>): seq<Action>
  {
    prev + Unseen(batch, LowerTexts(prev))
  }

  /** The merge only appends: the existing list is an unchanged prefix of the
      result; the appended items are, in order, exactly those items of the
      batch whose lower-cased text differs from that of every existing item. */
  lemma MergeAppends(prev: seq<Action>, batch: seq<Action>)
    ensures var r := Merge(prev, batch);
      |prev| <= |r| && r[..|prev|] == prev
      && Subseq(r[|prev|..], batch)
      && (forall x :: x in r[|prev|..] <==>
            x in batch && forall a :: a in prev ==> Lower(a.text) != Lower(x.text))
  {
    var r := Merge(prev, batch);
    var seen := LowerTexts(prev);
    assert r[..|prev|] == prev;
    assert r[|prev|..] == Unseen(batch, seen);
    UnseenSubseq(batch, seen);
    UnseenMembers(batch, seen);
  }

  /** The appended items hold every copy of each batch item whose
      lower-cased text is new, so repeated items of one batch all survive. */
  lemma MergeCounts(prev: seq<Action>, batch: seq<Action>)
    ensures var r := Merge(prev, batch);
      |prev| <= |r|
      && forall x :: multiset(r[|prev|..])[x]
           == (if Lower(x.text) in LowerTexts(prev) then 0 else multiset(batch)[x])
  {
    var r := Merge(prev, batch);
    assert r[|prev|..] == Unseen(batch, LowerTexts(prev));
    UnseenCounts(batch, LowerTexts(prev));
  }

  /** Merging a batch with the same texts again appends nothing; in
      particular merging the same batch twice is merging it once. */
  lemma MergeAgain(prev: seq<Action>, batch: seq<Action>, again: seq<Action>)
    requires Texts(again) == Texts(batch)
    ensures Merge(Merge(prev, batch), again) == Merge(prev, batch)
  {
    var once := Merge(prev, batch);
    var seen := LowerTexts(prev);
    UnseenMembers(batch, seen);
    forall i | 0 <= i < |batch|
      ensures Lower(batch[i].text) in LowerTexts(once)
    {
      if Lower(batch[i].text) in seen {
        var a :| a in prev && Lower(a.text) == Lower(batch[i].text);
        assert a in once;
      } else {
        assert batch[i] in Unseen(batch, seen);
        assert batch[i] in once;
      }
    }
    UnseenCovered(batch, LowerTexts(once));
    UnseenByTexts(batch, again, LowerTexts(once));
    assert once + [] == once;
  }

  /** An existing "Buy milk" absorbs "buy milk"; only "Call Bob" is appended. */
  lemma MergeIgnoresCase(milk: Action, bob: Action, lower: Action)
    requires milk.text == "Buy milk" && lower.text == "buy milk" && bob.text == "Call Bob"
    ensures Merge([milk], [lower, bob]) == [milk, bob]
  {
    LowerAt(milk.text);
    LowerAt(lower.text);
    LowerAt(bob.text);
    assert Lower(lower.text) == Lower(milk.text);
    assert Lower(bob.text)[0] != Lower(milk.text)[0];
    var seen := LowerTexts([milk]);
    assert seen == {Lower(milk.text)};
    var batch := [lower, bob];
    assert batch[1..] == [bob];
    assert Unseen([bob], seen) == [bob];
  }

  /** Items are compared with the existing list only, so two items of one
      batch with the same new text are both appended. */
  lemma BatchDuplicatesSurvive(prev: seq<Action>, x: Action, y: Action)
    requires Lower(x.text) !in LowerTexts(prev) && Lower(y.text) !in LowerTexts(prev)
    ensures Merge(prev, [x, y]) == prev + [x, y]
  {
    var seen := LowerTexts(prev);
    assert [x, y][1..] == [y];
    assert Unseen([y], seen) == [y];
    assert Unseen([x, y], seen) == [x, y];
  }
}
