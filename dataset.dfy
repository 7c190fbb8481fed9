/**
 * The list-building passes of the data preparation: `process_dataset` turns message lists into
 * `{input, output}` records, `augment_with_hindi` inserts translated copies after selected
 * records, and `main` cuts the shuffled records into a training and a validation part.
 */
module DataPreparation {
  import opened PyText
  import opened Cleaning
  import opened Extraction
  import opened StructuredOutput

  /** A chat message: a dict whose "content" is missing or None (`None`) or a string, or any
      other value. */
  datatype Message = DictMessage(content: Option<string>) | OtherMessage

  /** One item of `dataset["train"]`: its "messages" list. */
  datatype Item = Item(messages: seq<Message>)

  /** One processed record `{"input": ..., "output": ...}`. */
  datatype Record = Record(input: string, output: string)

  /** `isinstance(msg, dict) and "content" in msg and msg["content"] is not None`. */
  predicate Contributes(m: Message) {
    m.DictMessage? && m.content.Some?
  }

  /** The contents `process_dataset` collects from a message list, in order. */
  function MessageContents(messages: seq<Message>): (parts: seq<string>)
    ensures |parts| <= |messages|
  {
    if messages == [] then []
    else
      var last := messages[|messages| - 1];
      MessageContents(messages[..|messages| - 1]) + (if Contributes(last) then [last.content.value] else [])
  }

  /** Exactly the contents of contributing messages are collected. */
  lemma {:induction false} MessageContentsMembers(messages: seq<Message>, s: string)
    ensures s in MessageContents(messages) <==>
              exists i :: 0 <= i < |messages| && Contributes(messages[i]) && messages[i].content.value == s
  {
    if messages != [] {
      var init := messages[..|messages| - 1];
      MessageContentsMembers(init, s);
      if exists i :: 0 <= i < |init| && Contributes(init[i]) && init[i].content.value == s {
        var i :| 0 <= i < |init| && Contributes(init[i]) && init[i].content.value == s;
        assert messages[i] == init[i];
      }
      if exists i :: 0 <= i < |messages| && Contributes(messages[i]) && messages[i].content.value == s {
        var i :| 0 <= i < |messages| && Contributes(messages[i]) && messages[i].content.value == s;
        if i < |init| {
          assert init[i] == messages[i];
        }
      }
    }
  }

  /** Collecting is done message by message: the contents of two message lists put together are
      the contents of the first followed by those of the second, so order and repeats are kept. */
  lemma {:induction false} MessageContentsAppend(a: seq<Message>, b: seq<Message>)
    ensures MessageContents(a + b) == MessageContents(a) + MessageContents(b)
    decreases |b|
  {
    if b == [] {
      assert a + b == a;
    } else {
      var init := b[..|b| - 1];
      var last := b[|b| - 1];
      var more: seq<string> := if Contributes(last) then [last.content.value] else [];
      assert (a + b)[..|a + b| - 1] == a + init;
      assert (a + b)[|a + b| - 1] == last;
      MessageContentsAppend(a, init);
      assert MessageContents(b) == MessageContents(init) + more;
      assert MessageContents(a + b) == MessageContents(a + init) + more;
    }
  }

  /** One message contributes its content string when it is a dict with one, and nothing
      otherwise. */
  lemma MessageContentsSingle(m: Message)
    ensures MessageContents([m]) == if Contributes(m) then [m.content.value] else []
  {
    assert [m][..0] == [];
  }

  /** Messages that are not dicts with a content string contribute nothing. */
  lemma MessageContentsSkips(messages: seq<Message>, m: Message)
    requires !Contributes(m)
    ensures MessageContents(messages + [m]) == MessageContents(messages)
  {
    assert (messages + [m])[..|messages|] == messages;
  }

  /** `" ".join(transcript_parts)` for the parts of one item. */
  function JoinedTranscript(item: Item): string {
    JoinWith(MessageContents(item.messages), " ")
  }

  /** `not transcript.strip()`. */
  predicate IsBlank(transcript: string) {
    Strip(transcript) == []
  }

  /** A text is blank exactly when every character of it is whitespace. */
  lemma BlankIff(transcript: string)
    ensures IsBlank(transcript) <==> forall k :: 0 <= k < |transcript| ==> IsSpace(transcript[k])
  {
    StripSpec(transcript);
    DropSpacesSpec(transcript);
    var t := DropSpaces(transcript);
    assert t == [] || t[0] == transcript[|transcript| - |t|];
  }

  /** The records one item contributes: none when its joined text is blank, otherwise the
      cleaned record, followed by its translated copy when `includeHindi` is set. */
  function RecordsFor(item: Item, includeHindi: bool, translate: string -> string): seq<Record> {
    var joined := JoinedTranscript(item);
    if IsBlank(joined) then []
    else
      var record := RecordOf(joined);
      if includeHindi then [record, Translated(record, translate)] else [record]
  }

  /** The translated copy of a record: its input translated, its output unchanged. */
  function Translated(record: Record, translate: string -> string): (r: Record)
    ensures r.output == record.output
  {
    Record(translate(record.input), record.output)
  }

  /** `process_dataset(dataset, include_hindi)` over the items of `dataset["train"]`. */
  function ProcessItems(items: seq<Item>, includeHindi: bool, translate: string -> string): seq<Record> {
    if items == [] then []
    else ProcessItems(items[..|items| - 1], includeHindi, translate)
         + RecordsFor(items[|items| - 1], includeHindi, translate)
  }

  /** The joined texts of the items that are not blank, in order. */
  function Transcripts(items: seq<Item>): (ts: seq<string>)
    ensures |ts| <= |items|
  {
    if items == [] then []
    else
      var joined := JoinedTranscript(items[|items| - 1]);
      Transcripts(items[..|items| - 1]) + (if IsBlank(joined) then [] else [joined])
  }

  /** The record for a non-blank joined transcript. */
  function RecordOf(joined: string): Record {
    var input := CleanTranscript(joined);
    Record(input, CreateStructuredOutput(input))
  }

  /** Without translation, the records are exactly one per non-blank item, in item order, each
      the cleaned transcript with the structured output of the cleaned text. */
  lemma {:induction false} ProcessPlain(items: seq<Item>, translate: string -> string)
    ensures var ts := Transcripts(items);
            var out := ProcessItems(items, false, translate);
            |out| == |ts| && forall k :: 0 <= k < |ts| ==> out[k] == RecordOf(ts[k])
  {
    if items != [] {
      ProcessPlain(items[..|items| - 1], translate);
    }
  }

  /** With translation, record `2k` is the record of the `k`-th non-blank item and record `2k+1`
      its translated copy, with the same output. */
  lemma ProcessWithHindi(items: seq<Item>, translate: string -> string)
    ensures var ts := Transcripts(items);
            var out := ProcessItems(items, true, translate);
            && |out| == 2 * |ts|
            && forall k :: 0 <= k < |ts| ==>
                 && out[2 * k] == RecordOf(ts[k])
                 && out[2 * k + 1] == Translated(RecordOf(ts[k]), translate)
  {
    ProcessCopies(items, translate);
    ProcessPlain(items, translate);
    WithCopiesAt(ProcessItems(items, false, translate), translate);
  }

  /** `records`, each followed by its translated copy. */
  function WithCopies(records: seq<Record>, translate: string -> string): seq<Record>
    decreases |records|
  {
    if records == [] then []
    else
      var last := records[|records| - 1];
      WithCopies(records[..|records| - 1], translate) + [last, Translated(last, translate)]
  }

  /** Element `2k` of `WithCopies(records)` is `records[k]` and element `2k+1` its copy. */
  lemma {:induction false} WithCopiesAt(records: seq<Record>, translate: string -> string)
    ensures |WithCopies(records, translate)| == 2 * |records|
    ensures forall k :: 0 <= k < |records| ==>
              && WithCopies(records, translate)[2 * k] == records[k]
              && WithCopies(records, translate)[2 * k + 1] == Translated(records[k], translate)
    decreases |records|
  {
    if records != [] {
      var init := records[..|records| - 1];
      WithCopiesAt(init, translate);
      var out := WithCopies(records, translate);
      forall k | 0 <= k < |init|
        ensures out[2 * k] == records[k] && out[2 * k + 1] == Translated(records[k], translate)
      {
        assert out[2 * k] == WithCopies(init, translate)[2 * k];
        assert out[2 * k + 1] == WithCopies(init, translate)[2 * k + 1];
      }
    }
  }

  /** Translation only adds, after each record, its translated copy. */
  lemma {:induction false} ProcessCopies(items: seq<Item>, translate: string -> string)
    ensures ProcessItems(items, true, translate) == WithCopies(ProcessItems(items, false, translate), translate)
  {
    if items != [] {
      var init := items[..|items| - 1];
      var joined := JoinedTranscript(items[|items| - 1]);
      var plain := ProcessItems(init, false, translate);
      ProcessCopies(init, translate);
      if IsBlank(joined) {
        assert plain + [] == plain;
      } else {
        var longer := plain + [RecordOf(joined)];
        assert longer[..|longer| - 1] == plain;
      }
    }
  }

  /** Every output line block reads back as the details extracted from the record's cleaned
      input: cleaned text has no newline. */
  lemma RecordOutputParses(joined: string)
    ensures Parse(RecordOf(joined).output) == Some(ExtractDetails(RecordOf(joined).input))
  {
    CleanTranscriptSpec(joined);
    StructuredOutputRoundTrip(CleanTranscript(joined));
  }

  /** Blankness is judged before cleaning: a message of only dropped characters still yields a
      record, whose input is empty. */
  lemma BlankCheckedBeforeCleaning(translate: string -> string)
    ensures ProcessItems([Item([DictMessage(Some("@"))])], false, translate) == [RecordOf("@")]
    ensures RecordOf("@").input == []
  {
    var item := Item([DictMessage(Some("@"))]);
    assert MessageContents(item.messages) == ["@"] by {
      assert item.messages[..0] == [];
    }
    assert JoinedTranscript(item) == "@";
    assert !IsBlank("@") by {
      BlankIff("@");
    }
    assert [item][..0] == [];
    CleanDropsAll();
  }

  lemma CleanDropsAll()
    ensures CleanTranscript("@") == []
  {
    assert SplitWs("@") == ["@"] by {
      assert DropSpaces("@") == "@";
      assert WordLen("@") == 1;
      assert "@"[1..] == [] && "@"[..1] == "@";
      assert SplitWs([]) == [];
    }
    assert !IsKept('@');
    assert KeepAllowed("@") == [] by {
      assert "@"[1..] == [];
    }
  }

  /** The inner loop of `process_dataset`: collects the contents of the contributing messages. */
  method CollectContents(messages: seq<Message>) returns (parts: seq<string>)
    ensures parts == MessageContents(messages)
  {
    parts := [];
    var j := 0;
    while j < |messages|
      invariant 0 <= j <= |messages|
      invariant parts == MessageContents(messages[..j])
    {
      var msg := messages[j];
      if msg.DictMessage? && msg.content.Some? {
        parts := parts + [msg.content.value];
      }
      assert messages[..j + 1][..j] == messages[..j];
      j := j + 1;
    }
    assert messages[..j] == messages;
  }

  /** One more item appends that item's records. */
  lemma ProcessStep(items: seq<Item>, n: nat, includeHindi: bool, translate: string -> string)
    requires n < |items|
    ensures ProcessItems(items[..n + 1], includeHindi, translate)
            == ProcessItems(items[..n], includeHindi, translate) + RecordsFor(items[n], includeHindi, translate)
  {
    assert items[..n + 1][..n] == items[..n];
  }

  /** The three shapes of an item's contribution. */
  lemma RecordsForCases(item: Item, includeHindi: bool, translate: string -> string)
    ensures var joined := JoinedTranscript(item);
            var input := CleanTranscript(joined);
            var output := CreateStructuredOutput(input);
            RecordsFor(item, includeHindi, translate) ==
              if IsBlank(joined) then []
              else if includeHindi then [Record(input, output), Record(translate(input), output)]
              else [Record(input, output)]
  {
  }

  /** The body of the outer loop of `process_dataset` for one item: skip a blank transcript,
      otherwise append the cleaned record and, when asked, its translated copy. */
  method AppendItemRecords(processed: seq<Record>, item: Item, includeHindi: bool, translate: string -> string)
    returns (extended: seq<Record>)
    ensures extended == processed + RecordsFor(item, includeHindi, translate)
  {
    extended := processed;
    var parts := CollectContents(item.messages);
    var transcript := JoinWith(parts, " ");
    RecordsForCases(item, includeHindi, translate);
    if !IsBlank(transcript) {
      transcript := CleanTranscript(transcript);
      var output := CreateStructuredOutput(transcript);
      extended := extended + [Record(transcript, output)];
      if includeHindi {
        var hindiTranscript := translate(transcript);
        extended := extended + [Record(hindiTranscript, output)];
      }
    }
  }

  /** The outer loop of `process_dataset`. */
  method ProcessDataset(items: seq<Item>, includeHindi: bool, translate: string -> string)
    returns (processed: seq<Record>)
    ensures processed == ProcessItems(items, includeHindi, translate)
  {
    processed := [];
    var n := 0;
    while n < |items|
      invariant 0 <= n <= |items|
      invariant processed == ProcessItems(items[..n], includeHindi, translate)
    {
      ProcessStep(items, n, includeHindi, translate);
      processed := AppendItemRecords(processed, items[n], includeHindi, translate);
      n := n + 1;
    }
    assert items[..n] == items;
  }

  /** How many members of `selected` lie below `n`. */
  function SelectedBelow(selected: set<nat>, n: nat): nat {
    if n == 0 then 0 else SelectedBelow(selected, n - 1) + (if n - 1 in selected then 1 else 0)
  }

  /** The count is the size of the part of `selected` below `n`. */
  lemma {:induction false} SelectedBelowCard(selected: set<nat>, n: nat)
    ensures SelectedBelow(selected, n) == |set i | i in selected && i < n|
  {
    if n > 0 {
      SelectedBelowCard(selected, n - 1);
      var below := set i | i in selected && i < n - 1;
      var upTo := set i | i in selected && i < n;
      if n - 1 in selected {
        assert upTo == below + {n - 1};
      } else {
        assert upTo == below;
      }
    }
  }

  /** The augmented prefix for the first `n` records: each record, followed by its translated
      copy when its index is selected. */
  function AugmentPrefix(dataset: seq<Record>, n: nat, selected: set<nat>, translate: string -> string): seq<Record>
    requires n <= |dataset|
  {
    if n == 0 then []
    else
      var original := dataset[n - 1];
      AugmentPrefix(dataset, n - 1, selected, translate) + [original]
      + (if n - 1 in selected then [original.(input := translate(original.input))] else [])
  }

  /** `augment_with_hindi(dataset, model, tokenizer)` with `random.sample`'s chosen indices given
      as `selected`. */
  function Augment(dataset: seq<Record>, hasModel: bool, hasTokenizer: bool, selected: set<nat>,
                   translate: string -> string): seq<Record>
  {
    if !hasModel || !hasTokenizer then dataset
    else AugmentPrefix(dataset, |dataset|, selected, translate)
  }

  /** Where the `i`-th original lands in the augmented list. */
  function Position(selected: set<nat>, i: nat): nat {
    i + SelectedBelow(selected, i)
  }

  /** The augmented prefix has one entry per original and one per selected original. */
  lemma {:induction false} AugmentPrefixLength(dataset: seq<Record>, n: nat, selected: set<nat>,
                                               translate: string -> string)
    requires n <= |dataset|
    ensures |AugmentPrefix(dataset, n, selected, translate)| == Position(selected, n)
  {
    if n > 0 {
      AugmentPrefixLength(dataset, n - 1, selected, translate);
    }
  }

  /** A shorter augmented prefix is a prefix of a longer one: later records never disturb
      earlier entries. */
  lemma {:induction false} AugmentPrefixGrows(dataset: seq<Record>, m: nat, n: nat, selected: set<nat>,
                                              translate: string -> string)
    requires m <= n <= |dataset|
    ensures AugmentPrefix(dataset, m, selected, translate) <= AugmentPrefix(dataset, n, selected, translate)
  {
    if m < n {
      AugmentPrefixGrows(dataset, m, n - 1, selected, translate);
    }
  }

  /** The `i`-th original sits at its position, directly followed by its translated copy
      (differing only in the input) when selected. */
  lemma AugmentEntry(dataset: seq<Record>, n: nat, selected: set<nat>, translate: string -> string, i: nat)
    requires i < n <= |dataset|
    ensures var a := AugmentPrefix(dataset, n, selected, translate);
            && Position(selected, i) < |a| && a[Position(selected, i)] == dataset[i]
            && (i in selected ==>
                  && Position(selected, i) + 1 < |a|
                  && a[Position(selected, i) + 1] == dataset[i].(input := translate(dataset[i].input)))
  {
    AugmentPrefixLength(dataset, i, selected, translate);
    AugmentPrefixGrows(dataset, i + 1, n, selected, translate);
    var before := AugmentPrefix(dataset, i, selected, translate);
    var upTo := AugmentPrefix(dataset, i + 1, selected, translate);
    var a := AugmentPrefix(dataset, n, selected, translate);
    assert upTo[|before|] == dataset[i];
    assert a[|before|] == upTo[|before|];
    if i in selected {
      assert a[|before| + 1] == upTo[|before| + 1];
    }
  }

  /** The augmented prefix holds every original at its position, in order, directly followed by
      its translated copy (differing only in the input) when selected, and nothing else. */
  lemma AugmentPrefixLayout(dataset: seq<Record>, n: nat, selected: set<nat>, translate: string -> string)
    requires n <= |dataset|
    ensures var a := AugmentPrefix(dataset, n, selected, translate);
            && |a| == n + SelectedBelow(selected, n)
            && forall i :: 0 <= i < n ==>
                 && Position(selected, i) < |a| && a[Position(selected, i)] == dataset[i]
                 && (i in selected ==>
                       && Position(selected, i) + 1 < |a|
                       && a[Position(selected, i) + 1] == dataset[i].(input := translate(dataset[i].input)))
  {
    AugmentPrefixLength(dataset, n, selected, translate);
    forall i | 0 <= i < n {
      AugmentEntry(dataset, n, selected, translate, i);
    }
  }

  /** Positions increase with the index, so the originals keep their order, and a selected
      original's copy sits strictly before the next original. */
  lemma {:induction false} PositionsIncrease(selected: set<nat>, i: nat, j: nat)
    requires i < j
    ensures Position(selected, i) + (if i in selected then 1 else 0) < Position(selected, j)
    decreases j - i
  {
    if i + 1 < j {
      PositionsIncrease(selected, i + 1, j);
      PositionsIncrease(selected, i, i + 1);
    }
  }

  /** When the indices are a sample of the record positions, the result grows by exactly the
      number of samples. */
  lemma AugmentLength(dataset: seq<Record>, selected: set<nat>, translate: string -> string)
    requires forall i :: i in selected ==> i < |dataset|
    ensures |Augment(dataset, true, true, selected, translate)| == |dataset| + |selected|
  {
    AugmentPrefixLayout(dataset, |dataset|, selected, translate);
    SelectedBelowCard(selected, |dataset|);
    assert (set i | i in selected && i < |dataset|) == selected;
  }

  /** Without a model or a tokenizer the dataset is returned as it is. */
  lemma AugmentWithoutModel(dataset: seq<Record>, hasModel: bool, hasTokenizer: bool, selected: set<nat>,
                            translate: string -> string)
    requires !hasModel || !hasTokenizer
    ensures Augment(dataset, hasModel, hasTokenizer, selected, translate) == dataset
  {
  }

  /** The loop of `augment_with_hindi`. */
  method AugmentWithHindi(dataset: seq<Record>, hasModel: bool, hasTokenizer: bool, selected: set<nat>,
                          translate: string -> string)
    returns (augmented: seq<Record>)
    ensures augmented == Augment(dataset, hasModel, hasTokenizer, selected, translate)
  {
    if !hasModel || !hasTokenizer {
      return dataset;
    }
    augmented := [];
    var i := 0;
    while i < |dataset|
      invariant 0 <= i <= |dataset|
      invariant augmented == AugmentPrefix(dataset, i, selected, translate)
    {
      augmented := augmented + [dataset[i]];
      if i in selected {
        var hindiSample := dataset[i].(input := translate(dataset[i].input));
        augmented := augmented + [hindiSample];
      }
      i := i + 1;
    }
  }

  /** `processed_data[:split_idx]` and `processed_data[split_idx:]`, with Python's clamping of
      a slice bound past the end. */
  function SplitTrainValid(shuffled: seq<Record>, splitIndex: nat): (seq<Record>, seq<Record>) {
    var k := if splitIndex <= |shuffled| then splitIndex else |shuffled|;
    (shuffled[..k], shuffled[k..])
  }

  /** The two parts put back together are the shuffled list, the training part has the split
      index's length, and with a shuffle that is a permutation, the parts together hold exactly
      the processed records. */
  lemma SplitPartition(processed: seq<Record>, shuffled: seq<Record>, splitIndex: nat)
    requires multiset(shuffled) == multiset(processed)
    requires splitIndex <= |shuffled|
    ensures var (train, valid) := SplitTrainValid(shuffled, splitIndex);
            && train + valid == shuffled
            && |train| == splitIndex
            && multiset(train) + multiset(valid) == multiset(processed)
  {
    var (train, valid) := SplitTrainValid(shuffled, splitIndex);
    assert train + valid == shuffled;
  }
}
