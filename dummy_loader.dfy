/** The toy loader for the 9-label schema: a text file of blank-line
    separated blocks, each a line of words and a line of tags, and a strict
    aligner that looks each first-piece tag up with no fallback. */
module DummyLoader {
  import opened Results
  import opened Seqs
  import opened Strings
  import opened Alignment
  import Labels

  /** Unpacking a block into exactly two lines failed (Python's
      `ValueError`); `lineCount` is how many lines the block had. */
  datatype LoadError = UnpackError(lineCount: nat)

  /** One block's words and tags. */
  datatype Entry = Entry(sentence: seq<string>, tags: seq<string>)

  /** What `load_data` returns: one word list and one tag list per block. */
  datatype Corpus = Corpus(sentences: seq<seq<string>>, labels: seq<seq<string>>)

  // ===========================================================================
  // load_data

  /** The file's text stripped and cut at every blank line. */
  function Blocks(text: string): seq<string> {
    Split(Strip(text), "\n\n")
  }

  /** A block unpacks when it has exactly two lines. */
  predicate TwoLines(block: string) {
    |Split(block, "\n")| == 2
  }

  /** The words and tags of one block, or the unpacking error. */
  function ParseBlock(block: string): (r: Result<Entry, LoadError>)
    ensures r.Success? <==> TwoLines(block)
    ensures r.Failure? ==> r.error.lineCount != 2
  {
    var lines := Split(block, "\n");
    if |lines| != 2 then Failure(UnpackError(|lines|))
    else Success(Entry(Words(lines[0]), Words(lines[1])))
  }

  /** Each block's outcome, block by block. */
  function Entries(blocks: seq<string>): (es: seq<Result<Entry, LoadError>>)
    ensures |es| == |blocks|
  {
    if blocks == [] then [] else [ParseBlock(blocks[0])] + Entries(blocks[1..])
  }

  /** The entries gathered in order, stopping at the first failed block. */
  function Collect(es: seq<Result<Entry, LoadError>>): Result<Corpus, LoadError>
    decreases |es|
  {
    if es == [] then Success(Corpus([], []))
    else
      var n := |es| - 1;
      match Collect(es[..n])
      case Failure(e) => Failure(e)
      case Success(c) =>
        match es[n]
        case Failure(e) => Failure(e)
        case Success(entry) =>
          Success(Corpus(c.sentences + [entry.sentence], c.labels + [entry.tags]))
  }

  /** What `load_data` yields for a file with this text. */
  function ReadCorpus(text: string): Result<Corpus, LoadError> {
    Collect(Entries(Blocks(text)))
  }

  /** `load_data` once the file is read: strip, cut at blank lines, then
      read the blocks. */
  method LoadData(text: string) returns (r: Result<Corpus, LoadError>)
    ensures r == ReadCorpus(text)
  {
    var blocks := Split(Strip(text), "\n\n");
    r := ReadBlocks(blocks);
  }

  /** The loop of `load_data` over the blocks: each must unpack into a line
      of words and a line of tags. */
  method ReadBlocks(blocks: seq<string>) returns (r: Result<Corpus, LoadError>)
    ensures r == Collect(Entries(blocks))
  {
    ghost var es := Entries(blocks);
    var sentences: seq<seq<string>> := [];
    var labels: seq<seq<string>> := [];
    for i := 0 to |blocks|
      invariant Collect(es[..i]) == Success(Corpus(sentences, labels))
    {
      var entry := ParseBlock(blocks[i]);
      EntryAt(blocks, i);
      if entry.Failure? {
        CollectStopsAt(es, i, entry.error);
        return Failure(entry.error);
      }
      CollectStep(es, i, Corpus(sentences, labels), entry.value);
      sentences := sentences + [entry.value.sentence];
      labels := labels + [entry.value.tags];
    }
    TakeAll(es);
    return Success(Corpus(sentences, labels));
  }

  /** The entry of block `i` is that block parsed. */
  lemma {:induction false} EntryAt(blocks: seq<string>, i: nat)
    requires i < |blocks|
    ensures Entries(blocks)[i] == ParseBlock(blocks[i])
  {
    if i > 0 {
      EntryAt(blocks[1..], i - 1);
    }
  }

  /** One more successful entry extends the gathered corpus by its sentence
      and its tags. */
  lemma CollectStep(es: seq<Result<Entry, LoadError>>, i: nat, c: Corpus, entry: Entry)
    requires i < |es| && Collect(es[..i]) == Success(c) && es[i] == Success(entry)
    ensures Collect(es[..i + 1])
            == Success(Corpus(c.sentences + [entry.sentence], c.labels + [entry.tags]))
  {
    assert es[..i + 1][..i] == es[..i];
  }

  /** A failed entry after a successful prefix ends the whole read with its error. */
  lemma CollectStopsAt(es: seq<Result<Entry, LoadError>>, i: nat, e: LoadError)
    requires i < |es| && Collect(es[..i]).Success? && es[i] == Failure(e)
    ensures Collect(es) == Failure(e)
  {
    assert es[..i + 1][..i] == es[..i];
    CollectPrefixFails(es, i + 1);
  }

  /** Once some prefix of the entries fails, the whole read fails the same way. */
  lemma {:induction false} CollectPrefixFails(es: seq<Result<Entry, LoadError>>, n: nat)
    requires n <= |es| && Collect(es[..n]).Failure?
    ensures Collect(es) == Collect(es[..n])
    decreases |es|
  {
    if n < |es| {
      var m := |es| - 1;
      assert es[..m][..n] == es[..n];
      CollectPrefixFails(es[..m], n);
    } else {
      assert es[..n] == es;
    }
  }

  /** Gathering succeeds exactly when every entry does, and then keeps each
      entry, in order; otherwise it fails with the first failed entry's error. */
  lemma {:induction false} CollectSpec(es: seq<Result<Entry, LoadError>>)
    ensures Collect(es).Success? <==> forall k :: 0 <= k < |es| ==> es[k].Success?
    ensures Collect(es).Success? ==>
              var c := Collect(es).value;
              && |c.sentences| == |es| && |c.labels| == |es|
              && forall k :: 0 <= k < |es| ==>
                   c.sentences[k] == es[k].value.sentence && c.labels[k] == es[k].value.tags
    ensures Collect(es).Failure? ==>
              exists k :: 0 <= k < |es| && es[k] == Failure(Collect(es).error)
                && forall j :: 0 <= j < k ==> es[j].Success?
    decreases |es|
  {
    if es != [] {
      var n := |es| - 1;
      var pre := es[..n];
      CollectSpec(pre);
      assert forall k :: 0 <= k < n ==> pre[k] == es[k];
      if Collect(pre).Failure? {
        var k :| 0 <= k < |pre| && pre[k] == Failure(Collect(pre).error)
                 && forall j :: 0 <= j < k ==> pre[j].Success?;
        assert es[k] == Failure(Collect(es).error);
      }
    }
  }

  /** A block unpacks exactly when it has two lines, into the words of the
      first and the tags of the second; otherwise the error counts its lines. */
  lemma ParseBlockSpec(block: string)
    ensures ParseBlock(block).Success? <==> TwoLines(block)
    ensures ParseBlock(block).Success? ==>
              ParseBlock(block).value
              == Entry(Words(Split(block, "\n")[0]), Words(Split(block, "\n")[1]))
    ensures ParseBlock(block).Failure? ==>
              ParseBlock(block).error == UnpackError(|Split(block, "\n")|)
  {
  }

  /** Reading succeeds exactly when every block has two lines; it then gives
      one entry per block, in order, each the block's words and tags.
      Otherwise it fails with the error of the first block that does not
      unpack. */
  lemma ReadBlocksSpec(blocks: seq<string>)
    ensures Collect(Entries(blocks)).Success? <==> forall k :: 0 <= k < |blocks| ==> TwoLines(blocks[k])
    ensures Collect(Entries(blocks)).Success? ==>
              var c := Collect(Entries(blocks)).value;
              && |c.sentences| == |blocks| && |c.labels| == |blocks|
              && forall k :: 0 <= k < |blocks| ==>
                   Entry(c.sentences[k], c.labels[k]) == ParseBlock(blocks[k]).value
    ensures Collect(Entries(blocks)).Failure? ==>
              exists k :: 0 <= k < |blocks| && !TwoLines(blocks[k])
                && Collect(Entries(blocks)) == Failure(ParseBlock(blocks[k]).error)
                && forall j :: 0 <= j < k ==> TwoLines(blocks[j])
  {
    var es := Entries(blocks);
    CollectSpec(es);
    forall k | 0 <= k < |blocks|
      ensures es[k] == ParseBlock(blocks[k])
      ensures es[k].Success? <==> TwoLines(blocks[k])
    {
      EntryAt(blocks, k);
      ParseBlockSpec(blocks[k]);
    }
  }

  /** The blocks are the stripped text cut at blank lines: joining them back
      with blank lines gives the stripped text. */
  lemma BlocksJoin(text: string)
    ensures Join(Blocks(text), "\n\n") == Strip(text)
  {
    JoinSplit(Strip(text), "\n\n");
  }

  /** An empty or all-whitespace file has one empty block, which does not
      unpack. */
  lemma ReadCorpusBlank(text: string)
    requires Strip(text) == ""
    ensures ReadCorpus(text) == Failure(UnpackError(1))
  {
    var empty := "";
    assert Split(empty, "\n\n") == [empty];
    assert Split(empty, "\n") == [empty];
    assert Blocks(text) == [empty];
    var es := Entries([empty]);
    assert es[0] == Failure(UnpackError(1));
    assert es[..0] == [];
    assert Collect(es[..0]) == Success(Corpus([], []));
  }

  // ---------------------------------------------------------------------------
  // The file format, written out

  /** One block: the words joined by spaces, a newline, the tags joined by
      spaces. */
  function BlockText(sentence: seq<string>, tags: seq<string>): string {
    Join(sentence, " ") + "\n" + Join(tags, " ")
  }

  /** The blocks of a corpus, one per entry. */
  function BlockTexts(c: Corpus): (blocks: seq<string>)
    requires |c.sentences| == |c.labels|
    ensures |blocks| == |c.sentences|
  {
    seq(|c.sentences|, k requires 0 <= k < |c.sentences| => BlockText(c.sentences[k], c.labels[k]))
  }

  /** A corpus written in the file format: its blocks joined by blank lines. */
  function Render(c: Corpus): string
    requires |c.sentences| == |c.labels|
  {
    Join(BlockTexts(c), "\n\n")
  }

  /** A non-empty list of words, none empty and none holding whitespace. */
  predicate WordList(ws: seq<string>) {
    ws != [] && forall m :: 0 <= m < |ws| ==> IsWord(ws[m])
  }

  /** A corpus a file can hold: at least one entry, every sentence and tag
      list a non-empty list of words. */
  predicate Writable(c: Corpus) {
    && |c.sentences| == |c.labels| >= 1
    && forall k :: 0 <= k < |c.sentences| ==> WordList(c.sentences[k]) && WordList(c.labels[k])
  }

  /** The words of a list, joined by spaces, hold no newline, and start and
      end with a non-whitespace character. */
  lemma JoinWordsNoNewline(ws: seq<string>)
    requires WordList(ws)
    ensures '\n' !in Join(ws, " ")
    ensures Join(ws, " ") != [] && !IsSpace(Join(ws, " ")[0])
    ensures !IsSpace(Join(ws, " ")[|Join(ws, " ")| - 1])
  {
    forall m | 0 <= m < |ws|
      ensures '\n' !in ws[m]
    {
      assert IsWord(ws[m]);
    }
    JoinAbsent(ws, " ", '\n');
    JoinEnds(ws, " ");
  }

  /** A block never holds a blank line, even running on into the blank line
      that follows it, and its two lines are the joined words and tags. */
  lemma BlockSepFree(sentence: seq<string>, tags: seq<string>)
    requires WordList(sentence) && WordList(tags)
    ensures SepFree(BlockText(sentence, tags), "\n\n")
    ensures Split(BlockText(sentence, tags), "\n") == [Join(sentence, " "), Join(tags, " ")]
  {
    var a, b := Join(sentence, " "), Join(tags, " ");
    JoinWordsNoNewline(sentence);
    JoinWordsNoNewline(tags);
    var p := BlockText(sentence, tags);
    var sep := "\n\n";
    forall j: nat | j < |p|
      ensures !OccursAt(p + sep, sep, j)
    {
      var t := p + sep;
      if j < |a| {
        assert t[j] == a[j];
        assert t[j..j + 2][0] != '\n';
      } else if j == |a| {
        assert t[j + 1] == b[0];
        assert t[j..j + 2][1] != '\n';
      } else {
        assert t[j] == b[j - |a| - 1];
        assert t[j..j + 2][0] != '\n';
      }
    }
    SplitOneDelim(a, b, '\n');
  }

  /** A written corpus starts with its first word and ends with its last
      tag, so stripping leaves it unchanged. */
  lemma RenderStripped(c: Corpus)
    requires Writable(c)
    ensures Strip(Render(c)) == Render(c)
  {
    var n := |c.sentences|;
    var blocks := BlockTexts(c);
    JoinWordsNoNewline(c.sentences[0]);
    JoinWordsNoNewline(c.labels[n - 1]);
    assert blocks[0][0] == Join(c.sentences[0], " ")[0];
    var last := Join(c.labels[n - 1], " ");
    assert blocks[n - 1][|blocks[n - 1]| - 1] == last[|last| - 1];
    JoinEnds(blocks, "\n\n");
  }

  /** Cutting a written corpus at blank lines gives back its blocks. */
  lemma RenderBlocks(c: Corpus)
    requires Writable(c)
    ensures Blocks(Render(c)) == BlockTexts(c)
  {
    var blocks := BlockTexts(c);
    RenderStripped(c);
    forall k | 0 <= k < |blocks|
      ensures SepFree(blocks[k], "\n\n")
    {
      BlockSepFree(c.sentences[k], c.labels[k]);
    }
    SplitJoin(blocks, "\n\n");
  }

  /** Each written block reads back as its own words and tags. */
  lemma ParseBlockText(sentence: seq<string>, tags: seq<string>)
    requires WordList(sentence) && WordList(tags)
    ensures ParseBlock(BlockText(sentence, tags)) == Success(Entry(sentence, tags))
  {
    BlockSepFree(sentence, tags);
    WordsJoin(sentence);
    WordsJoin(tags);
  }

  /** Every block of a written corpus reads back as its entry. */
  lemma EntriesOfRender(c: Corpus)
    requires Writable(c)
    ensures forall k :: 0 <= k < |c.sentences| ==>
              Entries(BlockTexts(c))[k] == Success(Entry(c.sentences[k], c.labels[k]))
  {
    var blocks := BlockTexts(c);
    forall k | 0 <= k < |c.sentences|
      ensures Entries(blocks)[k] == Success(Entry(c.sentences[k], c.labels[k]))
    {
      EntryAt(blocks, k);
      assert blocks[k] == BlockText(c.sentences[k], c.labels[k]);
      ParseBlockText(c.sentences[k], c.labels[k]);
    }
  }

  /** Reading a written corpus gives the corpus back. */
  lemma ReadRender(c: Corpus)
    requires Writable(c)
    ensures ReadCorpus(Render(c)) == Success(c)
  {
    RenderBlocks(c);
    EntriesOfRender(c);
    CollectAll(Entries(BlockTexts(c)), c);
  }

  /** Entries that all succeed gather into exactly the corpus they hold. */
  lemma CollectAll(es: seq<Result<Entry, LoadError>>, c: Corpus)
    requires |es| == |c.sentences| == |c.labels|
    requires forall k :: 0 <= k < |es| ==> es[k] == Success(Entry(c.sentences[k], c.labels[k]))
    ensures Collect(es) == Success(c)
  {
    CollectSpec(es);
    var r := Collect(es).value;
    SameElements(r.sentences, c.sentences);
    SameElements(r.labels, c.labels);
  }

  // ===========================================================================
  // tokenize_and_align, strict

  /** `label2id[label]` of the 9-label schema: no normalising, no fallback,
      and no id for a label outside the schema (Python's `KeyError`). */
  function StrictLookup(raw: string): (id: Option<int>)
    ensures id.Some? <==> raw in Labels.Label2Id
  {
    if raw in Labels.Label2Id then Some(Labels.Label2Id[raw]) else None
  }

  /** The inner loop for one example: the ignore id for pieces with no word
      and for pieces with the previous piece's word id, the tag's id for a
      piece whose word id differs from the previous piece's. */
  method AlignStrict(labelSeq: seq<string>, wordIds: seq<Option<nat>>)
    returns (r: Result<seq<int>, AlignError>)
    ensures r == Align(StrictLookup, labelSeq, wordIds)
  {
    var prevWord: Option<nat> := None;
    var labelIds: seq<int> := [];
    for i := 0 to |wordIds|
      invariant Align(StrictLookup, labelSeq, wordIds[..i]) == Success(labelIds)
      invariant prevWord == if i == 0 then None else wordIds[i - 1]
    {
      var wordId := wordIds[i];
      AlignStep(StrictLookup, labelSeq, wordIds, i, labelIds);
      if wordId.None? {
        labelIds := labelIds + [Ignore];
      } else if wordId != prevWord {
        var w := wordId.value;
        if w >= |labelSeq| {
          return Failure(WordIdOutOfRange(w));
        }
        if labelSeq[w] !in Labels.Label2Id {
          return Failure(UnknownLabel(labelSeq[w]));
        }
        labelIds := labelIds + [Labels.Label2Id[labelSeq[w]]];
      } else {
        labelIds := labelIds + [Ignore];
      }
      prevWord := wordId;
    }
    TakeAll(wordIds);
    return Success(labelIds);
  }

  /** The outer loop over the examples, each with its tokenizer word ids. */
  method TokenizeAndAlign(labels: seq<seq<string>>, wordIds: seq<seq<Option<nat>>>)
    returns (r: Result<seq<seq<int>>, AlignError>)
    requires |wordIds| == |labels|
    ensures r == AlignBatch(StrictLookup, labels, wordIds)
  {
    var allLabels: seq<seq<int>> := [];
    for i := 0 to |labels|
      invariant AlignBatch(StrictLookup, labels[..i], wordIds[..i]) == Success(allLabels)
    {
      assert labels[..i + 1][..i] == labels[..i] && wordIds[..i + 1][..i] == wordIds[..i];
      var ids := AlignStrict(labels[i], wordIds[i]);
      if ids.Failure? {
        AlignBatchPrefixFails(StrictLookup, labels, wordIds, i + 1);
        return Failure(ids.error);
      }
      allLabels := allLabels + [ids.value];
    }
    assert labels[..|labels|] == labels && wordIds[..|wordIds|] == wordIds;
    return Success(allLabels);
  }

  /** The strict aligner fails exactly when a piece names a word the example
      does not have or whose tag is outside the schema; otherwise a piece
      whose word id differs from the previous piece's gets its word's tag id,
      in 0 to 8, and every other piece the ignore id. */
  lemma AlignStrictOutcome(labelSeq: seq<string>, wordIds: seq<Option<nat>>)
    ensures Align(StrictLookup, labelSeq, wordIds).Success? <==>
              forall i :: 0 <= i < |wordIds| && wordIds[i].Some? ==>
                wordIds[i].value < |labelSeq| && labelSeq[wordIds[i].value] in Labels.Label2Id
    ensures Align(StrictLookup, labelSeq, wordIds).Success? ==>
              var ids := Align(StrictLookup, labelSeq, wordIds).value;
              && |ids| == |wordIds|
              && forall i :: 0 <= i < |wordIds| ==>
                   if IsNewWord(wordIds, i)
                   then ids[i] == Labels.Label2Id[labelSeq[wordIds[i].value]] && 0 <= ids[i] < Labels.NumLabels
                   else ids[i] == Ignore
  {
    Labels.Label2IdIsIndex();
    AlignSucceeds(StrictLookup, labelSeq, wordIds);
    AlignSpec(StrictLookup, labelSeq, wordIds);
  }
}
