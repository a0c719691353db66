/** Subword label alignment, shared by both aligners: the tokenizer's
    `word_ids` give, for every subword piece, the word it came from (or none,
    for special and padding pieces); a piece whose word id differs from the
    previous piece's takes its word's label id, every other piece the ignore
    id. When each word's pieces are adjacent, as the tokenizer produces them,
    those are exactly the first pieces of the words. The two aligners differ
    only in how a word's label becomes an id, so the label lookup is a
    parameter here. */
module Alignment {
  import opened Results

  /** The id the loss ignores. */
  const Ignore: int := -100

  /** Why aligning a sequence raises. */
  datatype AlignError =
    | WordIdOutOfRange(wordId: nat)   // `label_seq[word_id]` raises IndexError
    | UnknownLabel(name: string)      // `label2id[...]` raises KeyError

  /** Piece `i` starts a new word: it has a word id that differs from the
      previous piece's (`prev_word` starts as `None` and is updated after
      every piece, `None` pieces included). */
  predicate IsNewWord(wordIds: seq<Option<nat>>, i: nat)
    requires i < |wordIds|
  {
    wordIds[i].Some? && (i == 0 || wordIds[i - 1] != wordIds[i])
  }

  /** The id of piece `i`, or the error it raises. The word index is read
      before the lookup, so an out-of-range index is reported first. */
  function PieceId(lookup: string -> Option<int>, labelSeq: seq<string>,
                   wordIds: seq<Option<nat>>, i: nat): Result<int, AlignError>
    requires i < |wordIds|
  {
    if !IsNewWord(wordIds, i) then Success(Ignore)
    else
      var w := wordIds[i].value;
      if w >= |labelSeq| then Failure(WordIdOutOfRange(w))
      else match lookup(labelSeq[w])
        case None => Failure(UnknownLabel(labelSeq[w]))
        case Some(id) => Success(id)
  }

  /** The inner loop over pieces: ids in piece order; the first piece that
      raises ends it. */
  function Align(lookup: string -> Option<int>, labelSeq: seq<string>,
                 wordIds: seq<Option<nat>>): Result<seq<int>, AlignError>
    decreases |wordIds|
  {
    if wordIds == [] then Success([])
    else
      var n := |wordIds| - 1;
      match Align(lookup, labelSeq, wordIds[..n])
      case Failure(e) => Failure(e)
      case Success(ids) =>
        match PieceId(lookup, labelSeq, wordIds, n)
        case Failure(e) => Failure(e)
        case Success(id) => Success(ids + [id])
  }

  /** The outer loop over examples: one id sequence per example, in order;
      the first example that raises ends it. */
  function AlignBatch(lookup: string -> Option<int>, labels: seq<seq<string>>,
                      wordIds: seq<seq<Option<nat>>>): Result<seq<seq<int>>, AlignError>
    requires |wordIds| == |labels|
    decreases |labels|
  {
    if labels == [] then Success([])
    else
      var n := |labels| - 1;
      match AlignBatch(lookup, labels[..n], wordIds[..n])
      case Failure(e) => Failure(e)
      case Success(all) =>
        match Align(lookup, labels[n], wordIds[n])
        case Failure(e) => Failure(e)
        case Success(ids) => Success(all + [ids])
  }

  /** A piece that raises. */
  predicate Raises(lookup: string -> Option<int>, labelSeq: seq<string>,
                   wordIds: seq<Option<nat>>, i: nat)
    requires i < |wordIds|
  {
    PieceId(lookup, labelSeq, wordIds, i).Failure?
  }

  /** A successful alignment has one id per piece, and each id is the piece's
      own: a piece that starts a new word gets its label's id, every other
      piece (no word, or the same word as the piece before) the ignore id.
      Alignment fails exactly when some piece raises, and then with the error
      of the first such piece. */
  lemma {:induction false} AlignSpec(lookup: string -> Option<int>, labelSeq: seq<string>,
                                     wordIds: seq<Option<nat>>)
    ensures Align(lookup, labelSeq, wordIds).Success? ==>
              var ids := Align(lookup, labelSeq, wordIds).value;
              && |ids| == |wordIds|
              && forall i :: 0 <= i < |wordIds| ==>
                   Success(ids[i]) == PieceId(lookup, labelSeq, wordIds, i)
    ensures Align(lookup, labelSeq, wordIds).Failure? <==>
              exists i :: 0 <= i < |wordIds| && Raises(lookup, labelSeq, wordIds, i)
    ensures Align(lookup, labelSeq, wordIds).Failure? ==>
              exists i :: 0 <= i < |wordIds|
                && PieceId(lookup, labelSeq, wordIds, i) == Failure(Align(lookup, labelSeq, wordIds).error)
                && forall j :: 0 <= j < i ==> !Raises(lookup, labelSeq, wordIds, j)
    decreases |wordIds|
  {
    if wordIds != [] {
      var n := |wordIds| - 1;
      var pre := wordIds[..n];
      AlignSpec(lookup, labelSeq, pre);
      PieceIdPrefix(lookup, labelSeq, wordIds, n);
      var r := Align(lookup, labelSeq, wordIds);
      match Align(lookup, labelSeq, pre)
      case Failure(e) =>
        var i :| 0 <= i < |pre|
                 && PieceId(lookup, labelSeq, pre, i) == Failure(e)
                 && forall j :: 0 <= j < i ==> !Raises(lookup, labelSeq, pre, j);
        assert PieceId(lookup, labelSeq, wordIds, i) == Failure(r.error);
        assert forall j :: 0 <= j < i ==> !Raises(lookup, labelSeq, wordIds, j);
      case Success(ids) =>
        assert forall j :: 0 <= j < n ==> !Raises(lookup, labelSeq, wordIds, j);
        if r.Failure? {
          assert PieceId(lookup, labelSeq, wordIds, n) == Failure(r.error);
          assert Raises(lookup, labelSeq, wordIds, n);
        } else {
          assert !Raises(lookup, labelSeq, wordIds, n);
          assert r.value == ids + [PieceId(lookup, labelSeq, wordIds, n).value];
        }
    }
  }

  /** One more piece after a successful prefix: a piece with an id extends
      the prefix's ids by it, and a piece that raises ends the whole
      alignment with its error. */
  lemma AlignStep(lookup: string -> Option<int>, labelSeq: seq<string>,
                  wordIds: seq<Option<nat>>, i: nat, ids: seq<int>)
    requires i < |wordIds| && Align(lookup, labelSeq, wordIds[..i]) == Success(ids)
    ensures PieceId(lookup, labelSeq, wordIds, i).Success? ==>
              Align(lookup, labelSeq, wordIds[..i + 1])
              == Success(ids + [PieceId(lookup, labelSeq, wordIds, i).value])
    ensures PieceId(lookup, labelSeq, wordIds, i).Failure? ==>
              Align(lookup, labelSeq, wordIds) == Failure(PieceId(lookup, labelSeq, wordIds, i).error)
  {
    assert wordIds[..i + 1][..i] == wordIds[..i];
    PieceIdPrefix(lookup, labelSeq, wordIds, i + 1);
    if PieceId(lookup, labelSeq, wordIds, i).Failure? {
      AlignPrefixFails(lookup, labelSeq, wordIds, i + 1);
    }
  }

  /** Once a prefix of the pieces raises, the whole alignment raises the
      same error. */
  lemma {:induction false} AlignPrefixFails(lookup: string -> Option<int>, labelSeq: seq<string>,
                                            wordIds: seq<Option<nat>>, n: nat)
    requires n <= |wordIds|
    requires Align(lookup, labelSeq, wordIds[..n]).Failure?
    ensures Align(lookup, labelSeq, wordIds) == Align(lookup, labelSeq, wordIds[..n])
    decreases |wordIds| - n
  {
    if n < |wordIds| {
      var m := |wordIds| - 1;
      assert wordIds[..m][..n] == wordIds[..n];
      AlignPrefixFails(lookup, labelSeq, wordIds[..m], n);
    } else {
      assert wordIds[..n] == wordIds;
    }
  }

  /** Once a prefix of the batch raises, the whole batch raises the same
      error. */
  lemma {:induction false} AlignBatchPrefixFails(lookup: string -> Option<int>, labels: seq<seq<string>>,
                                                 wordIds: seq<seq<Option<nat>>>, n: nat)
    requires |wordIds| == |labels| && n <= |labels|
    requires AlignBatch(lookup, labels[..n], wordIds[..n]).Failure?
    ensures AlignBatch(lookup, labels, wordIds) == AlignBatch(lookup, labels[..n], wordIds[..n])
    decreases |labels| - n
  {
    if n < |labels| {
      var m := |labels| - 1;
      assert labels[..m][..n] == labels[..n] && wordIds[..m][..n] == wordIds[..n];
      AlignBatchPrefixFails(lookup, labels[..m], wordIds[..m], n);
    } else {
      assert labels[..n] == labels && wordIds[..n] == wordIds;
    }
  }

  /** A piece's id depends only on the pieces up to it. */
  lemma PieceIdPrefix(lookup: string -> Option<int>, labelSeq: seq<string>,
                      wordIds: seq<Option<nat>>, n: nat)
    requires n <= |wordIds|
    ensures forall i :: 0 <= i < n ==>
              PieceId(lookup, labelSeq, wordIds[..n], i) == PieceId(lookup, labelSeq, wordIds, i)
    ensures forall i :: 0 <= i < n ==>
              Raises(lookup, labelSeq, wordIds[..n], i) == Raises(lookup, labelSeq, wordIds, i)
  {
  }

  /** Ids never collide with the ignore id when the lookup never yields it. */
  ghost predicate NeverIgnore(lookup: string -> Option<int>) {
    forall l :: lookup(l).Some? ==> lookup(l).value != Ignore
  }

  /** Exactly the pieces that start a new word carry a label id. */
  lemma AlignLabelsNewWords(lookup: string -> Option<int>, labelSeq: seq<string>,
                            wordIds: seq<Option<nat>>)
    requires NeverIgnore(lookup)
    requires Align(lookup, labelSeq, wordIds).Success?
    ensures var ids := Align(lookup, labelSeq, wordIds).value;
            && |ids| == |wordIds|
            && forall i :: 0 <= i < |wordIds| ==> (ids[i] != Ignore <==> IsNewWord(wordIds, i))
  {
    AlignSpec(lookup, labelSeq, wordIds);
  }

  /** Every piece with a word id belongs to a run of that word that began
      with a new-word piece. */
  lemma {:induction false} RunStart(wordIds: seq<Option<nat>>, i: nat)
    requires i < |wordIds| && wordIds[i].Some?
    ensures exists j :: 0 <= j <= i && IsNewWord(wordIds, j) && wordIds[j] == wordIds[i]
  {
    if !IsNewWord(wordIds, i) {
      RunStart(wordIds, i - 1);
    }
  }

  /** Alignment succeeds exactly when every piece with a word names a word
      the label sequence has, and the lookup knows that word's label (not
      only for new-word pieces: every piece's word is also the word of an
      earlier new-word piece). */
  lemma AlignSucceeds(lookup: string -> Option<int>, labelSeq: seq<string>,
                      wordIds: seq<Option<nat>>)
    ensures Align(lookup, labelSeq, wordIds).Success? <==>
              forall i :: 0 <= i < |wordIds| && wordIds[i].Some? ==>
                wordIds[i].value < |labelSeq| && lookup(labelSeq[wordIds[i].value]).Some?
  {
    AlignSpec(lookup, labelSeq, wordIds);
    if exists i :: 0 <= i < |wordIds| && wordIds[i].Some?
         && !(wordIds[i].value < |labelSeq| && lookup(labelSeq[wordIds[i].value]).Some?) {
      var i :| 0 <= i < |wordIds| && wordIds[i].Some?
               && !(wordIds[i].value < |labelSeq| && lookup(labelSeq[wordIds[i].value]).Some?);
      RunStart(wordIds, i);
      var j :| 0 <= j <= i && IsNewWord(wordIds, j) && wordIds[j] == wordIds[i];
      assert Raises(lookup, labelSeq, wordIds, j);
    }
  }

  /** With a lookup that never fails, alignment fails exactly when some piece
      names a word the label sequence does not have. */
  lemma AlignTotalLookup(lookup: string -> Option<int>, labelSeq: seq<string>,
                         wordIds: seq<Option<nat>>)
    requires forall l :: lookup(l).Some?
    ensures Align(lookup, labelSeq, wordIds).Success? <==>
              forall i :: 0 <= i < |wordIds| && wordIds[i].Some? ==> wordIds[i].value < |labelSeq|
  {
    AlignSucceeds(lookup, labelSeq, wordIds);
  }

  /** The pieces of each word are adjacent, as a tokenizer produces them. */
  predicate Contiguous(wordIds: seq<Option<nat>>) {
    forall i, j, k :: 0 <= i < k < j < |wordIds| && wordIds[i].Some? && wordIds[i] == wordIds[j]
      ==> wordIds[k] == wordIds[i]
  }

  /** Every word that has a piece has a new-word piece. */
  lemma EveryWordLabelled(wordIds: seq<Option<nat>>)
    ensures forall i :: 0 <= i < |wordIds| && wordIds[i].Some? ==>
              exists j :: 0 <= j < |wordIds| && IsNewWord(wordIds, j) && wordIds[j] == wordIds[i]
  {
    forall i | 0 <= i < |wordIds| && wordIds[i].Some?
      ensures exists j :: 0 <= j < |wordIds| && IsNewWord(wordIds, j) && wordIds[j] == wordIds[i]
    {
      RunStart(wordIds, i);
    }
  }

  /** One label per word: when each word's pieces are adjacent, no two
      new-word pieces share a word, so (with `EveryWordLabelled`) exactly one
      piece per word carries a label id. */
  lemma OneLabelPerWord(wordIds: seq<Option<nat>>)
    requires Contiguous(wordIds)
    ensures forall i, j :: 0 <= i < |wordIds| && 0 <= j < |wordIds|
              && IsNewWord(wordIds, i) && IsNewWord(wordIds, j) && wordIds[i] == wordIds[j]
              ==> i == j
  {
    forall i, j | 0 <= i < j < |wordIds| && wordIds[i].Some? && wordIds[i] == wordIds[j]
      ensures !IsNewWord(wordIds, j)
    {
      if i < j - 1 {
        ContiguousAt(wordIds, i, j - 1, j);
      }
    }
  }

  lemma ContiguousAt(wordIds: seq<Option<nat>>, i: nat, k: nat, j: nat)
    requires Contiguous(wordIds)
    requires i < k < j < |wordIds| && wordIds[i].Some? && wordIds[i] == wordIds[j]
    ensures wordIds[k] == wordIds[i]
  {
  }

  /** The batch has one id sequence per example, each the alignment of that
      example; it fails exactly when some example's alignment fails. */
  lemma {:induction false} AlignBatchSpec(lookup: string -> Option<int>, labels: seq<seq<string>>,
                                          wordIds: seq<seq<Option<nat>>>)
    requires |wordIds| == |labels|
    ensures AlignBatch(lookup, labels, wordIds).Success? <==>
              forall k :: 0 <= k < |labels| ==> Align(lookup, labels[k], wordIds[k]).Success?
    ensures AlignBatch(lookup, labels, wordIds).Success? ==>
              var all := AlignBatch(lookup, labels, wordIds).value;
              && |all| == |labels|
              && forall k :: 0 <= k < |labels| ==> all[k] == Align(lookup, labels[k], wordIds[k]).value
    decreases |labels|
  {
    if labels != [] {
      var n := |labels| - 1;
      AlignBatchSpec(lookup, labels[..n], wordIds[..n]);
      assert forall k :: 0 <= k < n ==> labels[..n][k] == labels[k] && wordIds[..n][k] == wordIds[k];
    }
  }
}
