/** The training-side label pipeline over the 15-label vocabulary: a raw
    word label is cut to its first two `-`-separated parts, an unknown label
    falls back to the modifier of the same B/I kind (or to `O`), and the
    aligner gives every subword piece whose word id differs from the previous
    piece's its word's label id. */
module TokenizeAlign {
  import opened Results
  import opened Seqs
  import opened Strings
  import opened Vocab
  import opened Alignment

  // ===========================================================================
  // label2id / id2label

  /** `O`, then a `B-`/`I-` pair for each of ARG0 to ARG5, then for ARGM. */
  const Label2Id: map<string, int> := map[
    "O" := 0,
    "B-ARG0" := 1, "I-ARG0" := 2,
    "B-ARG1" := 3, "I-ARG1" := 4,
    "B-ARG2" := 5, "I-ARG2" := 6,
    "B-ARG3" := 7, "I-ARG3" := 8,
    "B-ARG4" := 9, "I-ARG4" := 10,
    "B-ARG5" := 11, "I-ARG5" := 12,
    "B-ARGM" := 13, "I-ARGM" := 14]

  const NumLabels := 15

  /** No two labels share an id. */
  lemma Label2IdInjective()
    ensures Injective(Label2Id)
  {
    Label2IdDecodes();
  }

  /** The labels in id order. */
  const LabelsById: seq<string> := [
    "O", "B-ARG0", "I-ARG0", "B-ARG1", "I-ARG1", "B-ARG2", "I-ARG2",
    "B-ARG3", "I-ARG3", "B-ARG4", "I-ARG4", "B-ARG5", "I-ARG5",
    "B-ARGM", "I-ARGM"]

  /** Every label's id is its position in the id-ordered list. */
  lemma Label2IdDecodes()
    ensures forall l :: l in Label2Id ==> 0 <= Label2Id[l] < |LabelsById| && LabelsById[Label2Id[l]] == l
  {
  }

  /** The inverse dictionary, built from `label2id`'s items. */
  const Id2Label: map<int, string> := (Label2IdInjective(); Invert(Label2Id))

  /** The label `B-ARGk` or `I-ARGk` (`kind` is `'B'` or `'I'`). */
  function ArgLabel(kind: char, k: nat): string
    requires k <= 9
  {
    [kind, '-', 'A', 'R', 'G', ('0' as int + k) as char]
  }

  /** The ids are 0 to 14, one per label: `O` is 0, `B-ARGk` is 2k+1 and
      `I-ARGk` is 2k+2 for k from 0 to 5, `B-ARGM` is 13 and `I-ARGM` is 14. */
  lemma Label2IdLayout()
    ensures Label2Id["O"] == 0
    ensures forall k :: 0 <= k <= 5 ==>
              ArgLabel('B', k) in Label2Id && Label2Id[ArgLabel('B', k)] == 2 * k + 1
              && ArgLabel('I', k) in Label2Id && Label2Id[ArgLabel('I', k)] == 2 * k + 2
    ensures Label2Id["B-ARGM"] == 13 && Label2Id["I-ARGM"] == 14
    ensures forall l :: l in Label2Id ==> 0 <= Label2Id[l] < NumLabels
  {
    forall k | 0 <= k <= 5
      ensures ArgLabel('B', k) in Label2Id && Label2Id[ArgLabel('B', k)] == 2 * k + 1
      ensures ArgLabel('I', k) in Label2Id && Label2Id[ArgLabel('I', k)] == 2 * k + 2
    {
      ArgLabelIds(k);
    }
    Label2IdDecodes();
  }

  /** The ids of `B-ARGk` and `I-ARGk`, one `k` at a time. */
  lemma ArgLabelIds(k: nat)
    requires k <= 5
    ensures ArgLabel('B', k) in Label2Id && Label2Id[ArgLabel('B', k)] == 2 * k + 1
    ensures ArgLabel('I', k) in Label2Id && Label2Id[ArgLabel('I', k)] == 2 * k + 2
  {
    if k == 0 {
      assert ArgLabel('B', k) == "B-ARG0" && ArgLabel('I', k) == "I-ARG0";
    } else if k == 1 {
      assert ArgLabel('B', k) == "B-ARG1" && ArgLabel('I', k) == "I-ARG1";
    } else if k == 2 {
      assert ArgLabel('B', k) == "B-ARG2" && ArgLabel('I', k) == "I-ARG2";
    } else if k == 3 {
      assert ArgLabel('B', k) == "B-ARG3" && ArgLabel('I', k) == "I-ARG3";
    } else if k == 4 {
      assert ArgLabel('B', k) == "B-ARG4" && ArgLabel('I', k) == "I-ARG4";
    } else {
      assert ArgLabel('B', k) == "B-ARG5" && ArgLabel('I', k) == "I-ARG5";
    }
  }

  /** Every position of the id-ordered list holds a label with that id. */
  lemma LabelsByIdKeys()
    ensures forall i :: 0 <= i < |LabelsById| ==> LabelsById[i] in Label2Id && Label2Id[LabelsById[i]] == i
  {
  }

  /** `id2label` is the exact inverse of `label2id`: its keys are the ids 0
      to 14, and looking up either way and back returns the start. */
  lemma Id2LabelInverse()
    ensures forall i :: i in Id2Label <==> 0 <= i < NumLabels
    ensures forall l :: l in Label2Id ==> Label2Id[l] in Id2Label && Id2Label[Label2Id[l]] == l
    ensures forall i :: i in Id2Label ==> Id2Label[i] in Label2Id && Label2Id[Id2Label[i]] == i
  {
    Label2IdDecodes();
    LabelsByIdKeys();
    forall i | 0 <= i < NumLabels
      ensures i in Id2Label
    {
      assert LabelsById[i] in Label2Id && Label2Id[LabelsById[i]] == i;
    }
  }

  /** `B-` or `I-`, then `ARG` and one of `0` to `5` or `M`. */
  predicate ArgTag(l: string) {
    && |l| == 6 && (l[0] == 'B' || l[0] == 'I') && l[1] == '-'
    && l[2..5] == "ARG" && l[5] in "012345M"
  }

  /** Every label but `O` is a `B-` or `I-` tag of an `ARG` role, whose role
      part has no `-`. */
  lemma VocabShape(l: string)
    ensures l in Label2Id ==> l == "O" || (ArgTag(l) && '-' !in l[2..])
  {
  }

  // ===========================================================================
  // normalize_label

  /** `normalize_label`: `O` is kept; a label with a `-` is cut to its first
      two `-`-separated parts; any other label is kept. */
  function NormalizeLabel(raw: string): (clean: string)
    ensures clean <= raw
    ensures '-' !in raw ==> clean == raw
  {
    if raw == "O" then raw
    else
      var parts := Split(raw, "-");
      DashSplit(raw);
      if |parts| >= 2 then parts[0] + "-" + parts[1] else raw
  }

  /** Splitting on `-` gives two or more parts exactly when the label has a
      `-`, and then the first two parts, rejoined, start the label. */
  lemma DashSplit(raw: string)
    ensures |Split(raw, "-")| >= 2 <==> '-' in raw
    ensures |Split(raw, "-")| >= 2 ==> Split(raw, "-")[0] + "-" + Split(raw, "-")[1] <= raw
  {
    assert "-" == ['-'];
    if '-' in raw {
      SplitFirstTwo(raw, '-');
    } else {
      SplitAbsentChar(raw, '-');
    }
  }

  /** A label without `-` is kept. A label with one is cut just before its
      second `-`, or kept whole if it has only one: the result is a prefix of
      the label followed by `-` or by the end, and holds exactly one `-`. */
  lemma NormalizeLabelCut(raw: string)
    ensures '-' !in raw ==> NormalizeLabel(raw) == raw
    ensures '-' in raw ==>
              && NormalizeLabel(raw) <= raw
              && (|NormalizeLabel(raw)| == |raw| || raw[|NormalizeLabel(raw)|] == '-')
              && exists a, b :: NormalizeLabel(raw) == a + "-" + b && '-' !in a && '-' !in b
  {
    assert "-" == ['-'];
    if '-' in raw {
      SplitFirstTwo(raw, '-');
      assert raw != "O";
      var parts := Split(raw, "-");
      assert NormalizeLabel(raw) == parts[0] + "-" + parts[1];
    } else {
      SplitAbsentChar(raw, '-');
    }
  }

  /** `normalize_label` is idempotent. */
  lemma NormalizeLabelIdempotent(raw: string)
    ensures NormalizeLabel(NormalizeLabel(raw)) == NormalizeLabel(raw)
  {
    NormalizeLabelCut(raw);
    if '-' in raw {
      var a, b :| NormalizeLabel(raw) == a + "-" + b && '-' !in a && '-' !in b;
      TwoParts(a, b);
    }
  }

  /** Splitting `a-b` on `-`, with no `-` in `a` or `b`, gives `a` and `b`;
      `a-b` is never `O`. */
  lemma TwoParts(a: string, b: string)
    requires '-' !in a && '-' !in b
    ensures Split(a + "-" + b, "-") == [a, b]
    ensures NormalizeLabel(a + "-" + b) == a + "-" + b
  {
    assert "-" == ['-'];
    SplitFirstChar(a, '-', b);
    SplitAbsentChar(b, '-');
    assert (a + "-" + b)[|a|] == '-';
  }

  /** The docstring's first example: a sense suffix is dropped, so
      `B-ARG1-DSP` becomes `B-ARG1`. */
  lemma NormalizeLabelDropsSuffix()
    ensures NormalizeLabel("B-ARG1-DSP") == "B-ARG1"
  {
    var b, arg1, dsp := "B", "ARG1", "DSP";
    ThreeParts(b, arg1, dsp);
    assert b + "-" + arg1 + "-" + dsp == "B-ARG1-DSP" && b + "-" + arg1 == "B-ARG1";
  }

  /** The docstring's second example: a modifier collapses to `ARGM`, so
      `B-ARGM-TMP` becomes `B-ARGM`. */
  lemma NormalizeLabelCollapsesModifier()
    ensures NormalizeLabel("B-ARGM-TMP") == "B-ARGM"
  {
    var b, argm, tmp := "B", "ARGM", "TMP";
    ThreeParts(b, argm, tmp);
    assert b + "-" + argm + "-" + tmp == "B-ARGM-TMP" && b + "-" + argm == "B-ARGM";
  }

  lemma ThreeParts(a: string, b: string, c: string)
    requires '-' !in a && '-' !in b && '-' !in c
    ensures NormalizeLabel(a + "-" + b + "-" + c) == a + "-" + b
  {
    assert "-" == ['-'];
    var s := a + "-" + b + "-" + c;
    assert s == a + "-" + (b + "-" + c);
    SplitFirstChar(a, '-', b + "-" + c);
    SplitFirstChar(b, '-', c);
    assert s[|a|] == '-';
  }

  // ===========================================================================
  // The fallback

  /** `[a, b] <= t` read off the first two characters. */
  lemma TwoCharPrefix(a: char, b: char, t: string)
    ensures [a, b] <= t <==> |t| >= 2 && t[0] == a && t[1] == b
  {
    if |t| >= 2 && t[0] == a && t[1] == b {
      assert t[..2] == [a, b];
    }
  }

  /** The fallback for labels outside the vocabulary: a `B-` label becomes
      `B-ARGM`, an `I-` label `I-ARGM`, anything else `O`. */
  function Fallback(clean: string): (resolved: string)
    ensures resolved in Label2Id
    ensures clean in Label2Id ==> resolved == clean
  {
    if clean in Label2Id then clean
    else if "B-" <= clean then "B-ARGM"
    else if "I-" <= clean then "I-ARGM"
    else "O"
  }

  /** The fallback always lands in the vocabulary, changes nothing already in
      it, keeps a label's `B-` or `I-` kind, and gives `O` exactly for a
      label of neither kind. */
  lemma FallbackSpec(clean: string)
    ensures Fallback(clean) in Label2Id
    ensures clean in Label2Id ==> Fallback(clean) == clean
    ensures "B-" <= Fallback(clean) <==> "B-" <= clean
    ensures "I-" <= Fallback(clean) <==> "I-" <= clean
    ensures Fallback(clean) == "O" <==> !("B-" <= clean) && !("I-" <= clean)
    ensures clean !in Label2Id && "B-" <= clean ==> Fallback(clean) == "B-ARGM"
    ensures clean !in Label2Id && "I-" <= clean ==> Fallback(clean) == "I-ARGM"
  {
    var r := Fallback(clean);
    TwoCharPrefix('B', '-', clean);
    TwoCharPrefix('I', '-', clean);
    TwoCharPrefix('B', '-', r);
    TwoCharPrefix('I', '-', r);
    VocabShape(clean);
    VocabShape(r);
  }

  /** A label as the aligner resolves it: normalised, then the fallback. */
  function ResolveLabel(raw: string): (clean: string)
    ensures clean in Label2Id
  {
    FallbackSpec(NormalizeLabel(raw));
    Fallback(NormalizeLabel(raw))
  }

  /** Every label of the vocabulary resolves to itself. */
  lemma ResolveVocabLabel(l: string)
    requires l in Label2Id
    ensures ResolveLabel(l) == l
  {
    NormalizeVocabLabel(l);
    FallbackSpec(l);
  }

  lemma NormalizeVocabLabel(l: string)
    requires l in Label2Id
    ensures NormalizeLabel(l) == l
  {
    VocabShape(l);
    if l != "O" {
      var a, b := [l[0]], l[2..];
      assert l == a + "-" + b;
      assert '-' !in a;
      TwoParts(a, b);
    }
  }

  /** Resolving is idempotent: a resolved label resolves to itself. */
  lemma ResolveLabelIdempotent(raw: string)
    ensures ResolveLabel(ResolveLabel(raw)) == ResolveLabel(raw)
  {
    ResolveVocabLabel(ResolveLabel(raw));
  }

  /** A rare role falls back to the modifier of the same kind: an `I-`
      label with one `-` outside the vocabulary resolves to `I-ARGM`. */
  lemma ResolveRareInsideRole(role: string)
    requires '-' !in role && "I-" + role !in Label2Id
    ensures ResolveLabel("I-" + role) == "I-ARGM"
  {
    TwoParts("I", role);
    assert "I" + "-" + role == "I-" + role;
    TwoCharPrefix('B', '-', "I-" + role);
    TwoCharPrefix('I', '-', "I-" + role);
  }

  /** The same for the beginning of a span: a `B-` label with one `-`
      outside the vocabulary resolves to `B-ARGM`. */
  lemma ResolveRareBeginRole(role: string)
    requires '-' !in role && "B-" + role !in Label2Id
    ensures ResolveLabel("B-" + role) == "B-ARGM"
  {
    TwoParts("B", role);
    assert "B" + "-" + role == "B-" + role;
    TwoCharPrefix('B', '-', "B-" + role);
  }

  /** `I-ARGA` resolves to `I-ARGM`. */
  lemma ResolveLabelExample()
    ensures ResolveLabel("I-ARGA") == "I-ARGM"
  {
    var arga := "ARGA";
    var raw := "I-" + arga;
    assert raw == "I-ARGA";
    VocabShape(raw);
    assert raw[5] !in "012345M";
    ResolveRareInsideRole(arga);
  }

  /** The label lookup of this aligner: it never fails. */
  function LookupId(raw: string): (id: Option<int>)
    ensures id.Some? && 0 <= id.value < NumLabels
  {
    Label2IdLayout();
    Some(Label2Id[ResolveLabel(raw)])
  }

  // ===========================================================================
  // The alignment loop of tokenize_and_align

  /** The inner loop for one example: `prev_word` remembers the previous
      piece's word id. */
  method AlignLabels(labelSeq: seq<string>, wordIds: seq<Option<nat>>)
    returns (r: Result<seq<int>, AlignError>)
    ensures r == Align(LookupId, labelSeq, wordIds)
  {
    var prevWord: Option<nat> := None;
    var labelIds: seq<int> := [];
    for i := 0 to |wordIds|
      invariant Align(LookupId, labelSeq, wordIds[..i]) == Success(labelIds)
      invariant prevWord == if i == 0 then None else wordIds[i - 1]
    {
      var wordId := wordIds[i];
      AlignStep(LookupId, labelSeq, wordIds, i, labelIds);
      if wordId.None? {
        labelIds := labelIds + [Ignore];
      } else if wordId != prevWord {
        var w := wordId.value;
        if w >= |labelSeq| {
          return Failure(WordIdOutOfRange(w));
        }
        var rawLabel := labelSeq[w];
        var cleanLabel := NormalizeLabel(rawLabel);
        if cleanLabel !in Label2Id {
          if "B-" <= cleanLabel {
            cleanLabel := "B-ARGM";
          } else if "I-" <= cleanLabel {
            cleanLabel := "I-ARGM";
          } else {
            cleanLabel := "O";
          }
        }
        assert cleanLabel == ResolveLabel(rawLabel);
        labelIds := labelIds + [Label2Id[cleanLabel]];
      } else {
        labelIds := labelIds + [Ignore];
      }
      prevWord := wordId;
    }
    TakeAll(wordIds);
    return Success(labelIds);
  }

  /** The outer loop of `tokenize_and_align`, over the examples of a batch
      with the tokenizer's `word_ids` for each. */
  method TokenizeAndAlign(labels: seq<seq<string>>, wordIds: seq<seq<Option<nat>>>)
    returns (r: Result<seq<seq<int>>, AlignError>)
    requires |wordIds| == |labels|
    ensures r == AlignBatch(LookupId, labels, wordIds)
  {
    var alignedLabels: seq<seq<int>> := [];
    for i := 0 to |labels|
      invariant AlignBatch(LookupId, labels[..i], wordIds[..i]) == Success(alignedLabels)
    {
      assert labels[..i + 1][..i] == labels[..i] && wordIds[..i + 1][..i] == wordIds[..i];
      var ids := AlignLabels(labels[i], wordIds[i]);
      if ids.Failure? {
        AlignBatchPrefixFails(LookupId, labels, wordIds, i + 1);
        return Failure(ids.error);
      }
      alignedLabels := alignedLabels + [ids.value];
    }
    assert labels[..|labels|] == labels && wordIds[..|wordIds|] == wordIds;
    return Success(alignedLabels);
  }

  /** What the aligner promises: it fails exactly when a piece names a word
      the example's labels do not have; otherwise every piece gets the ignore
      id or an id in 0 to 14, and the id is not the ignore id exactly for a
      piece whose word id differs from the previous piece's, where it is the
      id of that word's resolved label. */
  lemma AlignLabelsOutcome(labelSeq: seq<string>, wordIds: seq<Option<nat>>)
    ensures Align(LookupId, labelSeq, wordIds).Success? <==>
              forall i :: 0 <= i < |wordIds| && wordIds[i].Some? ==> wordIds[i].value < |labelSeq|
    ensures Align(LookupId, labelSeq, wordIds).Success? ==>
              var ids := Align(LookupId, labelSeq, wordIds).value;
              && |ids| == |wordIds|
              && forall i :: 0 <= i < |wordIds| ==>
                   if IsNewWord(wordIds, i)
                   then ids[i] == Label2Id[ResolveLabel(labelSeq[wordIds[i].value])] && 0 <= ids[i] < NumLabels
                   else ids[i] == Ignore
  {
    AlignTotalLookup(LookupId, labelSeq, wordIds);
    AlignSpec(LookupId, labelSeq, wordIds);
  }
}
