/** The simplified 9-label schema: `O`, then `B-`/`I-` for ARG0, ARG1,
    ARG2 and ARGM, with ids given by list position. */
module Labels {
  import opened Vocab
  import TokenizeAlign

  const LabelList: seq<string> :=
    ["O", "B-ARG0", "I-ARG0", "B-ARG1", "I-ARG1", "B-ARG2", "I-ARG2", "B-ARGM", "I-ARGM"]

  /** `{label: idx for idx, label in enumerate(LABEL_LIST)}`. */
  const Label2Id: map<string, int> := Enumerate(LabelList)

  const NumLabels := |LabelList|

  /** The labels are distinct: no two positions hold the same label. */
  lemma LabelListDistinct()
    ensures NumLabels == 9
    ensures Distinct(LabelList)
  {
  }

  /** Each label's id is its position in the list, so `O` is 0 and the ids
      are exactly 0 to 8; the dictionary holds exactly the listed labels. */
  lemma Label2IdIsIndex()
    ensures forall i :: 0 <= i < |LabelList| ==> LabelList[i] in Label2Id && Label2Id[LabelList[i]] == i
    ensures forall l :: l in Label2Id <==> l in LabelList
    ensures forall l :: l in Label2Id ==> 0 <= Label2Id[l] < NumLabels
    ensures Label2Id["O"] == 0
  {
    LabelListDistinct();
    EnumerateIndex(LabelList);
    assert LabelList[0] == "O";
  }

  lemma Label2IdInjective()
    ensures Injective(Label2Id)
  {
    LabelListDistinct();
    EnumerateIndex(LabelList);
  }

  /** The inverse dictionary, built from `label2id`'s items. */
  const Id2Label: map<int, string> := (Label2IdInjective(); Invert(Label2Id))

  /** `id2label` has the ids 0 to 8 as keys and maps each back to its label;
      both round trips hold. */
  lemma Id2LabelInverse()
    ensures forall i :: i in Id2Label <==> 0 <= i < NumLabels
    ensures forall i :: 0 <= i < NumLabels ==> Id2Label[i] == LabelList[i]
    ensures forall l :: l in Label2Id ==> Label2Id[l] in Id2Label && Id2Label[Label2Id[l]] == l
    ensures forall i :: i in Id2Label ==> Id2Label[i] in Label2Id && Label2Id[Id2Label[i]] == i
  {
    LabelListDistinct();
    EnumerateInverse(LabelList);
  }

  /** `O`, or `B-`/`I-` followed by `ARG` and one of `0`, `1`, `2`, `M`. */
  predicate SchemaTag(l: string) {
    l == "O" || (|l| == 6 && l[0] in "BI" && l[1] == '-' && l[2..5] == "ARG" && l[5] in "012M")
  }

  /** The schema has no ARG3, ARG4 or ARG5 tags: every label is `O` or a
      `B-`/`I-` tag of ARG0, ARG1, ARG2 or ARGM. */
  lemma NoHigherArguments(l: string)
    ensures l in Label2Id ==> SchemaTag(l)
  {
    if l in Label2Id {
      var i := Label2Id[l];
      assert LabelList[i] == l;
      SchemaAt(i);
    }
  }

  lemma SchemaAt(i: int)
    requires 0 <= i < NumLabels
    ensures SchemaTag(LabelList[i])
  {
    var l := LabelList[i];
    if i == 0 { assert l == "O"; }
    else if i == 1 { assert l == "B-ARG0"; }
    else if i == 2 { assert l == "I-ARG0"; }
    else if i == 3 { assert l == "B-ARG1"; }
    else if i == 4 { assert l == "I-ARG1"; }
    else if i == 5 { assert l == "B-ARG2"; }
    else if i == 6 { assert l == "I-ARG2"; }
    else if i == 7 { assert l == "B-ARGM"; }
    else { assert l == "I-ARGM"; }
  }

  /** The label at position `i` is also in the 15-label vocabulary, with
      the same id for `O` and the ARG0 to ARG2 tags; only the modifier tags
      are numbered differently (7 and 8 here, 13 and 14 there). */
  lemma SubVocabulary(i: int)
    requires 0 <= i < NumLabels
    ensures LabelList[i] in TokenizeAlign.Label2Id
    ensures TokenizeAlign.Label2Id[LabelList[i]] == if i < 7 then i else i + 6
  {
    var l := LabelList[i];
    if i == 0 { assert l == "O"; }
    else if i == 1 { assert l == "B-ARG0"; }
    else if i == 2 { assert l == "I-ARG0"; }
    else if i == 3 { assert l == "B-ARG1"; }
    else if i == 4 { assert l == "I-ARG1"; }
    else if i == 5 { assert l == "B-ARG2"; }
    else if i == 6 { assert l == "I-ARG2"; }
    else if i == 7 { assert l == "B-ARGM"; }
    else { assert l == "I-ARGM"; }
  }
}
