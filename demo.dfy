/** The question-answering demo around the tagger: guessing the role a
    question asks about, merging WordPiece continuations back into words,
    and picking the words whose tag names that role. The tagger's output is
    an input here. */
module Demo {
  import opened Strings
  import TokenizeAlign
  import opened Seqs

  // ===========================================================================
  // detect_question_type

  /** The roles, in lookup order, each with its question words in English,
      Hindi, Tamil and Assamese. */
  const QuestionMap: seq<(string, seq<string>)> := [
    ("ARG0", ["who", "किसने", "कौन", "किसको", "யார்", "কোনে", "কাক"]),
    ("ARG1", ["what", "क्या", "किसे", "क्या को", "என்ன", "எதை", "কি", "কাক"]),
    ("ARGM-LOC", ["where", "कहाँ", "कहां", "எங்கே", "எங்கு", "ক'ত", "কত"]),
    ("ARGM-TMP", ["when", "कब", "எப்போது", "কেতিয়া"]),
    ("ARGM-MNR", ["how", "कैसे", "कैसा", "எப்படி", "কেনেকৈ"]),
    ("ARGM-CAU", ["why", "क्यों", "क्यूं", "ஏன்", "কিয়"])
  ]

  /** The role a question falls back to when no question word occurs. */
  const DefaultRole := "ARG1"

  /** Some keyword of the list occurs in the question. */
  function HasKeyword(keywords: seq<string>, question: string): (found: bool)
    ensures found <==> exists i :: 0 <= i < |keywords| && Contains(question, keywords[i])
  {
    if keywords == [] then false
    else Contains(question, keywords[0]) || HasKeyword(keywords[1..], question)
  }

  /** The first role, in table order, with a keyword in the question;
      otherwise the default role. */
  function FirstRole(table: seq<(string, seq<string>)>, question: string): (role: string)
    ensures role == DefaultRole ||
            exists i :: 0 <= i < |table| && table[i].0 == role && HasKeyword(table[i].1, question)
  {
    if table == [] then DefaultRole
    else if HasKeyword(table[0].1, question) then table[0].0
    else FirstRole(table[1..], question)
  }

  /** `detect_question_type`: the question is lowercased and searched for
      each role's keywords in turn. */
  function DetectQuestionType(question: string): (role: string)
    ensures role == DefaultRole ||
            exists i :: 0 <= i < |QuestionMap| && QuestionMap[i].0 == role
                        && HasKeyword(QuestionMap[i].1, Lower(question))
  {
    FirstRole(QuestionMap, Lower(question))
  }

  /** Entry `j` is the first entry of the table with a keyword in the
      question. */
  predicate FirstHit(table: seq<(string, seq<string>)>, question: string, j: int) {
    && 0 <= j < |table| && HasKeyword(table[j].1, question)
    && forall m :: 0 <= m < j ==> !HasKeyword(table[m].1, question)
  }

  /** The search returns the role of the first entry with a keyword in the
      question, and the default role when no entry has one. */
  lemma {:induction false} FirstRoleSpec(table: seq<(string, seq<string>)>, question: string)
    ensures || (FirstRole(table, question) == DefaultRole
                && forall i :: 0 <= i < |table| ==> !HasKeyword(table[i].1, question))
            || exists j :: FirstHit(table, question, j) && FirstRole(table, question) == table[j].0
    decreases |table|
  {
    if table != [] {
      if HasKeyword(table[0].1, question) {
        assert FirstHit(table, question, 0);
      } else {
        var tail := table[1..];
        FirstRoleSpec(tail, question);
        if exists j :: FirstHit(tail, question, j) && FirstRole(tail, question) == tail[j].0 {
          var j :| FirstHit(tail, question, j) && FirstRole(tail, question) == tail[j].0;
          assert forall m :: 0 < m <= j + 1 ==> table[m] == tail[m - 1];
          assert FirstHit(table, question, j + 1);
        } else {
          assert forall i :: 0 < i < |table| ==> table[i] == tail[i - 1];
        }
      }
    }
  }

  /** The roles of the table, in order. */
  function Roles(): (roles: seq<string>)
    ensures |roles| == |QuestionMap|
  {
    seq(|QuestionMap|, i requires 0 <= i < |QuestionMap| => QuestionMap[i].0)
  }

  /** The detected role is always one of the table's roles (the default
      among them), and it is the default when the question holds no
      keyword at all. */
  lemma DetectIsRole(question: string)
    ensures DetectQuestionType(question) in Roles()
    ensures (forall i :: 0 <= i < |QuestionMap| ==> !HasKeyword(QuestionMap[i].1, Lower(question))) ==>
              DetectQuestionType(question) == DefaultRole
  {
    var role := DetectQuestionType(question);
    assert Roles()[1] == DefaultRole;
    if role != DefaultRole {
      var i :| 0 <= i < |QuestionMap| && QuestionMap[i].0 == role
               && HasKeyword(QuestionMap[i].1, Lower(question));
      assert Roles()[i] == role;
    }
  }

  /** The Assamese word listed for both ARG0 and ARG1 always gives ARG0. */
  lemma SharedKeywordIsAgent(question: string)
    requires Contains(Lower(question), "কাক")
    ensures DetectQuestionType(question) == "ARG0"
  {
    var q := Lower(question);
    assert QuestionMap[0].1[6] == "কাক";
    assert HasKeyword(QuestionMap[0].1, q);
  }

  /** The Assamese "why" word contains the Assamese "what" word, so a
      question holding it is never classed as a cause question: it gives
      ARG0 or ARG1. */
  lemma AssameseWhyShadowed(question: string)
    requires Contains(Lower(question), "কিয়")
    ensures DetectQuestionType(question) in {"ARG0", "ARG1"}
  {
    var q := Lower(question);
    var why, what := "কিয়", "কি";
    assert OccursAt(why, what, 0);
    ContainsIff(why, what);
    ContainsTransitive(what, why, q);
    assert QuestionMap[1].1[6] == what;
    assert HasKeyword(QuestionMap[1].1, q);
    FirstRoleSpec(QuestionMap, q);
    var j :| FirstHit(QuestionMap, q, j) && FirstRole(QuestionMap, q) == QuestionMap[j].0;
    assert j <= 1;
  }

  // ===========================================================================
  // Merging subword pieces

  /** One item of the tagger's output: a piece of text and its tag. */
  datatype Tagged = Tagged(word: string, entity: string)

  /** A WordPiece continuation: the piece's text starts with `##`. */
  predicate Continues(piece: Tagged) {
    "##" <= piece.word
  }

  /** One step of the merge: a continuation piece that follows some entry
      is glued, without its `##`, onto the last entry, whose tag stays; any
      other piece starts a new entry. */
  function Absorb(merged: seq<Tagged>, piece: Tagged): seq<Tagged> {
    if Continues(piece) && merged != [] then
      var last := merged[|merged| - 1];
      merged[|merged| - 1 := Tagged(last.word + piece.word[2..], last.entity)]
    else merged + [piece]
  }

  /** The merged entries after the pieces: one merge step per piece, in
      order, starting from no entries. */
  function Merge(pieces: seq<Tagged>): (merged: seq<Tagged>)
    ensures pieces != [] ==> merged != []
    decreases |pieces|
  {
    if pieces == [] then []
    else
      var n := |pieces| - 1;
      Absorb(Merge(pieces[..n]), pieces[n])
  }

  /** The merge loop of `answer_question`. */
  method MergePieces(results: seq<Tagged>) returns (merged: seq<Tagged>)
    ensures merged == Merge(results)
  {
    merged := [];
    for i := 0 to |results|
      invariant merged == Merge(results[..i])
    {
      assert results[..i + 1][..i] == results[..i];
      var word := results[i].word;
      var tag := results[i].entity;
      if "##" <= word && merged != [] {
        var last := merged[|merged| - 1];
        merged := merged[|merged| - 1 := Tagged(last.word + word[2..], last.entity)];
      } else {
        merged := merged + [Tagged(word, tag)];
      }
    }
    assert results[..|results|] == results;
  }

  /** The pieces that start an entry: the first piece, and every later
      piece that is not a continuation. */
  function Heads(pieces: seq<Tagged>): seq<Tagged>
    decreases |pieces|
  {
    if pieces == [] then []
    else
      var n := |pieces| - 1;
      Heads(pieces[..n]) + (if n > 0 && Continues(pieces[n]) then [] else [pieces[n]])
  }

  /** There is one entry per head piece, in order: the entry keeps the head's
      tag, and its text starts with the head's text. */
  lemma {:induction false} MergeHeads(pieces: seq<Tagged>)
    ensures |Merge(pieces)| == |Heads(pieces)|
    ensures forall j :: 0 <= j < |Heads(pieces)| ==>
              Merge(pieces)[j].entity == Heads(pieces)[j].entity
              && Heads(pieces)[j].word <= Merge(pieces)[j].word
    decreases |pieces|
  {
    if pieces != [] {
      var n := |pieces| - 1;
      MergeHeads(pieces[..n]);
    }
  }

  /** The number of continuation pieces after the first. */
  function Glued(pieces: seq<Tagged>): nat
    decreases |pieces|
  {
    if pieces == [] then 0
    else
      var n := |pieces| - 1;
      Glued(pieces[..n]) + (if n > 0 && Continues(pieces[n]) then 1 else 0)
  }

  /** `len(merged) <= len(results)`, equal exactly when no piece after the
      first is a continuation. */
  lemma {:induction false} MergeLength(pieces: seq<Tagged>)
    ensures |Merge(pieces)| + Glued(pieces) == |pieces|
    ensures |Merge(pieces)| <= |pieces|
    ensures |Merge(pieces)| == |pieces| <==> forall i :: 0 < i < |pieces| ==> !Continues(pieces[i])
    decreases |pieces|
  {
    MergeHeads(pieces);
    if pieces != [] {
      var n := |pieces| - 1;
      MergeLength(pieces[..n]);
      assert forall i :: 0 < i < n ==> pieces[..n][i] == pieces[i];
    }
  }

  /** The text a piece contributes: a continuation after the first piece
      loses its `##`, any other piece is kept whole. */
  function Surface(pieces: seq<Tagged>, i: nat): string
    requires i < |pieces|
  {
    if i > 0 && Continues(pieces[i]) then pieces[i].word[2..] else pieces[i].word
  }

  /** The pieces' contributed texts, run together. */
  function SurfaceText(pieces: seq<Tagged>): string
    decreases |pieces|
  {
    if pieces == [] then ""
    else SurfaceText(pieces[..|pieces| - 1]) + Surface(pieces, |pieces| - 1)
  }

  /** The entries' texts, run together. */
  function Text(entries: seq<Tagged>): string
    decreases |entries|
  {
    if entries == [] then ""
    else Text(entries[..|entries| - 1]) + entries[|entries| - 1].word
  }

  /** Replacing the last entry's text by a longer one extends the run-together
      text by the same suffix. */
  lemma TextGlue(entries: seq<Tagged>, suffix: string)
    requires entries != []
    ensures var k := |entries| - 1;
            Text(entries[k := Tagged(entries[k].word + suffix, entries[k].entity)]) == Text(entries) + suffix
  {
    var k := |entries| - 1;
    var glued := entries[k := Tagged(entries[k].word + suffix, entries[k].entity)];
    assert glued[..k] == entries[..k];
  }

  /** Merging loses no text and adds none: the entries spell out the
      pieces, less the `##` of each glued continuation. */
  lemma {:induction false} MergeText(pieces: seq<Tagged>)
    ensures Text(Merge(pieces)) == SurfaceText(pieces)
    decreases |pieces|
  {
    if pieces != [] {
      var n := |pieces| - 1;
      var pre := pieces[..n];
      MergeText(pre);
      TextAbsorb(Merge(pre), pieces[n]);
      assert Merge(pre) != [] <==> n > 0;
    }
  }

  /** One merge step extends the run-together text by the piece's text,
      less its `##` when it is glued. */
  lemma TextAbsorb(merged: seq<Tagged>, piece: Tagged)
    ensures Text(Absorb(merged, piece))
            == Text(merged) + if Continues(piece) && merged != [] then piece.word[2..] else piece.word
  {
    if Continues(piece) && merged != [] {
      TextGlue(merged, piece.word[2..]);
    } else {
      var after := merged + [piece];
      assert after[..|merged|] == merged;
    }
  }

  /** A piece followed only by continuations merges into one entry: the
      piece's tag, and its text followed by the continuations' texts less
      their `##`. */
  lemma {:induction false} MergeBlock(block: seq<Tagged>)
    requires block != []
    requires forall i :: 0 < i < |block| ==> Continues(block[i])
    ensures Merge(block) == [Tagged(SurfaceText(block), block[0].entity)]
    decreases |block|
  {
    var n := |block| - 1;
    var pre := block[..n];
    if n == 0 {
      assert Merge(block) == [block[0]];
      assert SurfaceText(block) == "" + block[0].word == block[0].word;
    } else {
      assert forall i :: 0 < i < |pre| ==> pre[i] == block[i];
      MergeBlock(pre);
      assert pre[0] == block[0];
      assert Continues(block[n]);
    }
  }

  /** Merging splits at every piece that is not a continuation: the pieces
      before it and the pieces from it on merge separately. */
  lemma {:induction false} MergeAtHead(a: seq<Tagged>, b: seq<Tagged>)
    requires b != [] && !Continues(b[0])
    ensures Merge(a + b) == Merge(a) + Merge(b)
    decreases |b|
  {
    var m := |b| - 1;
    var init, piece := b[..m], b[m];
    assert b == init + [piece];
    assert a + b == (a + init) + [piece];
    MergeSnoc(a + init, piece);
    MergeSnoc(init, piece);
    if m == 0 {
      assert a + init == a;
      assert Merge(init) == [];
    } else {
      assert init[0] == b[0];
      MergeAtHead(a, init);
      AbsorbRight(Merge(a), Merge(init), piece);
    }
  }

  /** Merging one more piece is one step of the merge. */
  lemma MergeSnoc(pre: seq<Tagged>, piece: Tagged)
    ensures Merge(pre + [piece]) == Absorb(Merge(pre), piece)
  {
    assert (pre + [piece])[..|pre|] == pre;
  }

  /** A step of the merge touches only the entries after a non-empty prefix's
      end. */
  lemma AbsorbRight(left: seq<Tagged>, right: seq<Tagged>, piece: Tagged)
    requires right != []
    ensures Absorb(left + right, piece) == left + Absorb(right, piece)
  {
    if Continues(piece) {
      var last := right[|right| - 1];
      assert (left + right)[|left + right| - 1] == last;
      UpdateLastOfAppend(left, right, Tagged(last.word + piece.word[2..], last.entity));
    } else {
      assert (left + right) + [piece] == left + (right + [piece]);
    }
  }

  // ===========================================================================
  // Answer selection

  /** The texts of the entries whose tag contains the target role, in order. */
  function Matches(entries: seq<Tagged>, target: string): (found: seq<string>)
    ensures |found| <= |entries|
    decreases |entries|
  {
    if entries == [] then []
    else
      (if Contains(entries[0].entity, target) then [entries[0].word] else [])
      + Matches(entries[1..], target)
  }

  /** The answer: the matching texts joined by spaces, or `Not found`. */
  function SelectAnswer(entries: seq<Tagged>, target: string): (answer: string)
    ensures Matches(entries, target) == [] ==> answer == "Not found"
    ensures |Matches(entries, target)| == 1 ==> answer == Matches(entries, target)[0]
  {
    var found := Matches(entries, target);
    if found == [] then "Not found" else Join(found, " ")
  }

  /** A text is among the matches exactly when some entry with a matching
      tag has it; there are never more matches than entries. */
  lemma {:induction false} MatchesSpec(entries: seq<Tagged>, target: string)
    ensures |Matches(entries, target)| <= |entries|
    ensures forall w :: w in Matches(entries, target) <==>
              exists j :: 0 <= j < |entries| && entries[j].word == w && Contains(entries[j].entity, target)
    decreases |entries|
  {
    if entries != [] {
      var tail := entries[1..];
      MatchesSpec(tail, target);
      assert forall j :: 0 < j < |entries| ==> entries[j] == tail[j - 1];
      forall w | exists j :: 0 <= j < |entries| && entries[j].word == w && Contains(entries[j].entity, target)
        ensures w in Matches(entries, target)
      {
        var j :| 0 <= j < |entries| && entries[j].word == w && Contains(entries[j].entity, target);
        if j > 0 {
          assert tail[j - 1].word == w;
        }
      }
    }
  }

  /** Selection keeps the order of the entries: matching a concatenation
      matches each part in turn. */
  lemma {:induction false} MatchesAppend(a: seq<Tagged>, b: seq<Tagged>, target: string)
    ensures Matches(a + b, target) == Matches(a, target) + Matches(b, target)
    decreases |a|
  {
    if a != [] {
      assert (a + b)[1..] == a[1..] + b;
      MatchesAppend(a[1..], b, target);
    } else {
      assert a + b == b;
    }
  }

  /** When the matching texts are words (non-empty, no whitespace), the
      answer splits back into them; with no match the answer is `Not found`. */
  lemma AnswerWords(entries: seq<Tagged>, target: string)
    requires forall w :: w in Matches(entries, target) ==> IsWord(w)
    ensures Matches(entries, target) == [] ==> SelectAnswer(entries, target) == "Not found"
    ensures Matches(entries, target) != [] ==> Words(SelectAnswer(entries, target)) == Matches(entries, target)
  {
    var found := Matches(entries, target);
    if found != [] {
      assert forall k :: 0 <= k < |found| ==> found[k] in found;
      WordsJoin(found);
    }
  }

  /** A tag of the 15-label vocabulary is at most six characters long. */
  lemma VocabLabelLength(l: string)
    requires l in TokenizeAlign.Label2Id
    ensures |l| <= 6
  {
    TokenizeAlign.VocabShape(l);
  }

  /** A modifier target such as `ARGM-LOC` is longer than every tag of the
      vocabulary, so when the tagger only emits vocabulary tags nothing
      matches and the answer is `Not found`. */
  lemma LongTargetNotFound(entries: seq<Tagged>, target: string)
    requires |target| > 6
    requires forall j :: 0 <= j < |entries| ==> entries[j].entity in TokenizeAlign.Label2Id
    ensures Matches(entries, target) == []
    ensures SelectAnswer(entries, target) == "Not found"
  {
    MatchesSpec(entries, target);
    if Matches(entries, target) != [] {
      var w := Matches(entries, target)[0];
      var j :| 0 <= j < |entries| && entries[j].word == w && Contains(entries[j].entity, target);
      VocabLabelLength(entries[j].entity);
      ContainsLength(entries[j].entity, target);
    }
  }

  /** For the agent and patient targets, a vocabulary tag matches exactly
      when it is that role's `B-` or `I-` tag. */
  lemma CoreTargetMatch(l: string, target: string)
    requires l in TokenizeAlign.Label2Id
    requires target == "ARG0" || target == "ARG1"
    ensures Contains(l, target) <==> (l == "B-" + target || l == "I-" + target)
  {
    TokenizeAlign.VocabShape(l);
    ContainsIff(l, target);
    if l == "O" {
      if Contains(l, target) {
        ContainsLength(l, target);
      }
    } else {
      if l == "B-" + target || l == "I-" + target {
        assert l[2..6] == target;
        assert OccursAt(l, target, 2);
      }
      if Contains(l, target) {
        var i: nat :| OccursAt(l, target, i);
        TagOccurrence(l, target, i);
      }
    }
  }

  /** A four-letter role starting with `A` can occur in a `B-`/`I-` tag
      only right after the prefix, and then the tag is prefix plus role. */
  lemma TagOccurrence(l: string, target: string, i: nat)
    requires TokenizeAlign.ArgTag(l)
    requires |target| == 4 && target[0] == 'A'
    requires OccursAt(l, target, i)
    ensures l == "B-" + target || l == "I-" + target
  {
    assert l[i..i + 4][0] == target[0];
    assert i == 2;
    assert l == l[..2] + l[2..6];
  }

  /** Every role the detector returns other than ARG0 and ARG1 is a
      modifier role of eight characters; so with vocabulary tags, only
      agent and patient questions can ever find an answer. */
  lemma ModifierQuestionNotFound(entries: seq<Tagged>, question: string)
    requires forall j :: 0 <= j < |entries| ==> entries[j].entity in TokenizeAlign.Label2Id
    requires DetectQuestionType(question) !in {"ARG0", "ARG1"}
    ensures SelectAnswer(entries, DetectQuestionType(question)) == "Not found"
  {
    var role := DetectQuestionType(question);
    DetectIsRole(question);
    var i :| 0 <= i < |Roles()| && Roles()[i] == role;
    assert |role| == 8;
    LongTargetNotFound(entries, role);
  }

  /** `answer_question` once the tagger has run: merge the pieces, detect
      the role the question asks for, and select the answer. */
  method AnswerQuestion(results: seq<Tagged>, question: string) returns (answer: string)
    ensures answer == SelectAnswer(Merge(results), DetectQuestionType(question))
  {
    var merged := MergePieces(results);
    var target := DetectQuestionType(question);
    var answerTokens := Matches(merged, target);
    answer := if answerTokens != [] then Join(answerTokens, " ") else "Not found";
  }
}
