# Cross-lingual SRL data pipeline, modelled in Dafny

This project models the data-preparation core of the MRC005 cross-lingual
semantic role labelling system, and the post-processing of its
question-answering demo. It proves properties of that model.

- **Universal PropBank reader** (`UpParser`, `up_parser.dfy`).
  - A CoNLL-U-style file, given as lines, is parsed into sentences of tokens. Comment lines, multiword-token rows and empty-node rows are skipped. Blank lines end sentences. The id column must be an integer, and the form column must exist.
  - `convert_to_bio` normalises each raw argument label (`_`, `V`, `C-V` become `O`; `C-`/`R-` prefixes are dropped; every `ARGM…` becomes `ARGM`) and emits B/I/O tags.
  - Each sentence gives one training example per predicate column.
  - The dataset is every sentence's examples, in order.
- **Subword alignment** (`Alignment`, `alignment.dfy`).
  - The shared specification of the `word_ids` loop. A piece whose word id differs from the previous piece's gets its word's label id. Every other piece, including every piece with no word, gets the ignore id −100. When each word's pieces are adjacent, as the tokenizer produces them, the labelled pieces are exactly the words' first pieces.
  - A word id beyond the label list raises `IndexError`; a label the lookup does not know raises `KeyError`.
  - The label lookup is a parameter, so the 15-label and 9-label variants share one specification.
- **15-label vocabulary and aligner** (`TokenizeAlign`, `tokenize_align.dfy`).
  - `label2id` and its inverse.
  - `normalize_label`, which keeps the first two `-`-separated parts.
  - The fallback of rare roles to `B-ARGM`/`I-ARGM`/`O`.
  - The aligner's loops as methods.
- **9-label schema** (`Labels`, `labels.dfy`). `LABEL_LIST`, the `enumerate`-built `label2id`, its inverse, and `NUM_LABELS`.
- **Toy loader** (`DummyLoader`, `dummy_loader.dfy`).
  - `load_data`: blank-line separated blocks, each exactly two lines (words, tags), else the unpacking `ValueError`.
  - Its inverse: writing a corpus in that format.
  - The strict aligner, which looks labels up in the 9-label schema with no fallback.
- **Demo post-processing** (`Demo`, `demo.dfy`).
  - `detect_question_type`: the first role, in table order, with a keyword occurring in the lowercased question, else `ARG1`.
  - The loop merging `##` WordPiece continuations.
  - Answer selection: matching words joined by spaces, or `Not found`.

Shared pieces:
- `Results` (`results.dfy`): `Option` and `Result`. `Failure` stands for the exceptions the Python code lets escape.
- `Strings` (`strings.dfy`): the Python string operations the code relies on, namely `strip()`, `split(sep)`, `sep.join`, `split()` on whitespace, `in`, `lower()` and `int()`.
- `Vocab` (`vocab.dfy`): building a label dictionary from a list, and inverting one.
- `Seqs` (`seqs.dfy`): element-type-independent facts about slicing sequences, used by the loop proofs.

Loops that update variables are methods proved equal to a specification function. The properties are then proved about that function.

Two behaviours of the code that a reader might not expect are kept as written:
- Every token's argument columns are indexed by the first token's predicate count (src/preprocess/up_parser.py:82). A token with fewer argument columns than the sentence's first token therefore raises `IndexError`. The model fails with `MissingArgColumn`.
- A malformed token row (non-integer id, or no form column) raises inside the line loop (src/preprocess/up_parser.py:24-25). This aborts the whole file, not just that row's sentence. The model fails with `InvalidId` or `MissingForm`.

Two observations about the demo are proved as lemmas:
- The Assamese "why" keyword contains the Assamese "what" keyword. A question using it is therefore classed ARG0 or ARG1, never ARGM-CAU (`Demo.AssameseWhyShadowed`).
- Every ARGM target is eight characters, longer than any tag of the 15-label vocabulary. So if the tagger emits only vocabulary tags, a modifier question always answers `Not found` (`Demo.ModifierQuestionNotFound`).

## Model

| member | source | states |
|---|---|---|
| UpParser.ClassifyRow | src/preprocess/up_parser.py:7-28 | Classifies one line for the loop: a comment, a blank line, a multiword/empty-node row, a token row or a malformed row. A line is a comment exactly when its stripped text starts with `#`, and blank exactly when its stripped text is empty. Any other line is skipped as a multiword/empty-node row exactly when its first tab-separated column contains `-` or `.`. It is a token row exactly when, in addition, that column is an integer and there is a second column. |
| UpParser.TokenRowColumns | src/preprocess/up_parser.py:18-28 | A token row's columns join back to the stripped line. The id column has no `-` or `.` and parses as the token id. The form is column 1. The sense is column 10 or `_`. The argument columns are 11 onward, or none. |
| UpParser.MalformedRow | src/preprocess/up_parser.py:18-28 | A candidate token row fails exactly when its id is not an integer or it has no form column. The id error takes precedence. A row with an integer id and no form column fails with `MissingForm`, carrying the stripped line. |
| UpParser.ParseUpFile | src/preprocess/up_parser.py:1-35 | The line loop computes the parse specification `ParseUp` of the lines. |
| UpParser.ReadLine | src/preprocess/up_parser.py:7-30 | One line of the loop computes `Step` of the current state and the classified line: a comment or multiword/empty-node row changes nothing, a blank line flushes, a token row is appended, and a malformed row raises its error. |
| UpParser.ReadColumns | src/preprocess/up_parser.py:18-30 | For a line that is neither a comment nor blank, the column handling computes `Step` of the state and the columns' classification. |
| UpParser.ParseUpKeepsTokenRows | src/preprocess/up_parser.py:6-33 | A successful parse has no empty sentence. Its sentences, flattened, are exactly the token rows in input order. |
| UpParser.ParseRowsUnbroken | src/preprocess/up_parser.py:6-33 | Rows with no blank line and no malformed row form one sentence: all their token rows, in order. If there are no token rows, there is no sentence. |
| UpParser.ParseUpUnbroken | src/preprocess/up_parser.py:6-33 | Lines with no blank line and no malformed row parse as a single sentence of all their token rows, or as no sentence if there are none. |
| UpParser.ParseUpFailsAtFirstMalformedRow | src/preprocess/up_parser.py:18-30 | The parse fails exactly when some row is malformed, and then with the first such row's error. |
| UpParser.ParseUpBlankSplits | src/preprocess/up_parser.py:12-16 | A blank line is a hard boundary. Parsing the lines before and after it separately, then concatenating, equals the whole parse. |
| UpParser.ParseUpBlank | src/preprocess/up_parser.py:12-16 | A lone blank line yields no sentence. |
| UpParser.ParseUpRepeatedBlank | src/preprocess/up_parser.py:12-16 | A second consecutive blank line changes nothing. |
| UpParser.ParseUpSkipsRow | src/preprocess/up_parser.py:9-21 | Removing a comment row or a multiword/empty-node row leaves the parse unchanged. |
| UpParser.ParseRowsFlushesTrailingTokens | src/preprocess/up_parser.py:32-33 | If the rows end in a token row, the last sentence ends with that token. |
| UpParser.NormalizeRole | src/preprocess/up_parser.py:40-49 | The nested `normalize` of `convert_to_bio`. Its result is always `O`, `ARGM`, or an `ARG…` role that does not start with `ARGM`. |
| UpParser.NormalizeRoleShape | src/preprocess/up_parser.py:40-49 | A role is `O`, `ARGM`, or a non-modifier `ARG…` role equal to the raw label less an optional `C-`/`R-` prefix. `_`, `V` and `C-V` give `O`. For any other label, take its base: the label less a `C-` or `R-` prefix. A base starting `ARGM` gives `ARGM`. A base starting `ARG` but not `ARGM` gives the base itself. Any other base gives `O`. |
| UpParser.NormalizeRoleIdempotent | src/preprocess/up_parser.py:40-49 | Normalising twice equals normalising once. |
| UpParser.ConvertToBio | src/preprocess/up_parser.py:51-66 | The tagging loop computes `BioEncode` of the raw labels. |
| UpParser.BioEncodeSpans | src/preprocess/up_parser.py:51-66 | Each tag carries its token's normalised role. It is `O` exactly for no role. It is `I-` exactly when the previous token has the same role, and `B-` otherwise. |
| UpParser.BioEncodeWellFormed | src/preprocess/up_parser.py:51-66 | Every encoding is well-formed BIO: every tag is `O` or `B-`/`I-` of an `ARG` role, and an `I-` tag only continues a span of its own role. |
| UpParser.BioEncodeExample | src/preprocess/up_parser.py:38-66 | `_ ARG0 ARG0 _ ARGM-TMP` encodes as `O B-ARG0 I-ARG0 O B-ARGM`. |
| UpParser.SentenceToExamples | src/preprocess/up_parser.py:69-90 | The predicate loop computes `SentenceExamples`. |
| UpParser.SentenceExamplesShape | src/preprocess/up_parser.py:69-90 | An empty sentence, or one whose first token has no argument column, gives no example. It fails exactly when a token lacks one of the first token's columns. Otherwise it gives one example per column, each with the sentence's words and a well-formed tag list of the same length. |
| UpParser.LoadSrlDataset | src/preprocess/up_parser.py:93-102 | The loader computes `SrlDataset`: parse, then extend with each sentence's examples. |
| UpParser.CollectExamples | src/preprocess/up_parser.py:96-100 | The loop over the sentences computes `ExamplesOf`: each sentence's examples in order, failing with the first sentence that fails. |
| UpParser.ExamplesOfFails | src/preprocess/up_parser.py:96-100 | Collecting fails exactly when some sentence's examples fail. It then fails with the error of the first sentence that fails. |
| UpParser.ExamplesOfCount | src/preprocess/up_parser.py:93-102 | The dataset has one example per predicate column over all sentences. Every example's words and labels have equal length. |
| Alignment.AlignSpec | src/preprocess/tokenize_align.py:78-102 | A successful alignment has one id per piece, namely that piece's own id. Alignment fails exactly when some piece raises, and with the first raising piece's error. |
| Alignment.AlignPrefixFails | src/preprocess/tokenize_align.py:78-102 | An exception part-way through aborts the whole example with that error. |
| Alignment.AlignSucceeds | src/preprocess/dummy_loader.py:40-48 | Alignment succeeds exactly when every piece's word id is in range and its word's label is known to the lookup. |
| Alignment.AlignLabelsNewWords | src/preprocess/tokenize_align.py:78-102 | With a lookup that never returns −100, the non-ignore ids sit exactly on the pieces whose word id differs from the previous piece's. |
| Alignment.EveryWordLabelled | src/preprocess/tokenize_align.py:78-102 | Every word with a piece has a piece that starts it. |
| Alignment.OneLabelPerWord | src/preprocess/tokenize_align.py:78-102 | If each word's pieces are adjacent, no two new-word pieces share a word. |
| Alignment.AlignBatchSpec | src/preprocess/tokenize_align.py:73-104 | The batch succeeds exactly when every example does. It then has one id list per example, each that example's alignment. |
| TokenizeAlign.Label2IdInjective | src/preprocess/tokenize_align.py:7-30 | No two labels share an id. |
| TokenizeAlign.Label2IdLayout | src/preprocess/tokenize_align.py:7-30 | `O` is 0. `B-ARGk` is 2k+1 and `I-ARGk` is 2k+2 for k in 0..5. `B-ARGM` is 13 and `I-ARGM` is 14. All ids are in 0..14. |
| TokenizeAlign.Id2LabelInverse | src/preprocess/tokenize_align.py:32 | `id2label` has exactly the keys 0..14, and both round trips hold. |
| TokenizeAlign.VocabShape | src/preprocess/tokenize_align.py:7-30 | Every label except `O` is `B-`/`I-` plus `ARG` plus a digit 0-5 or `M`. |
| TokenizeAlign.NormalizeLabel | src/preprocess/tokenize_align.py:44-58 | `normalize_label`. The result is always a prefix of the label, and a label with no `-` is returned unchanged. |
| TokenizeAlign.NormalizeLabelCut | src/preprocess/tokenize_align.py:44-58 | A label without `-` is kept. Otherwise the result is a prefix of the label, ends where the label has `-` or ends, and has the form `a-b` with no `-` in `a` or `b`. |
| TokenizeAlign.NormalizeLabelIdempotent | src/preprocess/tokenize_align.py:44-58 | Normalising twice equals normalising once. |
| TokenizeAlign.TwoParts | src/preprocess/tokenize_align.py:53-56 | `a-b` splits into `[a, b]` and is its own normalisation. |
| TokenizeAlign.ThreeParts | src/preprocess/tokenize_align.py:53-56 | `a-b-c` normalises to `a-b`. |
| TokenizeAlign.NormalizeLabelDropsSuffix | src/preprocess/tokenize_align.py:45-49 | `B-ARG1-DSP` normalises to `B-ARG1`. |
| TokenizeAlign.NormalizeLabelCollapsesModifier | src/preprocess/tokenize_align.py:45-49 | `B-ARGM-TMP` normalises to `B-ARGM`. |
| TokenizeAlign.Fallback | src/preprocess/tokenize_align.py:89-95 | The fallback for rare roles. Its result is always a key of `label2id`, and a label already in `label2id` is kept. |
| TokenizeAlign.FallbackSpec | src/preprocess/tokenize_align.py:89-95 | The fallback always lands in the vocabulary and is the identity on it. A label outside the vocabulary that starts `B-` gives `B-ARGM`; one that starts `I-` gives `I-ARGM`. A label with neither prefix gives `O`, and `O` arises exactly from such labels. |
| TokenizeAlign.ResolveLabel | src/preprocess/tokenize_align.py:86-95 | A normalised and fallen-back label is always a key of `label2id`. |
| TokenizeAlign.ResolveVocabLabel | src/preprocess/tokenize_align.py:86-95 | Every vocabulary label resolves to itself. |
| TokenizeAlign.NormalizeVocabLabel | src/preprocess/tokenize_align.py:44-58 | Normalisation leaves every vocabulary label unchanged. |
| TokenizeAlign.ResolveLabelIdempotent | src/preprocess/tokenize_align.py:86-95 | Resolving a resolved label changes nothing. |
| TokenizeAlign.ResolveRareBeginRole | src/preprocess/tokenize_align.py:88-93 | A `B-role` label outside the vocabulary, with no `-` in the role, resolves to `B-ARGM`. |
| TokenizeAlign.ResolveRareInsideRole | src/preprocess/tokenize_align.py:88-93 | An `I-role` label outside the vocabulary, with no `-` in the role, resolves to `I-ARGM`. |
| TokenizeAlign.ResolveLabelExample | src/preprocess/tokenize_align.py:88-93 | `I-ARGA` resolves to `I-ARGM`. |
| TokenizeAlign.LookupId | src/preprocess/tokenize_align.py:85-97 | The lookup never raises, and its id is in 0..14. |
| TokenizeAlign.AlignLabels | src/preprocess/tokenize_align.py:74-102 | The per-example loop computes `Align` with the resolving lookup. |
| TokenizeAlign.TokenizeAndAlign | src/preprocess/tokenize_align.py:71-104 | The batch loop computes `AlignBatch` with the resolving lookup. |
| TokenizeAlign.AlignLabelsOutcome | src/preprocess/tokenize_align.py:78-102 | Alignment fails exactly when a word id is out of range. Otherwise a piece whose word id differs from the previous piece's gets the id, in 0..14, of its word's resolved label, and every other piece gets −100. |
| Vocab.Invert | src/preprocess/tokenize_align.py:32 | The inverse of an injective dictionary has exactly the ids as keys and maps each back to its label. |
| Vocab.EnumerateIndex | src/preprocess/labels.py:13 | For a list without repeats, each item's id is its position, and the dictionary is injective. |
| Vocab.EnumerateInverse | src/preprocess/labels.py:14 | The inverse of such a dictionary has keys exactly 0..n−1 and maps i to the i-th item. |
| Labels.LabelListDistinct | src/preprocess/labels.py:3-9 | The 9 labels are distinct. |
| Labels.Label2IdIsIndex | src/preprocess/labels.py:13 | Each label's id is its list position. The keys are exactly the listed labels, ids lie in 0..8, and `O` is 0. |
| Labels.Label2IdInjective | src/preprocess/labels.py:13 | No two labels share an id. |
| Labels.Id2LabelInverse | src/preprocess/labels.py:14-16 | `id2label` has exactly the keys 0..`NUM_LABELS`−1, maps i to the i-th label, and both round trips hold. |
| Labels.NoHigherArguments | src/preprocess/labels.py:3-9 | Every label is `O` or a `B-`/`I-` tag of ARG0, ARG1, ARG2 or ARGM. |
| Labels.SubVocabulary | src/preprocess/labels.py:3-13 | Every 9-schema label is in the 15-label vocabulary. The ids agree for positions 0-6, and the ARGM ids are 6 higher there. |
| DummyLoader.LoadData | src/preprocess/dummy_loader.py:9-21 | The block loop computes `ReadCorpus` of the file text. |
| DummyLoader.CollectSpec | src/preprocess/dummy_loader.py:16-19 | Gathering succeeds exactly when every block does. It then keeps each block's entry in order; otherwise it fails with the first failure. |
| DummyLoader.ReadBlocks | src/preprocess/dummy_loader.py:16-19 | The block loop computes `Collect` of the blocks' entries. |
| DummyLoader.ParseBlock | src/preprocess/dummy_loader.py:17-19 | Unpacks one block into its words and tags. It succeeds exactly when the block has two lines; otherwise the error's line count is not 2. |
| DummyLoader.ParseBlockSpec | src/preprocess/dummy_loader.py:17-19 | A block unpacks exactly when it has two lines. It then gives the words of line 1 and the tags of line 2; otherwise the error carries its line count. |
| DummyLoader.ReadBlocksSpec | src/preprocess/dummy_loader.py:16-19 | Reading succeeds exactly when every block has two lines. It then gives one entry per block, in order, each that block's words and tags. Otherwise it fails with the error of the first block that does not unpack. |
| DummyLoader.BlocksJoin | src/preprocess/dummy_loader.py:14 | The blocks, joined with blank lines, give back the stripped text. |
| DummyLoader.ReadCorpusBlank | src/preprocess/dummy_loader.py:14-17 | An empty or all-whitespace file fails to unpack its single one-line block. |
| DummyLoader.ReadRender | src/preprocess/dummy_loader.py:9-21 | Writing any non-empty corpus of non-empty word lists and reading it back gives the corpus. |
| Strings.WordsAreWords | src/preprocess/dummy_loader.py:18-19 | `split()` yields no empty word and no word holding whitespace. |
| Strings.JoinSplit | src/preprocess/dummy_loader.py:14 | Joining the pieces of `split(sep)` with `sep` gives back the string. |
| DummyLoader.StrictLookup | src/preprocess/dummy_loader.py:44 | The lookup succeeds exactly for labels of the 9-label schema. |
| DummyLoader.AlignStrict | src/preprocess/dummy_loader.py:37-48 | The per-example loop computes `Align` with the strict lookup. |
| DummyLoader.TokenizeAndAlign | src/preprocess/dummy_loader.py:33-52 | The batch loop computes `AlignBatch` with the strict lookup. |
| DummyLoader.AlignStrictOutcome | src/preprocess/dummy_loader.py:40-48 | Alignment fails exactly when a piece's word is out of range or its tag is outside the schema. Otherwise a piece whose word id differs from the previous piece's gets its word's tag id, in 0..8, and every other piece gets −100. |
| Demo.HasKeyword | src/inference/demo.py:58-60 | True exactly when some keyword of the list occurs in the question. |
| Demo.FirstRole | src/inference/demo.py:57-61 | The search over the role table. The result is the default `ARG1`, or the role of some table entry with a keyword occurring in the question. |
| Demo.DetectQuestionType | src/inference/demo.py:54-61 | `detect_question_type`. The result is `ARG1`, or the role of some entry of the question table with a keyword occurring in the lowercased question. |
| Demo.FirstRoleSpec | src/inference/demo.py:54-61 | The result is the role of the first table entry with an occurring keyword. If no entry has one, it is `ARG1`. |
| Demo.DetectIsRole | src/inference/demo.py:9-61 | The detected role is always a key of the question table, and is `ARG1` when no keyword occurs. |
| Demo.SharedKeywordIsAgent | src/inference/demo.py:15-60 | A question containing `কাক`, listed under both ARG0 and ARG1, is detected as ARG0. |
| Demo.AssameseWhyShadowed | src/inference/demo.py:18-60 | A question containing `কিয়` (ARGM-CAU) is detected as ARG0 or ARG1, because it contains `কি`. |
| Demo.Merge | src/inference/demo.py:70-77 | Merging a non-empty output gives a non-empty list. |
| Demo.MergePieces | src/inference/demo.py:70-77 | The merge loop computes `Merge` of the tagger's output. |
| Demo.MergeHeads | src/inference/demo.py:70-77 | There is one merged entry per head piece: the first piece, or a piece not starting `##`. The entry keeps that piece's tag, and its text starts with that piece's text. |
| Demo.MergeLength | src/inference/demo.py:70-77 | The merged length plus the number of glued pieces is the input length. So it is at most the input length, with equality exactly when no piece after the first starts with `##`. |
| Demo.MergeText | src/inference/demo.py:74-77 | The merged texts, run together, are the pieces' texts less the `##` of each glued piece. |
| Demo.MergeBlock | src/inference/demo.py:70-77 | A piece followed only by `##` continuations merges into one entry. That entry has the first piece's tag and its text is the pieces' texts run together, each continuation less its `##`. |
| Demo.MergeAtHead | src/inference/demo.py:70-77 | The merge splits at every piece not starting `##`: merging `a + b`, where `b` starts with such a piece, equals merging `a` and `b` separately and concatenating. |
| Demo.Matches | src/inference/demo.py:83-86 | The texts of the entries whose tag contains the target, in order. There are never more of them than entries. |
| Demo.SelectAnswer | src/inference/demo.py:88 | The answer is `Not found` when nothing matches, and exactly the matched text when one entry matches. |
| Demo.MatchesSpec | src/inference/demo.py:83-86 | A text is selected exactly when some entry with that text has a tag containing the target. There are never more matches than entries. |
| Demo.MatchesAppend | src/inference/demo.py:83-86 | Selection keeps order: selecting from `a + b` is selecting from `a`, then from `b`. |
| Demo.AnswerWords | src/inference/demo.py:88 | With no match the answer is `Not found`. Otherwise, when the matches are words, the answer splits back into them. |
| Demo.LongTargetNotFound | src/inference/demo.py:83-88 | A target longer than six characters matches no 15-vocabulary tag, so the answer is `Not found`. |
| Demo.CoreTargetMatch | src/inference/demo.py:83-86 | For target `ARG0` or `ARG1`, a vocabulary tag matches exactly when it is that role's `B-` or `I-` tag. |
| Demo.ModifierQuestionNotFound | src/inference/demo.py:80-88 | With vocabulary tags, any question detected as neither ARG0 nor ARG1 answers `Not found`. |
| Demo.AnswerQuestion | src/inference/demo.py:70-88 | The answer is `SelectAnswer` of the merged output for the detected role. |

## Left out

- Reading files (`open`, iterating lines, `f.read()`): the parsers take the file's lines or text as a parameter.
- The HuggingFace tokenizer:
  - its `word_ids`, truncation, padding and offsets are not modelled; the word ids of each example are a parameter;
  - storing the aligned ids into the tokenizer output (`tokenized["labels"]`) is not modelled.
- The HuggingFace tagging pipeline in the demo is not modelled; its output, pieces with a text and a tag, is a parameter.
- `examples_to_dataset`, training, evaluation and the other scripts (`build_hf_dataset.py`, `load_english.py`, `load_up_english.py`, `train_srl.py`, `test_model.py`) are not part of this model.
- The demo's printing, `interactive_demo` and its `input()` loop are not modelled.
- Strings.Lower: lowercases ASCII letters only. Python's `str.lower` also maps non-ASCII cased letters; the demo's non-English keywords are in scripts without case.
- Strings.ParseInt: accepts ASCII digits only. Python's `int()` also accepts a sign, surrounding whitespace, underscores and non-ASCII digits; an id column with those is treated as invalid here.
- Demo.MergePieces: the merged entries are values, and the last entry is replaced rather than its dictionary mutated in place. The dictionaries are fresh and never shared, so nothing observable differs.
- Exceptions are modelled as `Failure` values carrying which error arose. Python's exception messages are not modelled.
