# AskMyNotes — answer pipeline model

AskMyNotes is a small question-answering app over one uploaded document. It
extracts the document's text, choosing a parser by the file-name extension.
It splits the text into chunks, embeds them and keeps the chunks whose
vector-search distance to the question is at most 1.4. It writes those chunks
into a fixed prompt and asks a local language model to complete it. It then
cleans the completion in four steps:
1. it removes every echo of the prompt and trims;
2. it cuts at the first of four markers, one marker after another;
3. it drops blank and repeated lines;
4. it strips a leading `answer:` label written in any case.

If the text is blank, the app shows "Could not extract text". If no chunk
is close enough, it shows "not enough information" and the model is never
called.

This Dafny project models that decision logic as pure functions:

- `Wrappers`: the `Option` type.
- `Sequences`: `Distinct` and `IsSubsequence`.
- `Strings`: the Python string operations the app relies on, over ASCII. These are `strip`, `lower`, `in`, `split(p, 1)[0]` (through the first-occurrence search `Find`), `startswith` (as a prefix test), `replace(p, "")`, `split` and `join`.
- `Extraction`: the extension dispatch and the text joins of `extract_text`.
- `Retrieval`: the relevance filter with `SimilarityThreshold = 1.4` and `TopK = 7`, and the context join.
- `AnswerCleanup`: the four post-processing steps.
- `Pipeline`: the prompt template, the four outcomes the page can show, and `Respond`, which ties the steps together.

The similarity search and the language model are parameters of `Respond`
(`search`, `generate`). The parsed document is the parameter `doc`, a record
holding what each parser library would hand back.

`Respond` takes the prompt's instruction text as a parameter. The app always
passes `Pipeline.Instructions`, which holds the exact text of lines 71-80. The
properties hold for any instruction text. The worked end-to-end example
(`Pipeline.EchoAndRunOnQuestionAreRemoved`) needs only instructions at least
as long as the run-on it removes, and `Pipeline.InstructionsOutweighRunOn`
shows that the app's own text meets this.

A reader might expect "Answer: Paris is the capital." to lose only its
label and come out as "Paris is the capital.". In the code, the exact-case
marker `Answer:` is cut in step 2, before the label step, so the result is
the empty string. The model follows the code:
`AnswerCleanup.ExactCaseLabelEmptiesAnswer` proves the empty result, and
`AnswerCleanup.ExactCaseLabelNeverReachesLabelStep` shows that an
exact-case label can never reach step 4.

## Model

| member | source | states |
|---|---|---|
| Extraction.LastSegment | test_app.py:19 | the extension is the longest dot-free suffix of the name; it is the whole name or follows a `.` |
| Extraction.LastSegmentUnique | test_app.py:19 | any dot-free suffix that is the whole name or follows a `.` is the segment `split('.')[-1]` returns |
| Extraction.ExtensionKind | test_app.py:19-30 | the PDF, TXT, DOCX and PPTX branches are taken exactly when the last segment equals `pdf`, `txt`, `docx` or `pptx` ignoring ASCII case |
| Extraction.ExtensionKindOfStem | test_app.py:19 | for `stem.ext` with a dot-free ext, only ext decides the branch, whatever dots the stem holds |
| Extraction.ExtensionKindOfBareName | test_app.py:19 | a name without a dot is its own extension |
| Extraction.LastSegmentToLower | test_app.py:19 | lower-casing before or after taking the last segment gives the same string |
| Extraction.ExtensionKindIgnoresCase | test_app.py:19 | two names equal up to case select the same parser |
| Extraction.UpperCasePdfSelectsPdf | test_app.py:19-22 | `notes.PDF` is read as a PDF |
| Extraction.InnerDotsDoNotCount | test_app.py:19-24 | `report.pdf.txt` is read as plain text |
| Extraction.DoubleExtensionUnsupported | test_app.py:19-31 | `archive.tar.gz` falls through to the empty text |
| Extraction.PageTexts | test_app.py:22 | one text per page, with a page that yields nothing contributing `""` |
| Extraction.SlideTexts | test_app.py:30 | exactly the shapes that have text contribute, and never more pieces than shapes |
| Extraction.SlideTextsSnoc | test_app.py:30 | one more shape adds its text, if it has one, after the texts before it, so the texts keep the shapes' order |
| Extraction.ShapeTexts | test_app.py:30 | a text is in the result iff some slide has a shape carrying it |
| Extraction.ShapeTextsSnoc | test_app.py:30 | one more slide adds its shapes' texts after those of the earlier slides, so the texts keep the slides' order |
| Extraction.ExtractText | test_app.py:18-31 | an unsupported extension yields `""`, a `.txt` file its decoded bytes, and a PDF, Word or PowerPoint file the space-joined page texts, paragraphs or shape texts of the selected library |
| Extraction.PdfPagesRoundTrip | test_app.py:22 | for space-free page texts, splitting the PDF text at spaces gives back the per-page texts |
| Extraction.ExtractTextReadsSelectedLibrary | test_app.py:20-30 | the text depends only on the output of the parser the extension selects |
| Retrieval.RelevantMatches | test_app.py:64-66 | keeps, in order, exactly the matches whose distance is at most 1.4, with their multiplicities |
| Retrieval.RelevantMatchesWithinTopK | test_app.py:65-66 | at most 7 chunks reach the prompt |
| Retrieval.NoRelevantMatchIff | test_app.py:66-68 | the kept list is empty if and only if every score exceeds 1.4 |
| Retrieval.RelevantMatchesConcat | test_app.py:66 | filtering distributes over concatenation of result lists |
| Retrieval.Chunks | test_app.py:69 | the k-th chunk is the k-th match's page content |
| Retrieval.Context | test_app.py:69 | no match gives the empty context, a single match gives exactly its chunk, and otherwise the context starts with the first chunk; with `ContextOfConcat` this fixes the space join for any chunks |
| Retrieval.ContextEndsWithLastChunk | test_app.py:69 | the context ends with the last kept chunk |
| Retrieval.ContextOfConcat | test_app.py:69 | the context of two non-empty lists is their contexts joined by one space |
| Retrieval.ContextRoundTrip | test_app.py:69 | splitting the context at spaces recovers the space-free chunks |
| Strings.Strip | test_app.py:100 | `strip()` removes leading and trailing whitespace and nothing else: the result is a slice `s[lo..hi]` with only whitespace outside it, with non-space ends, empty iff the input is all whitespace, and unchanged if already trimmed |
| Strings.StripUnique | test_app.py:100 | any result with non-space ends obtained by taking only border whitespace off the text is `Strip`'s result, so `Strip`'s contract determines it |
| Strings.StripIdempotent | test_app.py:114 | stripping twice is stripping once |
| Strings.ToLower | test_app.py:19 | the result has the input's length and holds, position by position, each character with `A`-`Z` folded to lower case |
| Strings.ToLowerMatchesAnyCase | test_app.py:19 | `lower()` equals a lower-case word iff the string matches it in any case |
| Strings.Find | test_app.py:106-108 | `find` returns the first occurrence, or none when there is no occurrence |
| Strings.ContainsIffOccurs | test_app.py:106 | Python's `m in s` holds exactly when `m` occurs at some index of `s` |
| Strings.BeforeFirstOccurrence | test_app.py:108 | the text before the first occurrence does not contain the separator |
| Strings.RemoveAll | test_app.py:100 | `replace(p, "")` never lengthens the text; its meaning is given by the four lemmas below |
| Strings.RemoveAllAbsent | test_app.py:100 | `replace(p, "")` leaves a string without `p` unchanged |
| Strings.RemoveAllAtFirstOccurrence | test_app.py:100 | `replace(p, "")` keeps the text before the first `p` and continues after it |
| Strings.RemoveAllLeading | test_app.py:100 | a leading copy of `p` is deleted |
| Strings.RemoveAllIsSinglePass | test_app.py:100 | replacement is one left-to-right pass: `"aabb"` minus `"ab"` is `"ab"`, which still contains `"ab"` |
| Strings.Split | test_app.py:108-111 | `split` yields at least one piece; no piece holds the separator; the first piece is a prefix |
| Strings.Join | test_app.py:118 | no pieces join to the empty string, one piece joins to itself, and otherwise the first piece starts the result |
| Strings.JoinEndsWithLast | test_app.py:118 | the last piece ends the joined text |
| Strings.JoinConcat | test_app.py:118 | joining two non-empty lists of pieces is joining each and putting the separator between the two results |
| Strings.JoinExtendFirst | test_app.py:118 | text put in front of the first piece comes out in front of the joined text |
| Strings.JoinSplit | test_app.py:111-118 | joining the pieces of a split with the separator gives back the string |
| Strings.SplitJoin | test_app.py:118 | splitting a join of separator-free pieces gives back the pieces |
| Strings.JoinTrimmed | test_app.py:118 | joining non-empty trimmed lines yields a trimmed, non-empty string |
| AnswerCleanup.StripPrompt | test_app.py:100 | the result is trimmed and no longer than the output; an output without the prompt is only stripped |
| AnswerCleanup.StripPromptDropsEcho | test_app.py:100 | an echoed prompt followed by a completion leaves the stripped completion |
| AnswerCleanup.StripPromptRemovesEveryEcho | test_app.py:100 | an echo in the middle is cut out and the rest is processed after it |
| AnswerCleanup.CutAt | test_app.py:106-108 | when the marker occurs, the result is the text before its first occurrence with only border whitespace removed, trimmed and without the marker; a marker-free text is left as is |
| AnswerCleanup.TruncateWith | test_app.py:105-108 | after the loop, none of the markers occurs and the result is an infix of the input; on text without leading space the loop only shortens it from the right |
| AnswerCleanup.TruncateWithUnchanged | test_app.py:105-108 | the loop leaves text containing no marker unchanged |
| AnswerCleanup.TruncateAtMarkers | test_app.py:104-108 | the four markers are all absent afterwards; a marker-free answer is unchanged |
| AnswerCleanup.TruncateAtMarkersUnfold | test_app.py:104-108 | the marker loop is four cuts, one per marker, in the order `"\nQuestion:"`, `"Document Context:"`, `"Answer:"`, `"Question:"` |
| AnswerCleanup.TruncateAtMarkersIdempotent | test_app.py:104-108 | truncating twice equals truncating once |
| AnswerCleanup.MarkerWithBreak | test_app.py:104 | any text containing `"\nQuestion:"` also contains `"Question:"` |
| AnswerCleanup.TrimAll | test_app.py:114 | every line is stripped, position by position |
| AnswerCleanup.DedupLoop | test_app.py:112-116 | the loop extends its list, keeps it duplicate-free, and ends holding exactly the earlier entries plus the non-empty stripped lines |
| AnswerCleanup.FirstSeen | test_app.py:112-116 | the reference de-duplication is duplicate-free and holds exactly the non-empty lines |
| AnswerCleanup.DedupLoopIsFirstSeen | test_app.py:113-116 | the loop agrees with the first-occurrence reference on every input |
| AnswerCleanup.FirstSeenSnoc | test_app.py:115-116 | a new line is appended only when non-empty and unseen |
| AnswerCleanup.UniqueLines | test_app.py:111-116 | the kept lines are distinct, non-empty and trimmed, and are exactly the stripped lines of the answer |
| AnswerCleanup.UniqueLinesAreFirstSeen | test_app.py:111-116 | the kept lines are the first occurrences of the stripped lines, in order |
| AnswerCleanup.UniqueLinesAreInfixes | test_app.py:111-116 | every kept line is a piece of the answer's text |
| AnswerCleanup.UniqueLinesSeparatorFree | test_app.py:111-116 | no kept line contains a line break |
| AnswerCleanup.DedupLines | test_app.py:111-118 | the result is trimmed; it is empty iff no line survives; otherwise its lines are the kept lines |
| AnswerCleanup.DedupLinesIdempotent | test_app.py:111-118 | de-duplicating twice equals de-duplicating once |
| AnswerCleanup.DedupLoopKeepsClean | test_app.py:113-116 | lines that are already distinct, non-empty and trimmed all survive in order |
| AnswerCleanup.DedupLinesKeepsAbsence | test_app.py:111-118 | de-duplication cannot create a single-line phrase that was absent |
| AnswerCleanup.DedupRepeatedLine | test_app.py:111-118 | two distinct trimmed lines, the first given twice (`"A\nA\nB"`, say), come out with the second copy dropped and the order kept (`"A\nB"`) |
| AnswerCleanup.HasAnswerLabel | test_app.py:121 | the label test holds iff the answer is at least seven characters long and starts with `answer:` in any case |
| AnswerCleanup.StripAnswerLabel | test_app.py:121-122 | without a label the answer is unchanged; with one, the result is the text after the seven label characters with only its border whitespace removed, and is trimmed |
| AnswerCleanup.ExactCaseLabelNeverReachesLabelStep | test_app.py:104-122 | an exact-case `Answer:` never survives step 2, so step 4 only sees other casings |
| AnswerCleanup.CleanCompletion | test_app.py:104-122 | the shown answer is trimmed and contains none of the four markers |
| AnswerCleanup.LabelStepKeepsMarkerFree | test_app.py:121-122 | label stripping cannot bring a marker back |
| AnswerCleanup.DedupKeepsMarkerFree | test_app.py:111-118 | line de-duplication cannot bring a marker back |
| AnswerCleanup.CleanAnswer | test_app.py:100-122 | after all four steps, the answer is trimmed and free of markers, whatever the model produced |
| AnswerCleanup.ExactCaseLabelEmptiesAnswer | test_app.py:104-122 | `"Answer: Paris is the capital."` cleans to the empty string |
| AnswerCleanup.OtherCasingLabelIsStripped | test_app.py:104-122 | `"ANSWER: x"` passes the markers and cleans to `"x"` |
| AnswerCleanup.NoLabelUnlessLeadingA | test_app.py:121 | an answer not starting with `a` or `A` has no label |
| Pipeline.Prompt | test_app.py:70-87 | the prompt starts with a line break, ends with `"\n\nAnswer:"`, and its length is the fields' lengths plus the fixed template length |
| Pipeline.PromptRoundTrip | test_app.py:70-87 | given the instruction and context lengths, the instructions, context and question can be read back from the prompt |
| Pipeline.PromptInjective | test_app.py:70-87 | with contexts of equal length, two prompts are equal iff their contexts and questions are |
| Pipeline.Shown | test_app.py:124-130 | the page shows nothing only while no question was asked, and shows the answer text when there is one |
| Pipeline.Blank | test_app.py:37 | the text counts as blank iff `strip()` leaves nothing |
| Pipeline.Respond | test_app.py:34-130 | "Could not extract" iff the text is all whitespace; waiting iff the text is usable and the question empty; "not enough information" iff every score exceeds 1.4; otherwise a trimmed, marker-free answer |
| Pipeline.AnsweredFromRelevantContext | test_app.py:66-122 | an answer means some chunk was relevant, and it is the cleaned completion of the prompt built from the relevant chunks |
| Pipeline.BlankTextIgnoresModels | test_app.py:37-130 | with blank text the outcome is "Could not extract", whatever the search and model do |
| Pipeline.UnsupportedFileCannotExtract | test_app.py:31-37 | an unsupported extension always ends in "Could not extract" |
| Pipeline.IrrelevantMatchesIgnored | test_app.py:66-69 | two searches that agree on the relevant matches give the same outcome |
| Pipeline.FartherMatchesIgnored | test_app.py:66 | appending matches above the threshold to the search results changes nothing |
| Pipeline.NoRelevantMatchForAnyGenerator | test_app.py:68-128 | without a relevant match the answer is "not enough information", and the model is never consulted |
| Pipeline.EchoAndRunOnQuestionAreRemoved | test_app.py:91-122 | a model that echoes the prompt and then runs on into a new question yields only the first sentence, "The capital is Paris." |
| Pipeline.RespondToEcho | test_app.py:91-122 | for any model that echoes the prompt and continues with a text that does not repeat the prompt, the answer shown is that continuation stripped and cleaned: the echo never reaches the page |
| Pipeline.InstructionsOutweighRunOn | test_app.py:71-80 | the app's instruction text is longer than that run-on |
| Pipeline.EchoIsRemoved | test_app.py:100 | an echo longer than a trimmed completion is removed, leaving the completion |

## Left out

- The Streamlit page is not modelled: title, uploader widget, text input, subheaders and the upload-absent message (lines 11-15, 132-133). Only the message each branch selects is kept.
- `st.cache_resource` is not modelled (lines 42-58). Caching does not change any value shown.
- The PDF, DOCX and PPTX parser libraries are not modelled (lines 21, 26, 29). Their outputs are fields of `Extraction.ParsedDocument`.
- Extraction.ExtractText: UTF-8 decoding (line 24) is taken as already done; a decode error, which would raise, is not modelled.
- The chunk splitter with size 500 and overlap 100 is not modelled (lines 39-40). It is a library algorithm, and the model starts from the matches the search returns.
- The embedding model, the FAISS index and the TinyLlama generator are not modelled (lines 44-56, 65, 91-96). They become the `search` and `generate` parameters of `Pipeline.Respond`. `search` is unconstrained: `Retrieval.RelevantMatchesWithinTopK` states the bound for a search limited to `TopK = 7` results, and the generation options (200 new tokens, greedy decoding) are not modelled.
- Retrieval.IsRelevant: scores are exact reals, so float rounding near 1.4 is not modelled.
- Strings.Strip: whitespace is the ASCII subset of Python's `isspace`: space, codes 9-13 and 28-31. Unicode whitespace is not modelled.
- Strings.ToLower: only `A`-`Z` are folded. Unicode case mapping, including multi-character expansions, is not modelled.
- Strings.RemoveAll: the function's own contract states only a length bound, to keep its proof cheap. Its meaning is carried by RemoveAllAbsent, RemoveAllAtFirstOccurrence, RemoveAllLeading and RemoveAllIsSinglePass.
- Pipeline.Respond: the instruction text is a parameter; the app passes `Pipeline.Instructions`.
- Label stripping runs after de-duplication, so it can bring back a duplicate line: `"ANSWER: A\nA"` becomes `"A\nA"`. The model reproduces this and does not claim that the final answer is free of duplicates.
