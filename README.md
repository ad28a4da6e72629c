# Exam paper viewer: text rendering and subject resolution

This project models, in Dafny, the pure logic of an exam-paper reader. The
backend asks a vision model to transcribe a photographed paper. The web
front end then shows each question. Five parts are modelled:

- **The inline math renderer** (`MathRenderer.tsx`). A raw value is
  normalized in three replace steps:
  - a doubled backslash becomes one backslash;
  - a run of line feeds becomes one space;
  - a run of two or more whitespace characters becomes one space.

  The `splitMixed` loop then cuts the text into runs of "math characters"
  and runs of other characters. Each run is labelled math or text by the
  `isMath` test.
- **The English question card** (`EnglishQuestionCard.tsx`):
  - which options are drawn as selected, and the subject sent with an
    explanation request;
  - the explanation block: blank lines dropped, section headers
    recognised, and the active section carried through the lines;
  - keyword lines matched against the pattern
    `^(\s*[-•]?\s*)([^:：]+)([:：]\s*)(.*)$`;
  - the backtick and quote highlighting of `highlightInline`.
- **The paper page** (`PaperView.tsx`): the subject label and the question
  count.
- **The extraction endpoint** (`extract.py`): how the `"auto"` subject is
  resolved from the model's one-word answer, and which prompt is then
  used.
- **JavaScript string behaviour** (module `Strings`): the `\s` whitespace
  class, `trim`, `trimStart`, `trimEnd`, `split` on one character,
  `join`, and ASCII `toLowerCase`.

Modules and files:

| module | file | form |
|---|---|---|
| Strings | `strings.dfy` | functions and lemmas |
| MathRenderer | `math_renderer.dfy` | functions, lemmas, and methods, one with a loop |
| EnglishQuestionCard | `english_question_card.dfy` | functions, lemmas, and methods, three with loops |
| PaperView | `paper_view.dfy` | functions and lemmas |
| Extract | `extract.dfy` | functions and lemmas |

Four loops that update local variables step by step are Dafny methods
with `for` or `while` loops:

- `splitMixed`'s character loop (`MathRenderer.SplitMixed`). It is proved
  to produce the run split the predicate `IsRunSplit` describes, and
  `RunSplitUnique` shows that this split is unique.
- The `parts.forEach` loop of `highlightInline`
  (`EnglishQuestionCard.HighlightInline`), proved equal to the function
  `Highlight`.
- The `regex.exec` loop inside it (`EnglishQuestionCard.HighlightQuotes`),
  proved equal to the function `QuoteScan`.
- The explanation `map` that carries `activeSection` from line to line
  (`EnglishQuestionCard.RenderExplanation`), proved equal line by line to
  the function `LineViewAt`.

The other iterations in the source are modelled in three ways:

- as recursive functions: the `filter` of blank lines, `find` over the
  section titles, the global `replace` calls of normalization and of
  `**` removal, `split` and `trim`;
- as a quantifier: `some` over the section titles (`IsSectionTitle`);
- as a sequence comprehension: `parts.map` in the renderer (`Render`).

Some results the proofs establish about the source:

- **`splitMixed` cuts its input into maximal runs.** The concatenated
  parts give back the input, every part is non-empty and of one class,
  and neighbouring parts differ in class. `RunSplitUnique` shows that
  this split is the only one with those properties.
- **The backslash-command alternative of `isMath` never fires on a
  part.** An ASCII letter is not a math character, so `\frac` is cut into
  the run `\` and the run `frac`. A part is therefore labelled math
  exactly when it is a math run that holds a digit or one of
  `^ = × ÷ * /` (`RunLabel`). In particular a lone `\` before a command
  name is shown as text.
- **The keyword pattern, by backtracking semantics.** The matched prefix
  is the longest bullet-shaped prefix that still leaves at least one term
  character before the first colon. `.` does not match a line
  terminator, so the pattern also fails when the text after the colon
  and its whitespace holds `\r`, U+2028 or U+2029.

The code has these properties, and the model follows it:

- `MathRenderer.tsx` has no `$`-delimited splitter and no `\frac 1 2`
  repair.
- ASCII letters never continue a math run.
- Line feeds are collapsed first, then runs of two or more whitespace
  characters. A lone tab or other single whitespace character is kept.
- A section header needs the full-width colon `：`. A line such as
  `正确答案: A`, with an ASCII colon, is not a header.
- Non-header lines are not grouped into section lists. Each line is
  rendered on its own, according to the section active at that point.

## Model

| member | source | states |
|---|---|---|
| Strings.LeadingSpacesSpec | frontend/src/components/EnglishQuestionCard.tsx:51 | the whitespace `trim` removes at the front is all `\s` characters, and it stops at the first other character |
| Strings.TrimEndSpec | frontend/src/components/EnglishQuestionCard.tsx:51 | `trimEnd` leaves a prefix that does not end in whitespace, and everything it removes is whitespace |
| Strings.TrimEmptyIffAllSpace | frontend/src/components/EnglishQuestionCard.tsx:47 | `line.trim()` is empty exactly when every character of the line is whitespace |
| Strings.TrimStart | frontend/src/components/EnglishQuestionCard.tsx:51 | `trimStart`: drops the leading whitespace and never lengthens the string; what it drops is described by `LeadingSpacesSpec` |
| Strings.Trim | frontend/src/components/EnglishQuestionCard.tsx:47 | `trim`: `trimEnd` after `trimStart`; `TrimEmptyIffAllSpace` says when it is empty |
| Strings.Lower | frontend/src/pages/PaperView.tsx:34 | lower-casing keeps the length and maps every character through ASCII lower-casing |
| Strings.LowerOfNoCapitals | frontend/src/pages/PaperView.tsx:34 | a string with no ASCII capital is unchanged by `toLowerCase` |
| Strings.IndexOf | frontend/src/components/EnglishQuestionCard.tsx:47 | the index found holds the separator and no earlier index does; `None` only when the separator is absent |
| Strings.Split | frontend/src/components/EnglishQuestionCard.tsx:47 | `split` on one character: always at least one piece, cutting at every separator; `JoinSplit` and `SplitPiecesLackSeparator` pin the pieces down |
| Strings.SplitPiecesLackSeparator | frontend/src/components/EnglishQuestionCard.tsx:47 | no piece of `split(sep)` contains the separator |
| Strings.JoinSplit | frontend/src/components/EnglishQuestionCard.tsx:63 | joining the pieces of a split with the same separator gives the string back |
| Strings.FlattenSplit | frontend/src/components/EnglishQuestionCard.tsx:63 | concatenating the pieces of a split gives the string with every separator removed |
| Strings.Without | frontend/src/components/EnglishQuestionCard.tsx:63 | the string with one character deleted everywhere: the result lacks it and is no longer than the input |
| MathRenderer.CollapseBackslashes | frontend/src/components/MathRenderer.tsx:19 | step 1 never lengthens the string and keeps a first character that is not a backslash |
| MathRenderer.BackslashRun | frontend/src/components/MathRenderer.tsx:19 | a maximal run of n backslashes comes out as ceil(n/2) backslashes, and the text after it is collapsed on its own |
| MathRenderer.CollapseBackslashesOther | frontend/src/components/MathRenderer.tsx:19 | step 1 passes any character other than a backslash through unchanged |
| MathRenderer.CollapseNewlines | frontend/src/components/MathRenderer.tsx:22 | step 2 never lengthens the string, no line feed is left, and every character is a space or comes from the input; what happens to each run is in `NewlineRun` and `CollapseNewlinesOther` |
| MathRenderer.NewlineRun | frontend/src/components/MathRenderer.tsx:22 | a maximal run of one or more line feeds becomes exactly one space, and the text after it is collapsed on its own |
| MathRenderer.CollapseNewlinesOther | frontend/src/components/MathRenderer.tsx:22 | step 2 passes any character other than a line feed through unchanged |
| MathRenderer.CollapseSpaceRuns | frontend/src/components/MathRenderer.tsx:25 | after step 3 no two whitespace characters are adjacent; the result is empty only for empty input; every character is a space or comes from the input; what happens to each run is in `SpaceRun` and `CollapseSpaceRunsOther` |
| MathRenderer.SpaceRun | frontend/src/components/MathRenderer.tsx:25 | a maximal whitespace run of two or more characters becomes one space, a lone whitespace character is kept, and the text after it is collapsed on its own |
| MathRenderer.CollapseSpaceRunsOther | frontend/src/components/MathRenderer.tsx:25 | step 3 passes any non-whitespace character through unchanged |
| MathRenderer.Normalize | frontend/src/components/MathRenderer.tsx:15-28 | the normalized text has no line feed and no two adjacent whitespace characters |
| MathRenderer.NormalizeKeepsGlyphs | frontend/src/components/MathRenderer.tsx:15-28 | normalization keeps every character that is neither whitespace nor a backslash, in order |
| MathRenderer.SplitMixed | frontend/src/components/MathRenderer.tsx:38-65 | the parts concatenate to the input, each part is non-empty and of one class, and neighbouring parts differ in class |
| MathRenderer.RunSplitUnique | frontend/src/components/MathRenderer.tsx:38-65 | at most one sequence of parts cuts a string into alternating single-class runs, so the split is determined by the input |
| MathRenderer.SingleRunSplit | frontend/src/components/MathRenderer.tsx:38-65 | a string whose characters are all of one class is split into exactly one part, itself |
| MathRenderer.IsMathChar | frontend/src/components/MathRenderer.tsx:45 | the character class `[\\\d^_=×÷*/(){}.+-]` that decides which run a character joins |
| MathRenderer.IsMath | frontend/src/components/MathRenderer.tsx:33-35 | the `isMath` test: some character is a digit or one of `^ = × ÷ * /`, or a backslash is followed by an ASCII letter |
| MathRenderer.Label | frontend/src/components/MathRenderer.tsx:67-80 | each part becomes one node with the part's text, and it is a math node exactly when `isMath` accepts the part |
| MathRenderer.RawText | frontend/src/components/MathRenderer.tsx:12 | the string the component works on: the value itself for a string, the text `String(value)` gives otherwise |
| MathRenderer.RunLabel | frontend/src/components/MathRenderer.tsx:33-35 | on a run, `isMath` holds exactly when the run is a math run containing a digit or one of `^ = × ÷ * /` |
| MathRenderer.Render | frontend/src/components/MathRenderer.tsx:9-80 | null and undefined render nothing; otherwise the nodes spell the normalized text, each is a single-class run labelled math exactly as `RunLabel` says, and neighbours alternate |
| EnglishQuestionCard.CheckedOptions | frontend/src/components/EnglishQuestionCard.tsx:35-45 | a non-empty marked list wins; else a non-empty final answer alone; else nothing |
| EnglishQuestionCard.FinalAnswer | frontend/src/components/EnglishQuestionCard.tsx:36-39 | the answer string when the student answer is a string, else its `final` field, else nothing |
| EnglishQuestionCard.IsSelected | frontend/src/components/EnglishQuestionCard.tsx:158 | an option is selected when its key or its text is in `checkedOptions` |
| EnglishQuestionCard.SelectedOptions | frontend/src/components/EnglishQuestionCard.tsx:158 | an option is drawn as selected exactly when its key or text is in the marked list or, with no marks, equals the non-empty final answer |
| EnglishQuestionCard.ApiSubject | frontend/src/components/EnglishQuestionCard.tsx:16-18 | the request subject is "english" exactly for a subject lower-casing to "english" or equal to 英语, else "math" |
| EnglishQuestionCard.ApiSubjectAgreesWithLabel | frontend/src/components/EnglishQuestionCard.tsx:16-18 | the card asks for English exactly when the paper page labels the same subject 英语 |
| EnglishQuestionCard.NonBlankKeeps | frontend/src/components/EnglishQuestionCard.tsx:47 | the filter keeps every piece whose trim is non-empty and only such pieces |
| EnglishQuestionCard.NonBlankConcat | frontend/src/components/EnglishQuestionCard.tsx:47 | filtering distributes over concatenation, so kept lines stay in their original order |
| EnglishQuestionCard.ExplainLines | frontend/src/components/EnglishQuestionCard.tsx:47 | `explain.split('\n')` with every blank line dropped; `ExplainLinesAreTextLines` states what it keeps |
| EnglishQuestionCard.ExplainLinesAreTextLines | frontend/src/components/EnglishQuestionCard.tsx:47 | every explanation line is a line of the text with no line feed and a non-whitespace character, and every such line is kept |
| EnglishQuestionCard.StripBold | frontend/src/components/EnglishQuestionCard.tsx:51 | after removing `**` pairs no two stars are adjacent, and a first character that is not a star stays first |
| EnglishQuestionCard.StripBoldRemovesOnlyStars | frontend/src/components/EnglishQuestionCard.tsx:51 | removing `**` pairs changes nothing but stars |
| EnglishQuestionCard.StarRun | frontend/src/components/EnglishQuestionCard.tsx:51 | a maximal run of n stars keeps n mod 2 stars, so a lone star is kept, and the text after it is stripped on its own |
| EnglishQuestionCard.StripBoldOther | frontend/src/components/EnglishQuestionCard.tsx:51 | a character other than a star, or a star not followed by another, is kept |
| EnglishQuestionCard.HeaderText | frontend/src/components/EnglishQuestionCard.tsx:51 | the line with `**` removed and then trimmed, which the header tests look at |
| EnglishQuestionCard.FindTitle | frontend/src/components/EnglishQuestionCard.tsx:55-57 | `find` returns a listed title that opens the text, and returns nothing exactly when no title does |
| EnglishQuestionCard.SectionName | frontend/src/components/EnglishQuestionCard.tsx:53-59 | a section name is one of the five titles, and the stripped, trimmed line starts with it and a full-width colon |
| EnglishQuestionCard.IsSectionTitle | frontend/src/components/EnglishQuestionCard.tsx:49-52 | `isSectionTitle`: some listed title followed by a full-width colon opens the header text |
| EnglishQuestionCard.SectionNameOfHeader | frontend/src/components/EnglishQuestionCard.tsx:48-59 | `isSectionTitle` holds exactly when `getSectionName` names a section, and the name is the title the line opens with |
| EnglishQuestionCard.LatestTitleIsLatest | frontend/src/components/EnglishQuestionCard.tsx:244-247 | the carried section is nothing before the first header, and otherwise the name of a header with no header after it |
| EnglishQuestionCard.LatestTitleOfLastName | frontend/src/components/EnglishQuestionCard.tsx:244-247 | a header with no header after it up to line k is the section in force at line k |
| EnglishQuestionCard.ActiveSection | frontend/src/components/EnglishQuestionCard.tsx:112 | the section in force is always one of the five titles |
| EnglishQuestionCard.LineViewAt | frontend/src/components/EnglishQuestionCard.tsx:244-261 | the view of line k: a header verbatim, the keyword view while 关键词汇 is in force, otherwise the highlight of the line without `**` |
| EnglishQuestionCard.KeywordLinesFollowKeywordHeader | frontend/src/components/EnglishQuestionCard.tsx:244-261 | a line gets keyword rendering exactly when it is not a header and the latest header before it is 关键词汇 |
| EnglishQuestionCard.RenderExplanation | frontend/src/components/EnglishQuestionCard.tsx:244-271 | the loop emits one view per explanation line, and each is that line's view under the section in force at it |
| EnglishQuestionCard.NextQuote | frontend/src/components/EnglishQuestionCard.tsx:73 | the index found holds a quote character and no quote lies between the start and it |
| EnglishQuestionCard.FindQuoted | frontend/src/components/EnglishQuestionCard.tsx:76 | one `regex.exec` from `lastIndex`: the match found starts at or after it and spans at least three characters; `FindQuotedMatches` and `FindQuotedIsLeftmost` pin it down |
| EnglishQuestionCard.FindQuotedMatches | frontend/src/components/EnglishQuestionCard.tsx:73-76 | what `exec` finds is a quote, one or more non-quote characters, and a quote |
| EnglishQuestionCard.FindQuotedIsLeftmost | frontend/src/components/EnglishQuestionCard.tsx:73-76 | `exec` misses no match: it finds one whenever a match starts at or after `lastIndex`, and none starting later than it |
| EnglishQuestionCard.Gap | frontend/src/components/EnglishQuestionCard.tsx:79-81 | the text before a match is shown exactly, as one plain segment when non-empty |
| EnglishQuestionCard.Quoted | frontend/src/components/EnglishQuestionCard.tsx:82-88 | a match is shown as its opening quote, highlighted word and closing quote, which together spell the match |
| EnglishQuestionCard.Rest | frontend/src/components/EnglishQuestionCard.tsx:91-93 | the text after the last match is shown exactly |
| EnglishQuestionCard.QuoteScanBracketed | frontend/src/components/EnglishQuestionCard.tsx:76-90 | every highlighted word is non-empty, holds no quote, and stands between the two quote characters it matched with |
| EnglishQuestionCard.QuotedWordMarked | frontend/src/components/EnglishQuestionCard.tsx:76-89 | the word inside a match `exec` finds is emitted as a highlighted segment |
| EnglishQuestionCard.ScanGoesOn | frontend/src/components/EnglishQuestionCard.tsx:76-89 | the scan goes on from the end of a match: everything the scan from there emits is emitted too, so every later match is highlighted as well |
| EnglishQuestionCard.QuoteScanShowsPart | frontend/src/components/EnglishQuestionCard.tsx:76-93 | the segments of one piece spell the piece exactly |
| EnglishQuestionCard.QuoteScan | frontend/src/components/EnglishQuestionCard.tsx:76-93 | the segments of one even piece: the gap, the quoted match and the scan after it, or the rest when no match is left |
| EnglishQuestionCard.HighlightQuotes | frontend/src/components/EnglishQuestionCard.tsx:73-93 | the `exec` loop emits the segments of the scan from index 0 |
| EnglishQuestionCard.PieceSegments | frontend/src/components/EnglishQuestionCard.tsx:64-72 | each backtick piece's segments spell the piece |
| EnglishQuestionCard.Highlight | frontend/src/components/EnglishQuestionCard.tsx:61-96 | `highlightInline` as a value: the segments of every backtick piece in order |
| EnglishQuestionCard.HighlightShowsLineWithoutBackticks | frontend/src/components/EnglishQuestionCard.tsx:61-96 | highlighting shows the line with its backticks removed and nothing else changed |
| EnglishQuestionCard.OddPiecesMarked | frontend/src/components/EnglishQuestionCard.tsx:63-71 | every piece between a pair of backticks (odd index) is emitted highlighted whole |
| EnglishQuestionCard.EvenPiecesScanned | frontend/src/components/EnglishQuestionCard.tsx:72-93 | every segment the quote scan emits for a piece outside backticks (even index), highlighted words included, is in the line's highlight |
| EnglishQuestionCard.HighlightInline | frontend/src/components/EnglishQuestionCard.tsx:61-96 | the loop over backtick pieces emits the highlight of the line, which spells the line without backticks; by `OddPiecesMarked` every piece between backticks is highlighted whole, and by `EvenPiecesScanned` with `QuotedWordMarked` and `ScanGoesOn` every quoted word a scan finds is highlighted |
| EnglishQuestionCard.GreedyPrefixIsLongest | frontend/src/components/EnglishQuestionCard.tsx:99 | a prefix of the line matches `\s*[-•]?\s*` exactly when it is no longer than the greedy match |
| EnglishQuestionCard.FirstColonSpec | frontend/src/components/EnglishQuestionCard.tsx:99 | the colon found is the first ASCII or full-width colon, and none is found only when there is none |
| EnglishQuestionCard.MatchKeyword | frontend/src/components/EnglishQuestionCard.tsx:99-100 | the match of the keyword pattern: none without a colon, with the colon first, or with a line terminator in the rest; else the groups at the first colon |
| EnglishQuestionCard.PartsAt | frontend/src/components/EnglishQuestionCard.tsx:99-101 | the four groups cut at the first colon: the longest prefix that leaves a term, the term, the colon with its whitespace, and the rest |
| EnglishQuestionCard.MatchKeywordFails | frontend/src/components/EnglishQuestionCard.tsx:99-100 | the pattern fails exactly when the line has no colon, starts with one, or has a line terminator after the first colon and its whitespace |
| EnglishQuestionCard.MatchKeywordGroups | frontend/src/components/EnglishQuestionCard.tsx:99-101 | the four groups rebuild the line; the term is non-empty and colon-free; the separator is the colon with all whitespace after it; the rest starts with a non-space and has no line terminator |
| EnglishQuestionCard.MatchKeywordPrefix | frontend/src/components/EnglishQuestionCard.tsx:99-101 | the prefix group is the longest bullet-shaped prefix that leaves a non-empty term |
| EnglishQuestionCard.RenderKeywordLine | frontend/src/components/EnglishQuestionCard.tsx:98-110 | an unmatched line is shown unchanged, else the prefix, trimmed term, separator and highlighted rest |
| PaperView.SubjectLabel | frontend/src/pages/PaperView.tsx:32-39 | 数学 for empty, "math" in any ASCII case or 数学; 英语 for "english" in any case or 英语; 自动 for "auto" in any case; any other value as it is |
| PaperView.SubjectLabelIdempotent | frontend/src/pages/PaperView.tsx:32-39 | labelling a label changes nothing |
| PaperView.QuestionCount | frontend/src/pages/PaperView.tsx:64 | the count is the number of questions, and 0 when the paper or its question list is missing |
| PaperView.ShownSubject | frontend/src/pages/PaperView.tsx:65 | the paper's own subject when it is a non-empty string, else the subject chosen on the page |
| Extract.DetectionQuery | backend/app/extract.py:21-23 | a detection question is sent exactly for "auto", and it is the fixed one-word classification prompt |
| Extract.ResolveSubject | backend/app/extract.py:21-29 | "auto" becomes "math" when the reply holds 数, else "english" when it holds 英, else "math"; any other request is kept as it is |
| Extract.ChoosePrompt | backend/app/extract.py:31 | the math prompt is chosen exactly when the subject is "math" |
| Extract.PromptFor | backend/app/extract.py:21-31 | the prompt used for a request and a detection reply: the one chosen for the resolved subject |
| Extract.AutoResolvesToKnownSubject | backend/app/extract.py:21-31 | automatic detection always gives one of the two subjects, and English exactly when the reply names 英 but not 数 |
| Extract.ExplicitRequestIgnoresReply | backend/app/extract.py:21-31 | a request other than "auto" sends no detection question, and its prompt does not depend on any reply |

## Left out

- Rendering itself is not modelled:
  - React elements, keys and class names, and the antd components;
  - the KaTeX typesetting and its `try`/`catch` fallback.

  A node is modelled as its kind and its text.
- `String(value)` for a non-string value is a parameter: `Prop.Other`
  carries the text it gives.
- Network and async calls are not modelled: `explainQuestion`,
  `extractExam`, `call_model`, the `loading` state, and the rest of
  `onExplain` and `onParse`.
  - The vision model's reply to the detection question is a parameter of
    `Extract.ResolveSubject`.
  - Image compression, base64 encoding, prompt-file loading and the JSON
    parse of the extraction output (with its `raw_output` fallback) are
    not modelled.
- The command-line duplicate of the extraction logic in `extract_exam.py`
  is not modelled. It repeats the subject resolution of `extract.py`.
- Lower, LowerChar: `toLowerCase` is modelled on ASCII letters only, and
  the Unicode case mappings of other characters are not modelled. Only
  two non-ASCII characters lower-case to something containing an ASCII
  letter:
  - U+212A KELVIN SIGN becomes `k`;
  - U+0130 becomes `i` followed by U+0307, which adds a character.

  None of "math", "english" or "auto" contains `k`, and U+0307 cannot
  occur in them. So a lower-cased value equals one of these words exactly
  when its ASCII lower-casing does, and the comparisons in `SubjectLabel`
  and `ApiSubject` come out as in the code.
- Strings are sequences of characters, not UTF-16 code units. Characters
  outside the Basic Multilingual Plane do not occur in the patterns.
- The remaining parts of the card and the page are not modelled: the
  stem, the option list layout, the student-answer and teacher-feedback
  blocks, and the upload widget. They only display fields.
