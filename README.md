# TLDRize, modelled in Dafny

TLDRize has two parts. The first is a browser extension that summarises the page in front of the reader with a
language model, answers questions about it, suggests tags, and highlights the page's key
sentences. The second is a small web app that stores the summaries the reader saves. This project
models the logic of both parts and proves what it promises:

- **Content script** (`content.dfy`, module `ContentScript`, over the tree model in `dom.dfy`,
  module `Dom`):
  - it extracts the article text;
  - it removes the previous `mark.ai-highlight` elements;
  - for each candidate sentence, it walks the text nodes in document order and replaces the
    first text node containing the sentence by `text(parts[0])`, a mark holding the sentence,
    and `text(parts[1])`, where `parts` is the text's `split(sentence)`;
  - the page is a `Page` object whose `body` tree the handler methods replace step by step.
- **Language-model hook** (`gemini.dfy`, module `Gemini`):
  - truncation of the article to 20000 or 15000 characters plus `"..."`;
  - the four summary prompts, the question, tag and highlight prompts;
  - reading the reply text, with its `'No response available.'` fallback;
  - the comma and pipe parsers;
  - the `loading` / `error` / `summary` / `answer` / `tags` state, as the class `Gemini`.
- **Popup** (`popup.dfy`, module `Popup`):
  - the reading-time estimate `⌈words / 200⌉`;
  - the `savedTime` total;
  - the guards and effects of the summarise, highlight, ask and save handlers, as the class
    `PopupState`.
- **Summaries route** (`summaries.dfy`, module `SummariesApi`):
  - `POST` validates the body, using JavaScript truthiness for absent and empty fields, and
    fills in the defaults of `type` and `tags`;
  - `GET` lists the stored summaries newest first.
- **String operations** (`jsstring.dfy`, module `JsString`): the JavaScript string operations
  the code relies on, namely `indexOf`/`includes`, `split` with a string separator, `split(/\s+/)`,
  `trim`, `join`, `map(trim)` and `filter`. `common.dfy` holds `Option` and `Result`.

Three consequences of the highlighting code are modelled as it behaves:

- Highlighting puts back only `parts[0]` and `parts[1]`. A sentence that occurs twice in the
  text node it lands in therefore loses text (`ContentScript.HighlightLosesText`). Text is
  kept only when the sentence occurs once (`ContentScript.HighlightKeepsText`).
- The prefix and suffix text nodes are always inserted, even when they are empty.
- Marks are not skipped by the walk. Highlighting a sentence again finds the text inside the
  new mark first and nests a second mark there, between two empty text nodes
  (`ContentScript.HighlightTwiceNests`).

The language-model service:

- It is a parameter, `Service = (Prompt, string) -> ApiOutcome`.
- `Prompt` records the kind of request and the truncated article, and `PromptText` gives the
  exact text sent.
- For summaries the text determines the request: equal summary texts mean the same style
  and the same article (`SummaryPromptDetermines`). For questions this holds only among
  questions of the same length (`QuestionPromptDetermines`); a question containing the frame's
  own closing text can give the same text as a different question and article
  (`QuestionTextAmbiguous`).
- `Service` is therefore more general than a service that sees only the text: every
  text-only service is one of these functions, but a `Service` may also answer two requests
  with the same text differently.

Other external inputs are parameters too:

- the store's verdict on a record (`stores`);
- the web app's HTTP status for the save request (`send`);
- the layout-dependent `innerText` of an element (`InnerText`).

## Model

| member | source | states |
|---|---|---|
| Dom.NewMark | extension/src/content.ts:45-49 | the new element is a `mark.ai-highlight` whose only child is the text of the sentence |
| Dom.MarkedRun | extension/src/content.ts:51-57 | the three inserted nodes carry the text `parts[0] + sentence + parts[1]` and exactly one mark |
| Dom.Splice | extension/src/content.ts:54-57 | replacing a node by a run of siblings keeps the root element's tag, classes and style |
| Dom.SpliceAt | extension/src/content.ts:54-56 | after the splice the `j`-th node of the run sits at the replaced node's position plus `j` |
| Dom.SpliceElsewhere | extension/src/content.ts:54-57 | every node outside the replaced node's parent, and every earlier sibling, is untouched |
| Dom.SpliceShifts | extension/src/content.ts:54-57 | later siblings and their descendants move along by the run's length less one |
| Dom.SpliceText | extension/src/content.ts:54-57 | the page text grows by the run's text less the replaced node's, and is unchanged when the two texts are equal |
| Dom.SpliceMarkCount | extension/src/content.ts:54-57 | the mark count changes by the run's marks less the replaced node's marks |
| Dom.SpliceTextKeepsMarks | extension/src/content.ts:30 | replacing a node by one text node creates no mark: every mark of the new tree was one of the old tree, at the same path, and not the replaced node |
| Dom.AllPathsComplete | extension/src/content.ts:41-43 | the pre-order walk lists every node of the tree |
| Dom.ChildPathsContain | extension/src/content.ts:41-43 | the walk of a child list lists every node under each child |
| Dom.Matching | extension/src/content.ts:12 | `querySelectorAll` lists exactly the nodes the selector matches, in document order and none twice, and nothing when none does |
| Dom.MatchingFirst | extension/src/content.ts:8 | the first listed match comes before every other match in document order, and it is the only match that does |
| Dom.AllPaths | extension/src/content.ts:41-43 | the pre-order walk starts at the root and lists paths in strict document order, so none twice |
| Dom.InOrderUnique | extension/src/content.ts:12 | two lists in document order holding the same paths are the same list |
| Dom.Unmark | extension/src/content.ts:27-32 | replacing every mark by a text node of its `textContent` keeps the page text and leaves no mark |
| Dom.UnmarkLeavesNoMark | extension/src/content.ts:27-32 | no `mark.ai-highlight` remains after unmarking |
| Dom.UnmarkFixed | extension/src/content.ts:27-32 | a tree without marks is its own unmarking |
| Dom.SpliceUnmark | extension/src/content.ts:30 | replacing a subtree by one with the same text and the same unmarking keeps the whole tree's unmarking |
| Dom.ReplaceChild | extension/src/content.ts:30 | `replaceChild` by a node with the same text and unmarking keeps the child list's text and unmarking |
| ContentScript.ArticleWins | extension/src/content.ts:8-9 | with an `<article>` on the page, the result is the `innerText` of the first article in document order, and the paragraphs play no part |
| ContentScript.GetArticleText | extension/src/content.ts:7-14 | the result is the `innerText` of the article that comes before every other article in document order |
| ContentScript.ParagraphsCovered | extension/src/content.ts:12-13 | without an article, the text of every `<p>` occurs in the result |
| ContentScript.ParagraphsJoined | extension/src/content.ts:12-13 | without an article, the result is the `innerText` of every `<p>` in document order, joined by "\n\n" |
| ContentScript.OneParagraph | extension/src/content.ts:12-13 | a page whose only paragraph is at `p` yields exactly that paragraph's `innerText` |
| ContentScript.TwoParagraphs | extension/src/content.ts:12-13 | two paragraphs yield the earlier one's text, "\n\n", and the later one's text |
| ContentScript.NothingToRead | extension/src/content.ts:12-13 | with neither an article nor a paragraph, the result is "" |
| ContentScript.FirstHit | extension/src/content.ts:43-44 | the walk stops at the first listed position whose text node is non-empty and contains the sentence, with no hit before it; none means no hit at all |
| ContentScript.HitPath | extension/src/content.ts:41-44 | the chosen node is a hit, is the first listed hit, and comes before every other hit in document order; there is none exactly when no text node contains the sentence |
| ContentScript.Highlighted | extension/src/content.ts:45-56 | the run is `text(parts[0])`, the mark, `text(parts[1])`; `parts[0]` is the text before the leftmost occurrence, and `parts[1]` is the text from the end of that occurrence up to the next occurrence or the end of the text |
| ContentScript.HighlightedMarkCount | extension/src/content.ts:45-57 | the inserted run holds exactly one mark |
| ContentScript.HighlightOne | extension/src/content.ts:35-59 | the page changes exactly when the sentence has at least ten characters and some text node contains it (both directions) |
| ContentScript.HighlightOneMarks | extension/src/content.ts:36-59 | one sentence adds exactly one mark when it has at least ten characters and some text node contains it, and none otherwise |
| ContentScript.HighlightOnePlacement | extension/src/content.ts:45-59 | the first matching text node in document order becomes `text(parts[0])`, the mark, and `text(parts[1])`, where `parts[1]` is exactly the second piece of `split(sentence)` on the node's text (the piece after the first occurrence, up to the next occurrence or the end, as `SplitSecond` states); every node that is not an ancestor of the replaced text node, and is neither that node nor a later sibling of it nor inside one, is unchanged |
| ContentScript.HighlightOneShifts | extension/src/content.ts:53-56 | every later sibling of the replaced text node, with everything inside it, moves two places along the parent's child list: three nodes went in where one came out |
| ContentScript.HighlightTwiceNests | extension/src/content.ts:41-59 | the walk does not skip marks: highlighting the same sentence again finds the text inside the new mark first, and that mark then holds an empty text, a second mark and an empty text; two marks in all are added |
| ContentScript.SecondHitPath | extension/src/content.ts:41-44 | after one highlighting, the first hit for the same sentence is the text inside the new mark |
| ContentScript.NestInMark | extension/src/content.ts:45-57 | when that text is the first hit, the mark's children become an empty text, the inner mark and an empty text |
| ContentScript.HighlightOneAdds | extension/src/content.ts:36-59 | a long enough sentence with a hit adds exactly one mark |
| ContentScript.MarkIsHit | extension/src/content.ts:44-49 | the text inside a new mark is a hit for its own sentence |
| ContentScript.HighlightKeepsText | extension/src/content.ts:51-57 | when the sentence occurs exactly once in the matched node, the page text is unchanged |
| ContentScript.HighlightLosesText | extension/src/content.ts:51-57 | when it occurs twice without overlap, the page loses at least one sentence's worth of text |
| ContentScript.HighlightAll | extension/src/content.ts:35-62 | the sentence loop adds at most one mark per sentence and keeps the root element's tag, classes and style |
| ContentScript.HighlightRequestMarks | extension/src/content.ts:27-62 | after a highlight request the page holds at most one mark per sentence |
| ContentScript.HighlightMarks | extension/src/content.ts:27 | every highlight mark of the page is in the list the reset walks |
| ContentScript.UnmarkStep | extension/src/content.ts:28-31 | replacing one listed mark by a text node of its text keeps the body, its unmarking, and leaves no mark outside the rest of the list |
| ContentScript.Page.constructor | extension/src/content.ts:41 | the page holds the given `<body>` |
| ContentScript.ResetStep | extension/src/content.ts:28-31 | one turn of the reset loop: when the listed path still holds a mark, replacing it by a text node of its text keeps the body and its unmarking and leaves every mark among the later listed paths; when it no longer holds one, every mark is already among the later paths |
| ContentScript.Page.ResetHighlights | extension/src/content.ts:27-32 | the loop over the marks leaves exactly the unmarking of the old body |
| ContentScript.Page.HighlightSentence | extension/src/content.ts:36-61 | the walk with its `break` leaves exactly the one-sentence highlight of the old body |
| ContentScript.Page.HighlightText | extension/src/content.ts:24-62 | reset, then every sentence in order: the body becomes the sentence loop applied to the unmarked old body |
| ContentScript.Page.OnMessage | extension/src/content.ts:17-66 | `GET_ARTICLE_TEXT` answers the extracted text and keeps the page; `HIGHLIGHT_TEXT` resets, highlights and answers `success`, but after the reset fails with no answer when the sentences are missing; other messages change nothing |
| JsString.IndexOf | extension/src/content.ts:44 | the leftmost occurrence, with none before it; none when the pattern does not occur |
| JsString.Includes | extension/src/content.ts:44 | `includes` holds exactly when the pattern occurs somewhere |
| JsString.Split | extension/src/content.ts:51 | `split` always yields at least one piece |
| JsString.SplitThenJoin | extension/src/content.ts:51 | joining the pieces of a split with the separator gives the string back |
| JsString.SplitPiecesFree | extension/src/hooks/useGemini.ts:143 | no piece of a split contains the separator |
| JsString.SplitCharCount | extension/src/hooks/useGemini.ts:143 | with a one-character separator there is one piece more than occurrences of the character |
| JsString.JoinThenSplit | extension/src/hooks/useGemini.ts:160 | pieces free of the separator character, joined with it, split back into themselves |
| JsString.SplitFirstTwo | extension/src/content.ts:51-56 | `parts[0]` is the text before the leftmost occurrence, and `parts[0] + sep + parts[1]` is a prefix of the text |
| JsString.SplitSecond | extension/src/content.ts:51-56 | `parts[1]` runs from the end of the leftmost occurrence to the next occurrence, or to the end of the text when there is none |
| JsString.SplitUnique | extension/src/content.ts:51-56 | when the separator occurs once, the split is exactly the two pieces around it, which rebuild the text |
| JsString.SplitTwice | extension/src/content.ts:51-56 | two non-overlapping occurrences give a third piece, and the first two pieces around the separator fall at least one separator short |
| JsString.JoinEnds | extension/src/content.ts:13 | a join starts with its first element and ends with its last |
| JsString.JoinAppend | extension/src/content.ts:13 | joining one more element appends the separator and the element |
| JsString.JoinContains | extension/src/content.ts:13 | every element occurs in the join |
| JsString.TrimStart | extension/src/hooks/useGemini.ts:143 | the result is a suffix of the input that does not start with white space |
| JsString.TrimEnd | extension/src/hooks/useGemini.ts:143 | the result is a prefix of the input that does not end with white space |
| JsString.TrimStartCut | extension/src/hooks/useGemini.ts:143 | what `trimStart` drops is all white space |
| JsString.TrimEndCut | extension/src/hooks/useGemini.ts:143 | what `trimEnd` drops is all white space |
| JsString.Trim | extension/src/hooks/useGemini.ts:143 | the result neither starts nor ends with white space |
| JsString.TrimTrimmed | extension/src/hooks/useGemini.ts:143 | trimming a trimmed string changes nothing (so trimming is idempotent) |
| JsString.TrimKeepsOut | extension/src/hooks/useGemini.ts:143 | whatever occurs in the trimmed string occurs in the string |
| JsString.TrimLeadingSpace | extension/src/hooks/useGemini.ts:143 | the space after a comma in `"a, b"` is trimmed away |
| JsString.TrimEmpty | extension/src/App.tsx:105 | `trim` gives "" exactly for the strings made only of white space |
| JsString.IndexOfSpace | extension/src/App.tsx:72 | the first white-space character, with none before it; none when there is none |
| JsString.SplitWs | extension/src/App.tsx:72 | `split(/\s+/)` always yields at least one piece |
| JsString.SplitWsNoSpace | extension/src/App.tsx:72 | no piece of `split(/\s+/)` holds white space |
| JsString.SplitWsConcat | extension/src/App.tsx:72 | together the pieces hold exactly the non-space characters of the input, in order |
| JsString.SplitWsNonEmpty | extension/src/App.tsx:72 | on trimmed non-empty text every piece is non-empty |
| JsString.SplitWsJoin | extension/src/App.tsx:72 | words joined by single spaces split back into exactly those words |
| JsString.SplitWsGap | extension/src/App.tsx:72 | a word, any non-empty run of white space, and a text not starting with white space split into the word and the pieces of the text, so a multi-character gap such as "\n\n" cuts once |
| JsString.JoinWordsTrimmed | extension/src/App.tsx:72 | words joined by single spaces are already trimmed |
| JsString.TrimAllTrimmed | extension/src/hooks/useGemini.ts:143 | mapping `trim` over trimmed pieces changes nothing |
| JsString.KeepLonger | extension/src/hooks/useGemini.ts:160 | `filter(s => s.length > min)` keeps exactly the elements longer than `min`, in order |
| JsString.KeepLongerAll | extension/src/hooks/useGemini.ts:160 | the filter keeps everything when every element is long enough |
| JsString.KeepLongerCounts | extension/src/hooks/useGemini.ts:160 | the filter keeps every copy of a string longer than `min` and no copy of a shorter one |
| Gemini.Truncate | extension/src/hooks/useGemini.ts:84 | text within the limit is returned as is; longer text becomes its first `limit` characters and "...", of length limit + 3 |
| Gemini.TruncateIdempotent | extension/src/hooks/useGemini.ts:122 | truncating twice is truncating once |
| Gemini.TruncateFixed | extension/src/hooks/useGemini.ts:138 | truncation leaves exactly the texts within the limit, or already cut and ending in "...", unchanged |
| Gemini.TypeName | web/src/models/Summary.ts:7 | the style names are the four values of the stored `type` |
| Gemini.TypeNameInjective | extension/src/hooks/useGemini.ts:4 | two styles have the same name exactly when they are the same style |
| Gemini.FirstWordsDiffer | extension/src/hooks/useGemini.ts:88-99 | the four summary instructions differ in their first letter |
| Gemini.StyleInstruction | extension/src/hooks/useGemini.ts:88-99 | each style's instruction is non-empty and opens with its own first word's letter |
| Gemini.SummaryRequest | extension/src/hooks/useGemini.ts:84-100 | the summary request text is the style's instruction followed by the article, or by its first 20000 characters and "..." when it is longer |
| Gemini.QuestionRequest | extension/src/hooks/useGemini.ts:122-123 | the question request text is the quoted question in its fixed frame followed by the article, or by its first 20000 characters and "..." |
| Gemini.TagRequest | extension/src/hooks/useGemini.ts:138-139 | the tag request text is the fixed tag instruction followed by the article, or by its first 15000 characters and "..." |
| Gemini.HighlightRequest | extension/src/hooks/useGemini.ts:155-156 | the highlight request text is the fixed highlight instruction followed by the article, or by its first 15000 characters and "..." |
| Gemini.PromptText | extension/src/hooks/useGemini.ts:86-100 | every request text is longer than its article and ends with it: a non-empty instruction comes first |
| Gemini.RequestText | extension/src/hooks/useGemini.ts:84-86 | a request text is its instruction followed by the article, cut to the limit with "..." appended when it is longer |
| Gemini.SummaryPromptShape | extension/src/hooks/useGemini.ts:86-100 | a summary prompt is its style's instruction followed by the article |
| Gemini.SummaryPromptDetermines | extension/src/hooks/useGemini.ts:86-100 | equal summary prompt texts mean the same style and the same article |
| Gemini.QuestionPromptDetermines | extension/src/hooks/useGemini.ts:123 | equal question prompt texts with questions of equal length mean the same question and article |
| Gemini.QuestionTextAmbiguous | extension/src/hooks/useGemini.ts:123 | a question holding the frame's closing text `"\n\nArticle:\n` gives the same request text as its shorter start with a longer article, so the text does not determine the question |
| Gemini.QuestionParts | extension/src/hooks/useGemini.ts:123 | the question stands in quotes after the fixed lead, and the article follows the fixed tail |
| Gemini.SplitTrimKeep | extension/src/hooks/useGemini.ts:143 | every kept piece is longer than the minimum, trimmed, and free of the separator |
| Gemini.ParseTags | extension/src/hooks/useGemini.ts:143 | every tag is non-empty, trimmed and free of commas |
| Gemini.ParseHighlights | extension/src/hooks/useGemini.ts:160 | every sentence is longer than ten characters, trimmed and free of pipes |
| Gemini.ParsersKeepOrder | extension/src/hooks/useGemini.ts:143 | both parsers keep trimmed pieces of the split in their reply order |
| Gemini.ParseTagsCount | extension/src/hooks/useGemini.ts:143 | there are at most one more tag than commas |
| Gemini.ParseHighlightsCount | extension/src/hooks/useGemini.ts:160 | there are at most one more sentence than pipes |
| Gemini.JoinSpaced | extension/src/hooks/useGemini.ts:139 | a space before a join with "c " is the join with "c" of the spaced elements |
| Gemini.JoinSpaceAfter | extension/src/hooks/useGemini.ts:139 | joining with ", " is joining with "," after putting a space in front of every tag but the first |
| Gemini.ParseTagsRoundTrip | extension/src/hooks/useGemini.ts:139-143 | a reply written as the prompt asks ("Technology, AI, Future") parses back to exactly its tags |
| Gemini.TagReplyPieces | extension/src/hooks/useGemini.ts:143 | the comma pieces of such a reply are the tags with their leading spaces, and trim back to the tags |
| Gemini.SpacedTags | extension/src/hooks/useGemini.ts:143 | the spaced tags hold no comma and trim back to the tags |
| Gemini.ParseHighlightsRoundTrip | extension/src/hooks/useGemini.ts:156-160 | sentences longer than ten characters joined by the pipe character parse back to exactly those sentences |
| Gemini.FirstPartText | extension/src/hooks/useGemini.ts:67 | the optional chain yields the first part's text when every step is present, and nothing as soon as one is missing |
| Gemini.ResponseText | extension/src/hooks/useGemini.ts:67 | the reply text is never empty: the first part's text of the first candidate, or 'No response available.' |
| Gemini.SingleTextReads | extension/src/hooks/useGemini.ts:66-67 | a reply with a single non-empty text part reads as that text |
| Gemini.ResponseTextFirst | extension/src/hooks/useGemini.ts:67 | the first part of the first candidate wins whatever follows, and an empty text falls back like a missing one |
| Gemini.GeminiResponse | extension/src/hooks/useGemini.ts:36-72 | a reply gives its non-empty text; an error reply throws its `error.message`, or 'API request failed' when that is missing or empty; an exception is rethrown |
| Gemini.ErrorText | extension/src/hooks/useGemini.ts:106 | `err.message || fallback` is the message unless it is empty, and empty only when both are |
| Gemini.Settled | extension/src/hooks/useGemini.ts:102-108 | success stores the result with no error; failure stores no result and `err.message`, or the fallback when it is empty |
| Gemini.TagsFor | extension/src/hooks/useGemini.ts:135-149 | the tags produced are non-empty and trimmed |
| Gemini.HighlightsFor | extension/src/hooks/useGemini.ts:152-164 | the sentences produced are longer than ten characters, trimmed and free of pipes; none without a key |
| Gemini.ParsedReply | extension/src/hooks/useGemini.ts:142-143 | with a key, a single-text reply is parsed as tags or as highlight sentences |
| Gemini.TagsFromReply | extension/src/hooks/useGemini.ts:135-145 | a service answering as the tag prompt asks yields exactly those tags |
| Gemini.HighlightsFromReply | extension/src/hooks/useGemini.ts:152-160 | a service answering as the highlight prompt asks yields exactly those sentences |
| Gemini.JoinNonEmpty | extension/src/hooks/useGemini.ts:139 | a join starting with a non-empty element is non-empty |
| Gemini.Gemini.constructor | extension/src/hooks/useGemini.ts:21-28 | not loading, no error, summary or answer, no tags; the key is the configured one or "" |
| Gemini.Gemini.GenerateSummary | extension/src/hooks/useGemini.ts:74-110 | without a key only the error is set; otherwise loading ends false and the summary and error are the settled outcome of the service's answer |
| Gemini.Gemini.AskQuestion | extension/src/hooks/useGemini.ts:112-133 | the same protocol for the answer, with its own messages |
| Gemini.Gemini.GenerateTags | extension/src/hooks/useGemini.ts:135-150 | returns the parsed tags and stores them; no key or a failed call returns [] and leaves the stored tags |
| Gemini.Gemini.GenerateHighlights | extension/src/hooks/useGemini.ts:152-165 | returns the parsed sentences; [] without a key or on failure; every sentence passes the highlighter's length guard |
| Popup.WordCount | extension/src/App.tsx:72 | the word count is never zero |
| Popup.Minutes | extension/src/App.tsx:73 | the fewest whole minutes at 200 words a minute that cover the words |
| Popup.ReadingTime | extension/src/App.tsx:71-74 | the reading time is at least one minute for every text |
| Popup.MinutesMonotone | extension/src/App.tsx:73 | more words never take less time |
| Popup.ReadingTimeOfWords | extension/src/App.tsx:72-73 | `n` words separated by single spaces take ⌈n/200⌉ minutes: 200 words one, 201 words two |
| Popup.BlankTextTakesOneMinute | extension/src/App.tsx:72-73 | empty or blank text counts as one word, hence one minute |
| Popup.SaveBodyOutcome | extension/src/App.tsx:124-134 | the web app refuses a popup save with 400 exactly when the page URL or title is empty; otherwise it stores the popup's style and tags, so no default applies |
| Popup.SaveBody | extension/src/App.tsx:127-133 | the posted body is an object whose fields are the popup's URL, title, summary, style name and tags |
| Popup.SaveBodyFields | extension/src/App.tsx:127-133 | the record the web app builds from that body is exactly the popup's record |
| Popup.ParsedSentenceApplies | extension/src/App.tsx:92-97 | every sentence from the hook passes the ten-character guard, so it changes the page exactly when some text node contains it |
| Popup.PopupState.constructor | extension/src/App.tsx:24-34 | brief mode, no article text, empty question, nothing saved, zero time saved |
| Popup.PopupState.HandleSummarize | extension/src/App.tsx:76-88 | with article text the summary is requested and `savedTime` grows by exactly its reading time, whatever the outcome; without an API key only the missing-key error is set, and the summary and `loading` are kept; without article text, nothing changes; `savedTime` never decreases |
| Popup.PopupState.HandleHighlight | extension/src/App.tsx:90-102 | with article text and a non-empty sentence list the page is highlighted with exactly those sentences; otherwise nothing is sent and the page is unchanged |
| Popup.PopupState.HandleAsk | extension/src/App.tsx:104-108 | asks exactly when there is article text and a question with a non-space character, and then settles the answer; without an API key only the missing-key error is set, and the answer and `loading` are kept |
| Popup.PopupState.HandleSave | extension/src/App.tsx:116-145 | nothing without a summary; existing tags are reused and new ones generated only when there are none, and then the hook keeps the generated tags (its tags are unchanged when generating fails); the posted body carries them, and `saved` is set exactly on a 2xx answer |
| SummariesApi.Truthy | web/src/app/api/summaries/route.ts:24 | a property is falsy exactly when it is absent, `null`, `false`, `0` or "" |
| SummariesApi.NewRecord | web/src/app/api/summaries/route.ts:28-34 | the record keeps `url`, `title` and `summary` as given; `type` is the body's when truthy and "brief" otherwise, `tags` the body's when truthy and [] otherwise |
| SummariesApi.Post | web/src/app/api/summaries/route.ts:16-41 | 400 with 'Missing required fields' exactly when `url`, `title` or `summary` is falsy; 201 with the built record exactly when the body is valid and stored; 500 with 'Failed to create summary' otherwise; `success` exactly on 201 |
| SummariesApi.CreatedRecord | web/src/app/api/summaries/route.ts:28-36 | a created record keeps `url`, `title` and `summary`; `type` defaults to "brief" and `tags` to [] exactly when they are falsy |
| SummariesApi.EmptyCountsAsMissing | web/src/app/api/summaries/route.ts:24-26 | an empty required field is refused like an absent one |
| SummariesApi.Insert | web/src/app/api/summaries/route.ts:8 | inserting into a newest-first list keeps it newest first and adds exactly the entry |
| SummariesApi.SortNewestFirst | web/src/app/api/summaries/route.ts:8 | the result is newest first and a permutation of the input |
| SummariesApi.Get | web/src/app/api/summaries/route.ts:5-14 | with the database up, 200 and every stored summary newest first; otherwise 500 with 'Failed to fetch summaries' and no data |

## Left out

- Chrome messaging, tabs and storage are not modelled. The content script's two operations are direct method calls (`Page.OnMessage`). The popup's page URL, title and article text are fields set from outside. The load effect and the persisted `totalSavedTime` are not part of this model.
- The background script's `PING` handler is a transport check with no logic.
- The HTTP transport is an input:
  - the `fetch` to the language model is the `Service` parameter;
  - the model-listing request after a 400 or 404 is part of the `Service` too: its logging is left out, and a failure of that request or of its JSON, which throws before the API's own message, is the `Threw(message)` outcome that `GeminiResponse` passes on;
  - the POST to the web app is the `send` parameter.
- Service: it receives the structured `Prompt` rather than its text. `PromptText` gives the text. For summary requests the text determines the `Prompt`; for question requests it does not always, so a `Service` can tell apart requests that the real service receives as the same text.
- React's asynchronous state updates and rendering are not modelled. Each handler runs to completion; the `loading = true` state exists only inside a method.
- The copy button, the clipboard and the `setTimeout` flags (`copied`, and `saved` going back to false) are timing effects and are left out.
- `innerText` depends on layout and CSS, so it is a parameter (`InnerText`).
- White space: `trim` and `\s` use a fixed set (ASCII white space and no-break space), not the full Unicode set. String lengths count characters, not UTF-16 code units.
- `Math.ceil(words / 200)` is integer ceiling division; there is no floating point.
- JSON numbers are integers (`JNum`).
- Mongoose casting and the schema's own defaults (`createdAt`, the `type` enum) are not modelled. The store's acceptance is the `stores` parameter, and a stored summary carries its `createdAt` as a given integer.
- The web app's pages and components are rendering only.
- The default prompt of the style `switch` cannot be reached with the four styles, so it is not modelled.
- `setApiKey` only logs and is left out; the key is fixed when the hook is built.
- The content script's `if (parent)` checks always hold for a node reached under `<body>`, so they are not modelled. Likewise the popup's `tab?.id` check.
- A highlight request without sentences throws a TypeError after the reset. This is modelled as no reply with the reset applied.
- The document is modelled from `<body>` down. `querySelector('article')` and `querySelectorAll('p')` also search `<head>`, which holds neither element on a well-formed page, so `<head>` is not modelled.
