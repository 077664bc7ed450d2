/**
 * The popup's language-model hook: it truncates the article, builds one prompt per request
 * kind, extracts the reply text from the service's answer, turns the reply into tags or
 * highlight sentences, and keeps the `loading` / `error` / `summary` / `answer` / `tags`
 * state the popup renders.
 */
module Gemini {
  import opened Common
  import opened JsString

  // ---------------------------------------------------------------------------------------
  // Truncation
  // ---------------------------------------------------------------------------------------

  /** The article limit for summaries and questions. */
  const SummaryLimit: nat := 20000
  /** The article limit for tags and highlights. */
  const TagLimit: nat := 15000
  const Ellipsis := "..."

  /** `text.length > limit ? text.substring(0, limit) + '...' : text` */
  function Truncate(text: string, limit: nat): (r: string)
    ensures |text| <= limit ==> r == text
    ensures |text| > limit ==> |r| == limit + |Ellipsis| && r[..limit] == text[..limit] && r[limit..] == Ellipsis
  {
    if |text| > limit then text[..limit] + Ellipsis else text
  }

  /** Truncating twice is truncating once. */
  lemma TruncateIdempotent(text: string, limit: nat)
    ensures Truncate(Truncate(text, limit), limit) == Truncate(text, limit)
  {
    var r := Truncate(text, limit);
    if |text| > limit {
      assert r[..limit] + Ellipsis == r;
    }
  }

  /** The texts truncation leaves alone: those within the limit, and those already cut to
      the limit and ending in the ellipsis. */
  lemma TruncateFixed(text: string, limit: nat)
    ensures Truncate(text, limit) == text
            <==> |text| <= limit || (|text| == limit + |Ellipsis| && text[limit..] == Ellipsis)
  {
    if |text| == limit + |Ellipsis| && text[limit..] == Ellipsis {
      assert text[..limit] + Ellipsis == text;
    }
  }

  // ---------------------------------------------------------------------------------------
  // Prompts
  // ---------------------------------------------------------------------------------------

  /** The four summary styles. */
  datatype SummaryType = Brief | Detailed | Bullets | Eli5

  /** The style's name as the popup stores it and posts it. */
  function TypeName(t: SummaryType): (name: string)
    ensures name in {"brief", "detailed", "bullets", "eli5"}
  {
    match t
    case Brief => "brief"
    case Detailed => "detailed"
    case Bullets => "bullets"
    case Eli5 => "eli5"
  }

  lemma TypeNameInjective(t1: SummaryType, t2: SummaryType)
    ensures TypeName(t1) == TypeName(t2) <==> t1 == t2
  {
    if t1 != t2 {
      assert TypeName(t1)[0] != TypeName(t2)[0] || TypeName(t1)[1] != TypeName(t2)[1];
    }
  }

  /** The first word of each style's instruction; the four differ in their first letter. */
  function FirstWord(t: SummaryType): (w: string)
    ensures |w| > 0
  {
    match t
    case Brief => "Keep"
    case Detailed => "Provide"
    case Bullets => "Summarize"
    case Eli5 => "Explain"
  }

  lemma FirstWordsDiffer(t1: SummaryType, t2: SummaryType)
    ensures FirstWord(t1)[0] == FirstWord(t2)[0] ==> t1 == t2
  {
  }

  /** The instruction that precedes the article in a summary prompt, after its first word. */
  function InstructionRest(t: SummaryType): string {
    match t
    case Brief => " it brief. Summarize the following article in 2-3 sentences:\n\n"
    case Detailed => " a detailed summary of the following article, covering all main points. Use paragraphs:\n\n"
    case Bullets => " the following article in 5-7 key points. Format each point starting with \"- \" (dash space):\n\n"
    case Eli5 => " the main ideas of this article as if I am 5 years old. Use simple language:\n\n"
  }

  /** The instruction that precedes the article in a summary prompt. */
  function StyleInstruction(t: SummaryType): (w: string)
    ensures |w| > 0 && w[0] == FirstWord(t)[0]
  {
    ConcatHead(FirstWord(t), InstructionRest(t));
    FirstWord(t) + InstructionRest(t)
  }

  lemma ConcatHead(a: string, b: string)
    requires |a| > 0
    ensures |a + b| > 0 && (a + b)[0] == a[0]
  {
  }

  const QuestionLead := "Answer this question based on the article provided. Question: \""
  const QuestionTail := "\"\n\nArticle:\n"
  const TagInstruction := "Analyze this article and provide exactly 3 relevant tags. Return ONLY the tags separated by commas, no other text. Example: Technology, AI, Future.\n\nArticle:\n"
  const HighlightInstruction := "Identify exactly 3 most important sentences from this article that capture the core message. Return ONLY the sentences separated by a pipe symbol \"|\". Do not alter the sentences, they must match the text exactly.\n\nArticle:\n"

  /** A request to the service: the kind of prompt with what it is built from, the article
      already cut to its limit. */
  datatype Prompt =
    | Summarize(style: SummaryType, article: string)
    | Question(question: string, article: string)
    | Tags(article: string)
    | Highlights(article: string)

  /** The summary request: the style and the article cut to 20000 characters. */
  function SummaryPrompt(text: string, t: SummaryType): (p: Prompt)
    ensures p.Summarize? && p.style == t && p.article == Truncate(text, SummaryLimit)
  {
    Summarize(t, Truncate(text, SummaryLimit))
  }

  /** The question request: the question and the article cut to 20000 characters. */
  function QuestionPrompt(text: string, question: string): (p: Prompt)
    ensures p.Question? && p.question == question && p.article == Truncate(text, SummaryLimit)
  {
    Question(question, Truncate(text, SummaryLimit))
  }

  /** The tag request: the article cut to 15000 characters. */
  function TagPrompt(text: string): (p: Prompt)
    ensures p.Tags? && p.article == Truncate(text, TagLimit)
  {
    Tags(Truncate(text, TagLimit))
  }

  /** The highlight request: the article cut to 15000 characters. */
  function HighlightPrompt(text: string): (p: Prompt)
    ensures p.Highlights? && p.article == Truncate(text, TagLimit)
  {
    Highlights(Truncate(text, TagLimit))
  }

  /** The text in front of the article: the style's instruction, the question in quotes,
      or the fixed tag or highlight instruction. */
  function Instruction(p: Prompt): (i: string)
    ensures |i| > 0
  {
    match p
    case Summarize(t, _) => StyleInstruction(t)
    case Question(q, _) => QuestionLead + q + QuestionTail
    case Tags(_) => TagInstruction
    case Highlights(_) => HighlightInstruction
  }

  /** The prompt text sent to the model: a non-empty instruction, then the article, which
      ends the text. */
  function PromptText(p: Prompt): (r: string)
    ensures |r| > |p.article| && EndsWith(r, p.article)
  {
    var i := Instruction(p);
    ArticleLast(i, p.article);
    i + p.article
  }

  lemma ArticleLast(i: string, a: string)
    ensures |i + a| == |i| + |a| && EndsWith(i + a, a)
  {
    assert (i + a)[|i|..] == a;
  }

  /** A request text is its instruction followed by the article: the article itself when it
      is within the limit, otherwise its first `limit` characters and "...". */
  lemma RequestText(p: Prompt, text: string, limit: nat)
    requires p.article == Truncate(text, limit)
    ensures var x, i := PromptText(p), Instruction(p);
            |i| <= |x| && x[..|i|] == i
            && (|text| <= limit ==> x[|i|..] == text)
            && (|text| > limit ==> x[|i|..] == text[..limit] + Ellipsis)
  {
    var x, i := PromptText(p), Instruction(p);
    assert x == i + p.article;
    assert x[..|i|] == i && x[|i|..] == p.article;
    if |text| > limit {
      assert p.article == p.article[..limit] + p.article[limit..];
    }
  }

  /** The summary request text: the style's instruction, then the article, cut after 20000
      characters with "..." appended. */
  lemma SummaryRequest(text: string, t: SummaryType)
    ensures var x, i := PromptText(SummaryPrompt(text, t)), StyleInstruction(t);
            |i| <= |x| && x[..|i|] == i
            && (|text| <= SummaryLimit ==> x[|i|..] == text)
            && (|text| > SummaryLimit ==> x[|i|..] == text[..SummaryLimit] + Ellipsis)
  {
    RequestText(SummaryPrompt(text, t), text, SummaryLimit);
  }

  /** The question request text: the question in quotes inside its fixed frame, then the
      article, cut after 20000 characters with "..." appended. */
  lemma QuestionRequest(text: string, question: string)
    ensures var x, i := PromptText(QuestionPrompt(text, question)), QuestionLead + question + QuestionTail;
            |i| <= |x| && x[..|i|] == i
            && (|text| <= SummaryLimit ==> x[|i|..] == text)
            && (|text| > SummaryLimit ==> x[|i|..] == text[..SummaryLimit] + Ellipsis)
  {
    RequestText(QuestionPrompt(text, question), text, SummaryLimit);
  }

  /** The tag request text: the fixed tag instruction, then the article, cut after 15000
      characters with "..." appended. */
  lemma TagRequest(text: string)
    ensures var x, i := PromptText(TagPrompt(text)), TagInstruction;
            |i| <= |x| && x[..|i|] == i
            && (|text| <= TagLimit ==> x[|i|..] == text)
            && (|text| > TagLimit ==> x[|i|..] == text[..TagLimit] + Ellipsis)
  {
    RequestText(TagPrompt(text), text, TagLimit);
  }

  /** The highlight request text: the fixed highlight instruction, then the article, cut
      after 15000 characters with "..." appended. */
  lemma HighlightRequest(text: string)
    ensures var x, i := PromptText(HighlightPrompt(text)), HighlightInstruction;
            |i| <= |x| && x[..|i|] == i
            && (|text| <= TagLimit ==> x[|i|..] == text)
            && (|text| > TagLimit ==> x[|i|..] == text[..TagLimit] + Ellipsis)
  {
    RequestText(HighlightPrompt(text), text, TagLimit);
  }

  /** The text of a summary prompt opens with the first letter of its style's first word,
      and the article follows the instruction. */
  lemma SummaryPromptShape(t: SummaryType, a: string)
    ensures var i, p := StyleInstruction(t), PromptText(Summarize(t, a));
            |p| > 0 && p[0] == FirstWord(t)[0] && |i| <= |p| && p[|i|..] == a
  {
    var i := StyleInstruction(t);
    assert PromptText(Summarize(t, a)) == i + a;
    HeadAndTail(i, a);
  }

  lemma HeadAndTail(i: string, a: string)
    requires |i| > 0
    ensures |i + a| > 0 && (i + a)[0] == i[0] && (i + a)[|i|..] == a
  {
  }

  /** Two summary requests with the same text are the same request: the text determines
      the style and the article. */
  lemma SummaryPromptDetermines(t1: SummaryType, a1: string, t2: SummaryType, a2: string)
    ensures PromptText(Summarize(t1, a1)) == PromptText(Summarize(t2, a2)) ==> t1 == t2 && a1 == a2
  {
    SummaryPromptShape(t1, a1);
    SummaryPromptShape(t2, a2);
    FirstWordsDiffer(t1, t2);
  }

  /** Two question requests with the same text and questions of the same length are the
      same request. */
  lemma QuestionPromptDetermines(q1: string, a1: string, q2: string, a2: string)
    ensures PromptText(Question(q1, a1)) == PromptText(Question(q2, a2)) && |q1| == |q2|
            ==> q1 == q2 && a1 == a2
  {
    var p1, p2 := PromptText(Question(q1, a1)), PromptText(Question(q2, a2));
    if p1 == p2 && |q1| == |q2| {
      QuestionParts(q1, a1);
      QuestionParts(q2, a2);
    }
  }

  /** The question's length matters: a question that contains the frame's closing text gives
      the same request text as a shorter question with a longer article. */
  lemma QuestionTextAmbiguous(x: string, y: string, z: string)
    ensures var q1, a1 := x + QuestionTail + y, z;
            var q2, a2 := x, y + QuestionTail + z;
            PromptText(Question(q1, a1)) == PromptText(Question(q2, a2)) && q1 != q2 && a1 != a2
  {
    var t := QuestionTail;
    assert PromptText(Question(x + t + y, z)) == QuestionLead + (x + t + y) + t + z;
    assert PromptText(Question(x, y + t + z)) == QuestionLead + x + t + (y + t + z);
    Regroup5(QuestionLead, x, t, y, z);
  }

  lemma Regroup5(l: string, x: string, t: string, y: string, z: string)
    ensures l + (x + t + y) + t + z == l + x + t + (y + t + z)
  {
  }

  lemma QuestionParts(q: string, a: string)
    ensures var p, m := PromptText(Question(q, a)), |QuestionLead|;
            m + |q| + |QuestionTail| <= |p| && p[m..m + |q|] == q && p[m + |q| + |QuestionTail|..] == a
  {
    var l, t := QuestionLead, QuestionTail;
    assert PromptText(Question(q, a)) == l + q + t + a;
    Parts(l, q, t, a);
  }

  lemma Parts(l: string, q: string, t: string, a: string)
    ensures var p := l + q + t + a;
            |l| + |q| + |t| <= |p| && p[|l|..|l| + |q|] == q && p[|l| + |q| + |t|..] == a
  {
  }

  // ---------------------------------------------------------------------------------------
  // Parsing replies
  // ---------------------------------------------------------------------------------------

  /** `s.split(sep).map(t => t.trim()).filter(t => t.length > min)` */
  function SplitTrimKeep(s: string, sep: char, min: nat): (r: seq<string>)
    ensures forall i :: 0 <= i < |r| ==> |r[i]| > min && IsTrimmed(r[i]) && !Includes(r[i], [sep])
  {
    var pieces := Split(s, [sep]);
    var trimmed := TrimAll(pieces);
    var r := KeepLonger(trimmed, min);
    SplitPiecesFree(s, [sep]);
    forall k | 0 <= k < |trimmed| ensures IsTrimmed(trimmed[k]) && !Includes(trimmed[k], [sep]) {
      TrimKeepsOut(pieces[k], [sep]);
    }
    r
  }

  /** The tag parser of `generateTags`: comma-separated pieces, trimmed, empty ones dropped. */
  function ParseTags(reply: string): (tags: seq<string>)
    ensures forall i :: 0 <= i < |tags| ==> tags[i] != "" && IsTrimmed(tags[i]) && !Includes(tags[i], ",")
  {
    SplitTrimKeep(reply, ',', 0)
  }

  /** The highlight parser of `generateHighlights`: pipe-separated pieces, trimmed, and only
      those longer than ten characters kept. */
  function ParseHighlights(reply: string): (sentences: seq<string>)
    ensures forall i :: 0 <= i < |sentences| ==> |sentences[i]| > 10 && IsTrimmed(sentences[i]) && !Includes(sentences[i], "|")
  {
    SplitTrimKeep(reply, '|', 10)
  }

  /** Both parsers keep pieces of the split in their order, trimmed. */
  lemma ParsersKeepOrder(reply: string)
    ensures IsSubsequence(ParseTags(reply), TrimAll(Split(reply, ",")))
    ensures IsSubsequence(ParseHighlights(reply), TrimAll(Split(reply, "|")))
  {
  }

  /** There are never more tags than commas plus one. */
  lemma ParseTagsCount(reply: string)
    ensures |ParseTags(reply)| <= multiset(reply)[','] + 1
  {
    SplitCharCount(reply, ',');
  }

  /** There are never more highlight sentences than pipes plus one. */
  lemma ParseHighlightsCount(reply: string)
    ensures |ParseHighlights(reply)| <= multiset(reply)['|'] + 1
  {
    SplitCharCount(reply, '|');
  }

  /** " " in front of every element. */
  function Spaced(xs: seq<string>): (r: seq<string>)
    ensures |r| == |xs| && forall i :: 0 <= i < |xs| ==> r[i] == " " + xs[i]
  {
    seq(|xs|, i requires 0 <= i < |xs| => " " + xs[i])
  }

  /** A space in front of a join with "c " is the join with "c" of the spaced elements. */
  lemma {:induction false} JoinSpaced(xs: seq<string>, c: char)
    requires |xs| > 0
    ensures " " + Join(xs, [c, ' ']) == Join(Spaced(xs), [c])
    decreases |xs|
  {
    if |xs| > 1 {
      var rest := Join(xs[1..], [c, ' ']);
      JoinSpaced(xs[1..], c);
      assert Spaced(xs)[1..] == Spaced(xs[1..]);
      Regroup(xs[0], c, rest);
    }
  }

  lemma Regroup(a: string, c: char, rest: string)
    ensures " " + (a + [c, ' '] + rest) == (" " + a) + [c] + (" " + rest)
    ensures a + [c, ' '] + rest == a + [c] + (" " + rest)
  {
  }

  /** Joining with a separator followed by a space is joining with the bare separator after
      putting a space in front of every element but the first. */
  lemma JoinSpaceAfter(xs: seq<string>, c: char)
    requires |xs| > 0
    ensures Join(xs, [c, ' ']) == Join([xs[0]] + Spaced(xs[1..]), [c])
  {
    if |xs| > 1 {
      var ys := [xs[0]] + Spaced(xs[1..]);
      var rest := Join(xs[1..], [c, ' ']);
      JoinSpaced(xs[1..], c);
      assert ys[1..] == Spaced(xs[1..]);
      Regroup(xs[0], c, rest);
    }
  }

  /** A reply in the format the tag prompt asks for ("Technology, AI, Future") parses back
      to exactly its tags. */
  lemma ParseTagsRoundTrip(xs: seq<string>)
    requires |xs| > 0
    requires forall i :: 0 <= i < |xs| ==> xs[i] != "" && IsTrimmed(xs[i]) && ',' !in xs[i]
    ensures ParseTags(Join(xs, ", ")) == xs
  {
    var ys := [xs[0]] + Spaced(xs[1..]);
    TagReplyPieces(xs);
    assert forall i :: 0 <= i < |xs| ==> |xs[i]| > 0;
    KeepLongerAll(xs, 0);
    SplitsTo(Join(xs, ", "), ys, xs);
  }

  /** The comma-separated pieces of the reply are the tags, each but the first with its
      space in front. */
  lemma TagReplyPieces(xs: seq<string>)
    requires |xs| > 0
    requires forall i :: 0 <= i < |xs| ==> IsTrimmed(xs[i]) && ',' !in xs[i]
    ensures var ys := [xs[0]] + Spaced(xs[1..]);
            Split(Join(xs, ", "), ",") == ys && TrimAll(ys) == xs
  {
    var ys := [xs[0]] + Spaced(xs[1..]);
    SpacedTags(xs);
    JoinSpaceAfter(xs, ',');
    JoinThenSplit(ys, ',');
  }

  /** A reply whose comma-separated pieces trim to non-empty tags parses to those tags. */
  lemma SplitsTo(reply: string, pieces: seq<string>, xs: seq<string>)
    requires Split(reply, ",") == pieces && TrimAll(pieces) == xs && KeepLonger(xs, 0) == xs
    ensures ParseTags(reply) == xs
  {
  }

  /** The spaced tags hold no comma and trim back to the tags. */
  lemma SpacedTags(xs: seq<string>)
    requires |xs| > 0
    requires forall i :: 0 <= i < |xs| ==> IsTrimmed(xs[i]) && ',' !in xs[i]
    ensures var ys := [xs[0]] + Spaced(xs[1..]);
            (forall i :: 0 <= i < |ys| ==> ',' !in ys[i]) && TrimAll(ys) == xs
  {
    var ys := [xs[0]] + Spaced(xs[1..]);
    forall i | 0 <= i < |ys| ensures ',' !in ys[i] && Trim(ys[i]) == xs[i] {
      if i == 0 {
        TrimTrimmed(xs[0]);
      } else {
        assert ys[i] == Spaced(xs[1..])[i - 1];
        SpacedTag(xs[i], ys[i]);
      }
    }
    TrimAllOf(ys, xs);
  }

  lemma SpacedTag(x: string, y: string)
    requires y == " " + x && IsTrimmed(x) && ',' !in x
    ensures ',' !in y && Trim(y) == x
  {
    TrimLeadingSpace(x);
  }

  lemma TrimAllOf(ys: seq<string>, xs: seq<string>)
    requires |ys| == |xs| && forall i :: 0 <= i < |ys| ==> Trim(ys[i]) == xs[i]
    ensures TrimAll(ys) == xs
  {
  }

  /** A reply in the format the highlight prompt asks for parses back to exactly its
      sentences, when each is longer than ten characters. */
  lemma ParseHighlightsRoundTrip(xs: seq<string>)
    requires |xs| > 0
    requires forall i :: 0 <= i < |xs| ==> |xs[i]| > 10 && IsTrimmed(xs[i]) && '|' !in xs[i]
    ensures ParseHighlights(Join(xs, "|")) == xs
  {
    HighlightPieces(xs);
    HighlightSplitsTo(Join(xs, "|"), xs);
  }

  /** The sentences, joined with "|", split back into themselves and pass the trimming and
      the length filter unchanged. */
  lemma HighlightPieces(xs: seq<string>)
    requires |xs| > 0
    requires forall i :: 0 <= i < |xs| ==> |xs[i]| > 10 && IsTrimmed(xs[i]) && '|' !in xs[i]
    ensures Split(Join(xs, "|"), "|") == xs && TrimAll(xs) == xs && KeepLonger(xs, 10) == xs
  {
    JoinThenSplit(xs, '|');
    TrimAllTrimmed(xs);
    KeepLongerAll(xs, 10);
  }

  /** A reply whose pipe-separated pieces are trimmed sentences of more than ten characters
      parses to those pieces. */
  lemma HighlightSplitsTo(reply: string, xs: seq<string>)
    requires Split(reply, "|") == xs && TrimAll(xs) == xs && KeepLonger(xs, 10) == xs
    ensures ParseHighlights(reply) == xs
  {
  }

  // ---------------------------------------------------------------------------------------
  // The service's answer
  // ---------------------------------------------------------------------------------------

  /** The parts of a `generateContent` reply that the hook reads; every level may be
      missing. */
  datatype Part = Part(text: Option<string>)
  datatype Content = Content(parts: Option<seq<Part>>)
  datatype Candidate = Candidate(content: Option<Content>)
  datatype Reply = Reply(candidates: Option<seq<Candidate>>)

  /** The reply reaches a first part of a first candidate's content. */
  predicate HasFirstPart(data: Option<Reply>) {
    data.Some? && data.value.candidates.Some? && |data.value.candidates.value| > 0
    && data.value.candidates.value[0].content.Some?
    && data.value.candidates.value[0].content.value.parts.Some?
    && |data.value.candidates.value[0].content.value.parts.value| > 0
  }

  /** `data?.candidates?.[0]?.content?.parts?.[0]?.text`: the first part's text when every
      step of the chain is present, and nothing as soon as one is missing. */
  function FirstPartText(data: Option<Reply>): (r: Option<string>)
    ensures !HasFirstPart(data) ==> r == None
    ensures HasFirstPart(data) ==> r == data.value.candidates.value[0].content.value.parts.value[0].text
  {
    match data
    case None => None
    case Some(reply) =>
      match reply.candidates
      case None => None
      case Some(cs) =>
        if cs == [] then None
        else match cs[0].content
          case None => None
          case Some(content) =>
            match content.parts
            case None => None
            case Some(ps) => if ps == [] then None else ps[0].text
  }

  const NoResponse := "No response available."

  /** The reply text, with the fallback for a missing or empty text. */
  function ResponseText(data: Option<Reply>): (r: string)
    ensures r != ""
    ensures r == NoResponse || FirstPartText(data) == Some(r)
  {
    match FirstPartText(data)
    case Some(t) => if t != "" then t else NoResponse
    case None => NoResponse
  }

  /** The reply with a single text part. */
  function SingleText(t: string): Reply {
    Reply(Some([Candidate(Some(Content(Some([Part(Some(t))]))))]))
  }

  /** A reply with one non-empty text part reads as that text. */
  lemma SingleTextReads(t: string)
    requires t != ""
    ensures GeminiResponse(Answered(Some(SingleText(t)))) == Ok(t)
  {
    assert FirstPartText(Some(SingleText(t))) == Some(t);
  }

  /** The text of the first part of the first candidate wins, whatever follows it; an empty
      text falls back like a missing one. */
  lemma ResponseTextFirst(t: string, moreParts: seq<Part>, moreCandidates: seq<Candidate>)
    ensures var reply := Reply(Some([Candidate(Some(Content(Some([Part(Some(t))] + moreParts))))] + moreCandidates));
            ResponseText(Some(reply)) == (if t != "" then t else NoResponse)
            && ResponseText(Some(reply)) == ResponseText(Some(SingleText(t)))
  {
  }

  /** How a call to the service ends: a successful reply, an error reply with its optional
      `error.message`, or an exception thrown by the request or by reading the body. */
  datatype ApiOutcome =
    | Answered(data: Option<Reply>)
    | Rejected(errorMessage: Option<string>)
    | Threw(message: string)

  /** The service, as a function of the request and the key. It answers the request whose
      text is `PromptText(p)`; a service that sees only the text is one that answers
      `PromptText(p)` and `PromptText(p')` alike. */
  type Service = (Prompt, string) -> ApiOutcome

  const ApiFailed := "API request failed"

  /** `getGeminiResponse`: the reply text, or the error it throws. */
  function GeminiResponse(o: ApiOutcome): (r: Result<string>)
    ensures r.Ok? <==> o.Answered?
    ensures r.Ok? ==> r.value != "" && r.value == ResponseText(o.data)
    ensures o.Rejected? ==> r.message != ""
    ensures o.Rejected? && o.errorMessage.Some? && o.errorMessage.value != "" ==> r.message == o.errorMessage.value
    ensures o.Rejected? && (o.errorMessage.None? || o.errorMessage.value == "") ==> r.message == ApiFailed
    ensures o.Threw? ==> r.message == o.message
  {
    match o
    case Answered(data) => Ok(ResponseText(data))
    case Rejected(m) => Err(if m.Some? && m.value != "" then m.value else ApiFailed)
    case Threw(m) => Err(m)
  }

  /** `err.message || fallback`: the message unless it is empty, so the text is empty only
      when both are. */
  function ErrorText(message: string, fallback: string): (r: string)
    ensures message != "" ==> r == message
    ensures message == "" ==> r == fallback
    ensures r == "" <==> message == "" && fallback == ""
  {
    if message != "" then message else fallback
  }

  /** The result slot and the error a finished request leaves: the reply and no error, or
      no result and the error message (`err.message || fallback`). */
  function Settled(outcome: Result<string>, fallback: string): (state: (Option<string>, Option<string>))
    ensures outcome.Ok? ==> state == (Some(outcome.value), None)
    ensures outcome.Err? ==> state.0 == None
    ensures outcome.Err? && outcome.message != "" ==> state.1 == Some(outcome.message)
    ensures outcome.Err? && outcome.message == "" ==> state.1 == Some(fallback)
  {
    match outcome
    case Ok(r) => (Some(r), None)
    case Err(m) => (None, Some(ErrorText(m, fallback)))
  }

  /** The tags `generateTags` parses from the reply, or `None` when it gives up (no key or
      a failed call). */
  function TagsFor(key: string, text: string, service: Service): (r: Option<seq<string>>)
    ensures r.Some? ==> forall i :: 0 <= i < |r.value| ==> r.value[i] != "" && IsTrimmed(r.value[i])
  {
    if key == "" then None
    else match GeminiResponse(service(TagPrompt(text), key))
      case Ok(reply) => Some(ParseTags(reply))
      case Err(_) => None
  }

  /** The sentences `generateHighlights` parses from the reply; none without a key or when
      the call fails. */
  function HighlightsFor(key: string, text: string, service: Service): (r: seq<string>)
    ensures forall i :: 0 <= i < |r| ==> |r[i]| > 10 && IsTrimmed(r[i]) && !Includes(r[i], "|")
    ensures key == "" ==> r == []
  {
    if key == "" then []
    else match GeminiResponse(service(HighlightPrompt(text), key))
      case Ok(reply) => ParseHighlights(reply)
      case Err(_) => []
  }

  lemma JoinNonEmpty(xs: seq<string>, sep: string)
    requires |xs| > 0 && xs[0] != ""
    ensures Join(xs, sep) != ""
  {
    JoinEnds(xs, sep);
  }

  /** With a key, a service answering with a single non-empty text gets that text parsed
      as tags or as highlight sentences. */
  lemma ParsedReply(key: string, text: string, service: Service, t: string)
    requires key != "" && t != ""
    ensures service(TagPrompt(text), key) == Answered(Some(SingleText(t))) ==> TagsFor(key, text, service) == Some(ParseTags(t))
    ensures service(HighlightPrompt(text), key) == Answered(Some(SingleText(t))) ==> HighlightsFor(key, text, service) == ParseHighlights(t)
  {
    SingleTextReads(t);
  }

  /** A service that answers the tag prompt with the tags written out as the prompt asks
      ("Technology, AI, Future") yields exactly those tags. */
  lemma TagsFromReply(key: string, text: string, service: Service, xs: seq<string>)
    requires key != "" && |xs| > 0
    requires forall i :: 0 <= i < |xs| ==> xs[i] != "" && IsTrimmed(xs[i]) && ',' !in xs[i]
    ensures service(TagPrompt(text), key) == Answered(Some(SingleText(Join(xs, ", "))))
            ==> TagsFor(key, text, service) == Some(xs)
  {
    JoinNonEmpty(xs, ", ");
    ParsedReply(key, text, service, Join(xs, ", "));
    ParseTagsRoundTrip(xs);
  }

  /** A service that answers the highlight prompt with sentences of more than ten
      characters separated by "|" yields exactly those sentences. */
  lemma HighlightsFromReply(key: string, text: string, service: Service, xs: seq<string>)
    requires key != "" && service(HighlightPrompt(text), key) == Answered(Some(SingleText(Join(xs, "|"))))
    requires |xs| > 0
    requires forall i :: 0 <= i < |xs| ==> |xs[i]| > 10 && IsTrimmed(xs[i]) && '|' !in xs[i]
    ensures HighlightsFor(key, text, service) == xs
  {
    var t := Join(xs, "|");
    JoinEnds(xs, "|");
    assert ParseHighlights(t) == xs by {
      ParseHighlightsRoundTrip(xs);
    }
    ParsedReply(key, text, service, t);
  }

  // ---------------------------------------------------------------------------------------
  // The hook's state
  // ---------------------------------------------------------------------------------------

  const MissingKeySummary := "Please set your Gemini API Key in options."
  const MissingKeyQuestion := "Please set your Gemini API Key first."
  const SummaryFailed := "Failed to generate summary"
  const AnswerFailed := "Failed to get answer"

  /** The state `useGemini` keeps, with the key fixed when the popup is built. */
  class Gemini {
    const apiKey: string
    var loading: bool
    var error: Option<string>
    var summary: Option<string>
    var answer: Option<string>
    var tags: seq<string>

    /** The key is the configured one, or "" when none is configured. */
    constructor(configured: Option<string>)
      ensures apiKey == (if configured.Some? then configured.value else "")
      ensures !loading && error == None && summary == None && answer == None && tags == []
    {
      apiKey := if configured.Some? then configured.value else "";
      loading, error, summary, answer, tags := false, None, None, None, [];
    }

    /** `generateSummary`: without a key only the error is set; otherwise the summary or
        the error message replaces the previous one, and loading ends in both cases. */
    method GenerateSummary(text: string, t: SummaryType, service: Service)
      modifies this`loading, this`error, this`summary
      ensures apiKey == "" ==>
                error == Some(MissingKeySummary) && loading == old(loading) && summary == old(summary)
      ensures apiKey != "" ==>
                !loading && (summary, error) == Settled(GeminiResponse(service(SummaryPrompt(text, t), apiKey)), SummaryFailed)
    {
      if apiKey == "" {
        error := Some(MissingKeySummary);
        return;
      }
      loading, error, summary := true, None, None;
      var prompt := SummaryPrompt(text, t);
      var result := GeminiResponse(service(prompt, apiKey));
      match result {
        case Ok(r) =>
          summary := Some(r);
        case Err(m) =>
          error := Some(ErrorText(m, SummaryFailed));
      }
      loading := false;
    }

    /** `askQuestion`: the same protocol, into `answer`. */
    method AskQuestion(text: string, question: string, service: Service)
      modifies this`loading, this`error, this`answer
      ensures apiKey == "" ==>
                error == Some(MissingKeyQuestion) && loading == old(loading) && answer == old(answer)
      ensures apiKey != "" ==>
                !loading && (answer, error) == Settled(GeminiResponse(service(QuestionPrompt(text, question), apiKey)), AnswerFailed)
    {
      if apiKey == "" {
        error := Some(MissingKeyQuestion);
        return;
      }
      loading, error, answer := true, None, None;
      var prompt := QuestionPrompt(text, question);
      var result := GeminiResponse(service(prompt, apiKey));
      match result {
        case Ok(r) =>
          answer := Some(r);
        case Err(m) =>
          error := Some(ErrorText(m, AnswerFailed));
      }
      loading := false;
    }

    /** `generateTags`: the parsed tags, which also become the hook's tags; no key or a
        failed call gives no tags and leaves the state alone. */
    method GenerateTags(text: string, service: Service) returns (result: seq<string>)
      modifies this`tags
      ensures TagsFor(apiKey, text, service).Some? ==>
                result == TagsFor(apiKey, text, service).value && tags == result
      ensures TagsFor(apiKey, text, service).None? ==> result == [] && tags == old(tags)
    {
      if apiKey == "" {
        return [];
      }
      var prompt := TagPrompt(text);
      match GeminiResponse(service(prompt, apiKey)) {
        case Ok(r) =>
          result := ParseTags(r);
          tags := result;
        case Err(_) =>
          result := [];
      }
    }

    /** `generateHighlights`: the parsed sentences, or none without a key or on failure;
        the state is untouched. */
    method GenerateHighlights(text: string, service: Service) returns (result: seq<string>)
      ensures result == HighlightsFor(apiKey, text, service)
      ensures apiKey == "" ==> result == []
      ensures forall i :: 0 <= i < |result| ==> |result[i]| > 10 && IsTrimmed(result[i])
    {
      if apiKey == "" {
        return [];
      }
      var prompt := HighlightPrompt(text);
      match GeminiResponse(service(prompt, apiKey)) {
        case Ok(r) =>
          result := ParseHighlights(r);
        case Err(_) =>
          result := [];
      }
    }
  }
}
