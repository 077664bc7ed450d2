/**
 * The extension's popup: the reading-time estimate, the running total of reading time
 * saved, and the handlers behind its buttons, which call the language-model hook, the
 * content script and the web app.
 */
module Popup {
  import opened Common
  import opened JsString
  import opened Dom
  import opened ContentScript
  import opened Gemini
  import opened SummariesApi

  // ---------------------------------------------------------------------------------------
  // Reading time
  // ---------------------------------------------------------------------------------------

  const WordsPerMinute: nat := 200

  /** The number of pieces `text.trim().split(/\s+/)` yields; never zero. */
  function WordCount(text: string): (n: nat)
    ensures n >= 1
  {
    |SplitWs(Trim(text))|
  }

  /** `Math.ceil(words / 200)`: the fewest whole minutes that cover the words. */
  function Minutes(words: nat): (m: nat)
    ensures m * WordsPerMinute >= words
    ensures m > 0 ==> (m - 1) * WordsPerMinute < words
  {
    (words + WordsPerMinute - 1) / WordsPerMinute
  }

  /** `calculateReadingTime`. */
  function ReadingTime(text: string): (m: nat)
    ensures m >= 1
  {
    Minutes(WordCount(text))
  }

  /** More words never take less time. */
  lemma MinutesMonotone(a: nat, b: nat)
    requires a <= b
    ensures Minutes(a) <= Minutes(b)
  {
  }

  /** A text of `n` words separated by single spaces takes ⌈n/200⌉ minutes: 200 words take
      one minute and 201 words take two. */
  lemma ReadingTimeOfWords(ws: seq<string>)
    requires |ws| > 0 && forall i :: 0 <= i < |ws| ==> IsWord(ws[i])
    ensures ReadingTime(Join(ws, " ")) == Minutes(|ws|)
    ensures |ws| == 200 ==> ReadingTime(Join(ws, " ")) == 1
    ensures |ws| == 201 ==> ReadingTime(Join(ws, " ")) == 2
  {
    JoinWordsTrimmed(ws);
    SplitWsJoin(ws);
  }

  /** Empty or blank text still counts as one word, hence one minute. */
  lemma BlankTextTakesOneMinute(text: string)
    requires AllSpace(text)
    ensures ReadingTime(text) == 1
  {
    TrimEmpty(text);
    assert IndexOfSpace("") == None;
  }

  // ---------------------------------------------------------------------------------------
  // The body posted to the web app
  // ---------------------------------------------------------------------------------------

  function Strings(xs: seq<string>): (r: seq<Json>)
    ensures |r| == |xs| && forall i :: 0 <= i < |xs| ==> r[i] == JStr(xs[i])
  {
    seq(|xs|, i requires 0 <= i < |xs| => JStr(xs[i]))
  }

  /** The JSON body `handleSave` posts. */
  function SaveBody(url: string, title: string, summary: string, mode: SummaryType, tags: seq<string>): (b: Json)
    ensures b.JObj?
    ensures Field(b, "url") == Some(JStr(url)) && Field(b, "title") == Some(JStr(title))
            && Field(b, "summary") == Some(JStr(summary))
    ensures Field(b, "type") == Some(JStr(TypeName(mode))) && Field(b, "tags") == Some(JArr(Strings(tags)))
  {
    JObj(map["url" := JStr(url), "title" := JStr(title), "summary" := JStr(summary),
             "type" := JStr(TypeName(mode)), "tags" := JArr(Strings(tags))])
  }

  /** The record the web app stores for a saved summary. */
  function SavedRecord(url: string, title: string, summary: string, mode: SummaryType, tags: seq<string>): Record {
    Record(JStr(url), JStr(title), JStr(summary), JStr(TypeName(mode)), JArr(Strings(tags)))
  }

  /** What the web app makes of a popup save: it is refused with 400 exactly when the page
      URL or title is empty (the summary never is), and otherwise the stored record keeps
      the popup's style and tags, an empty tag list included, so neither default applies. */
  lemma SaveBodyOutcome(url: string, title: string, summary: string, mode: SummaryType, tags: seq<string>,
                        stores: Record -> bool)
    requires summary != ""
    ensures var r := Post(true, Some(SaveBody(url, title, summary, mode, tags)), stores);
            (r.status == 400 <==> url == "" || title == "")
            && (r.status == 201 <==> url != "" && title != "" && stores(SavedRecord(url, title, summary, mode, tags)))
            && (r.status == 201 ==> r.data == Some(SavedRecord(url, title, summary, mode, tags)))
  {
    SaveBodyFields(url, title, summary, mode, tags);
  }

  /** The record the web app builds from the posted body is the popup's own. */
  lemma SaveBodyFields(url: string, title: string, summary: string, mode: SummaryType, tags: seq<string>)
    ensures NewRecord(SaveBody(url, title, summary, mode, tags)) == SavedRecord(url, title, summary, mode, tags)
  {
  }

  /** Every sentence the hook hands over is long enough for the highlighter's guard, so it
      changes the page exactly when some text node contains it. */
  lemma ParsedSentenceApplies(n: Node, reply: string, i: nat)
    requires i < |ParseHighlights(reply)|
    ensures var s := ParseHighlights(reply)[i];
            HighlightOne(n, s) != n <==> exists p :: Hit(n, p, s)
  {
    var s := ParseHighlights(reply)[i];
    HighlightOneMarks(n, s);
  }

  // ---------------------------------------------------------------------------------------
  // The popup's state and handlers
  // ---------------------------------------------------------------------------------------

  /** JavaScript truthiness of a string that may be `null`. */
  predicate Present(s: Option<string>) {
    s.Some? && s.value != ""
  }

  /** Whether an HTTP status counts as `response.ok`. */
  predicate IsOk(status: nat) {
    200 <= status < 300
  }

  class PopupState {
    const gemini: Gemini
    var articleText: Option<string>
    var mode: SummaryType
    var question: string
    var savedTime: nat
    var pageTitle: string
    var pageUrl: string
    var saved: bool

    /** The popup as first rendered: brief mode, nothing loaded, nothing saved. */
    constructor(g: Gemini)
      ensures gemini == g && articleText == None && mode == Brief && question == ""
      ensures savedTime == 0 && pageTitle == "" && pageUrl == "" && !saved
    {
      gemini := g;
      articleText, mode, question := None, Brief, "";
      savedTime, pageTitle, pageUrl, saved := 0, "", "", false;
    }

    /** `handleSummarize`: with article text, summarise it and add its reading time to the
        total saved, whether or not the summary succeeded; without, do nothing. */
    method HandleSummarize(service: Service)
      modifies this`savedTime, gemini`loading, gemini`error, gemini`summary
      ensures savedTime >= old(savedTime)
      ensures Present(articleText) ==> savedTime == old(savedTime) + ReadingTime(articleText.value)
      ensures Present(articleText) && gemini.apiKey != "" ==>
                !gemini.loading
                && (gemini.summary, gemini.error)
                   == Settled(GeminiResponse(service(SummaryPrompt(articleText.value, mode), gemini.apiKey)), SummaryFailed)
      ensures Present(articleText) && gemini.apiKey == "" ==>
                gemini.error == Some(MissingKeySummary) && gemini.summary == old(gemini.summary)
                && gemini.loading == old(gemini.loading)
      ensures !Present(articleText) ==> savedTime == old(savedTime) && unchanged(gemini)
    {
      if articleText.Some? && articleText.value != "" {
        gemini.GenerateSummary(articleText.value, mode, service);
        var time := ReadingTime(articleText.value);
        savedTime := savedTime + time;
      }
    }

    /** `handleHighlight`: with article text, ask for highlight sentences and, when there
        are any, have the page highlight them; returns the sentences sent. */
    method HandleHighlight(service: Service, page: Page) returns (sent: Option<seq<string>>)
      requires page.Valid()
      modifies page
      ensures page.Valid()
      ensures sent == (if Present(articleText) && HighlightsFor(gemini.apiKey, articleText.value, service) != []
                       then Some(HighlightsFor(gemini.apiKey, articleText.value, service)) else None)
      ensures sent.Some? ==> page.body == HighlightAll(Unmark(old(page.body)), sent.value)
      ensures sent.None? ==> page.body == old(page.body)
    {
      sent := None;
      if articleText.Some? && articleText.value != "" {
        var sentences := gemini.GenerateHighlights(articleText.value, service);
        if |sentences| > 0 {
          page.HighlightText(sentences);
          sent := Some(sentences);
        }
      }
    }

    /** `handleAsk`: ask only with article text and a question that is not blank. */
    method HandleAsk(service: Service) returns (asked: bool)
      modifies gemini`loading, gemini`error, gemini`answer
      ensures asked <==> Present(articleText) && Trim(question) != ""
      ensures asked && gemini.apiKey != "" ==>
                !gemini.loading
                && (gemini.answer, gemini.error)
                   == Settled(GeminiResponse(service(QuestionPrompt(articleText.value, question), gemini.apiKey)), AnswerFailed)
      ensures asked && gemini.apiKey == "" ==>
                gemini.error == Some(MissingKeyQuestion) && gemini.answer == old(gemini.answer)
                && gemini.loading == old(gemini.loading)
      ensures !asked ==> unchanged(gemini)
    {
      asked := articleText.Some? && articleText.value != "" && Trim(question) != "";
      if asked {
        gemini.AskQuestion(articleText.value, question, service);
      }
    }

    /** `handleSave`: without a summary nothing happens; otherwise the existing tags, or
        freshly generated ones when there are none (which the hook then keeps, as its
        `setTags` does), are posted with the page's URL and title, the summary and the style,
        and `saved` is set when the web app answers with a 2xx status. `send` is the web
        app's answer to a body, `None` when the request fails. */
    method HandleSave(service: Service, send: Json -> Option<nat>) returns (posted: Option<Json>)
      modifies this`saved, gemini`tags
      ensures !Present(old(gemini.summary)) ==> posted == None && saved == old(saved) && unchanged(gemini)
      ensures Present(old(gemini.summary)) && |old(gemini.tags)| > 0 ==>
                posted == Some(SaveBody(pageUrl, pageTitle, old(gemini.summary).value, mode, old(gemini.tags)))
                && unchanged(gemini)
      ensures Present(old(gemini.summary)) && old(gemini.tags) == [] ==>
                var text := if articleText.Some? then articleText.value else "";
                var generated := TagsFor(gemini.apiKey, text, service);
                posted == Some(SaveBody(pageUrl, pageTitle, old(gemini.summary).value, mode,
                                        if generated.Some? then generated.value else []))
                && (generated.Some? ==> gemini.tags == generated.value)
                && (generated.None? ==> gemini.tags == old(gemini.tags))
      ensures posted.Some? ==> saved == (old(saved) || (send(posted.value).Some? && IsOk(send(posted.value).value)))
    {
      posted := None;
      if gemini.summary.None? || gemini.summary.value == "" {
        return;
      }
      var currentTags: seq<string>;
      if |gemini.tags| > 0 {
        currentTags := gemini.tags;
      } else {
        currentTags := gemini.GenerateTags(if articleText.Some? then articleText.value else "", service);
      }
      var body := SaveBody(pageUrl, pageTitle, gemini.summary.value, mode, currentTags);
      posted := Some(body);
      var status := send(body);
      if status.Some? && IsOk(status.value) {
        saved := true;
      }
    }
  }
}
